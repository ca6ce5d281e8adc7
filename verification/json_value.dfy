/**
 * The JSON value held by the tree editor, object member lists, and paths
 * addressing a location inside a value.
 */
module JsonValue {
  import opened Wrappers

  /**
   * A JSON value as `JSON.parse` produces it. An object is an ordered list of
   * members (JavaScript keeps insertion order); numbers are reals.
   */
  datatype Value =
    | Null
    | Bool(b: bool)
    | Number(n: real)
    | Str(s: string)
    | Arr(elems: seq<Value>)
    | Obj(members: seq<Member>)

  /** One object property. */
  datatype Member = Member(key: string, val: Value)

  /** One step of a path: an object key or an array index. */
  datatype Segment = Key(k: string) | Index(i: nat)

  /** A location inside a value; the empty path is the root. */
  type Path = seq<Segment>

  /** The keys of a member list, in order. */
  function KeysOf(ms: seq<Member>): (ks: seq<string>)
    ensures |ks| == |ms|
  {
    if ms == [] then [] else [ms[0].key] + KeysOf(ms[1..])
  }

  /** Position `i` of the key list is the key of member `i`. */
  lemma {:induction false} KeysOfIndex(ms: seq<Member>)
    ensures forall i :: 0 <= i < |ms| ==> KeysOf(ms)[i] == ms[i].key
  {
    if ms != [] {
      KeysOfIndex(ms[1..]);
    }
  }

  /** No key occurs twice, as in every JavaScript object. */
  predicate UniqueKeys(ms: seq<Member>) {
    forall i, j :: 0 <= i < j < |ms| ==> ms[i].key != ms[j].key
  }

  /** Every object inside `v`, at any depth, has unique keys. */
  predicate WellFormed(v: Value) {
    match v
    case Arr(elems) => forall i :: 0 <= i < |elems| ==> WellFormed(elems[i])
    case Obj(ms) => UniqueKeys(ms) && forall i :: 0 <= i < |ms| ==> WellFormed(ms[i].val)
    case _ => true
  }

  /** `obj[k]`: the value of the first member named `k`, if any. */
  function Lookup(ms: seq<Member>, k: string): (r: Option<Value>)
    ensures r.None? <==> k !in KeysOf(ms)
    ensures r.Some? ==> Member(k, r.value) in ms
  {
    if ms == [] then None
    else if ms[0].key == k then Some(ms[0].val)
    else
      Lookup(ms[1..], k)
  }

  /** With unique keys, the member at position `i` is what `Lookup` finds for its key. */
  lemma {:induction false} LookupUnique(ms: seq<Member>, i: int)
    requires UniqueKeys(ms) && 0 <= i < |ms|
    ensures Lookup(ms, ms[i].key) == Some(ms[i].val)
  {
    if i > 0 {
      assert ms[0].key != ms[i].key;
      assert ms[1..][i - 1] == ms[i];
      LookupUnique(ms[1..], i - 1);
    }
  }

  /**
   * `obj[k] = v`: an existing member named `k` is overwritten in place,
   * otherwise the new member is appended at the end.
   */
  function Put(ms: seq<Member>, k: string, v: Value): (r: seq<Member>)
    ensures Lookup(r, k) == Some(v)
  {
    if ms == [] then [Member(k, v)]
    else if ms[0].key == k then [Member(k, v)] + ms[1..]
    else [ms[0]] + Put(ms[1..], k, v)
  }

  /** An existing key keeps its position; a new key goes last. */
  lemma {:induction false} PutKeys(ms: seq<Member>, k: string, v: Value)
    ensures k in KeysOf(ms) ==> KeysOf(Put(ms, k, v)) == KeysOf(ms)
    ensures k !in KeysOf(ms) ==> KeysOf(Put(ms, k, v)) == KeysOf(ms) + [k]
  {
    if ms != [] {
      var r := Put(ms, k, v);
      if ms[0].key == k {
        assert r[1..] == ms[1..];
      } else {
        PutKeys(ms[1..], k, v);
        assert r[1..] == Put(ms[1..], k, v);
        assert KeysOf(ms) == [ms[0].key] + KeysOf(ms[1..]);
      }
    }
  }

  /** `Put` leaves every other key's value as it was. */
  lemma {:induction false} PutFrame(ms: seq<Member>, k: string, v: Value)
    ensures forall k' :: k' != k ==> Lookup(Put(ms, k, v), k') == Lookup(ms, k')
  {
    if ms != [] && ms[0].key != k {
      var r := Put(ms, k, v);
      assert r[0] == ms[0] && r[1..] == Put(ms[1..], k, v);
      PutFrame(ms[1..], k, v);
    }
  }

  /** Every member after `Put` is an old member or the new one. */
  lemma {:induction false} PutMembers(ms: seq<Member>, k: string, v: Value)
    ensures forall m :: m in Put(ms, k, v) ==> m in ms || m == Member(k, v)
  {
    if ms != [] && ms[0].key != k {
      PutMembers(ms[1..], k, v);
    }
  }

  /** Writing back the value a key already has changes nothing. */
  lemma {:induction false} PutExisting(ms: seq<Member>, k: string, v: Value)
    requires Lookup(ms, k) == Some(v)
    ensures Put(ms, k, v) == ms
  {
    if ms[0].key != k {
      PutExisting(ms[1..], k, v);
    }
  }

  /** `Put` keeps keys unique. */
  lemma PutUnique(ms: seq<Member>, k: string, v: Value)
    ensures UniqueKeys(ms) ==> UniqueKeys(Put(ms, k, v))
  {
    var r := Put(ms, k, v);
    PutKeys(ms, k, v);
    KeysOfIndex(r);
    KeysOfIndex(ms);
  }

  /** `delete obj[k]`: drops every member named `k`, keeping the others in order. */
  function Remove(ms: seq<Member>, k: string): (r: seq<Member>)
    ensures |r| <= |ms|
    ensures k !in KeysOf(r)
  {
    if ms == [] then []
    else if ms[0].key == k then Remove(ms[1..], k)
    else [ms[0]] + Remove(ms[1..], k)
  }

  /** The members left by `Remove` are exactly the old members with another key. */
  lemma {:induction false} RemoveMembers(ms: seq<Member>, k: string)
    ensures forall m :: m in Remove(ms, k) <==> m in ms && m.key != k
  {
    if ms != [] {
      RemoveMembers(ms[1..], k);
    }
  }

  /** `Remove` leaves every other key's value as it was, when keys are unique. */
  lemma {:induction false} RemoveFrame(ms: seq<Member>, k: string)
    ensures forall k' :: k' != k && UniqueKeys(ms) ==> Lookup(Remove(ms, k), k') == Lookup(ms, k')
  {
    if ms != [] {
      RemoveFrame(ms[1..], k);
      if UniqueKeys(ms) {
        assert UniqueKeys(ms[1..]);
      }
    }
  }

  /** Removing keeps keys unique. */
  lemma {:induction false} RemoveUnique(ms: seq<Member>, k: string)
    ensures UniqueKeys(ms) ==> UniqueKeys(Remove(ms, k))
  {
    if ms != [] && UniqueKeys(ms) {
      RemoveUnique(ms[1..], k);
      if ms[0].key != k {
        var rest := Remove(ms[1..], k);
        RemoveMembers(ms[1..], k);
        forall j | 0 <= j < |rest| ensures rest[j].key != ms[0].key {
          assert rest[j] in ms[1..];
        }
      }
    }
  }

  /**
   * With unique keys, deleting the key of the member at position `i` removes
   * exactly that member: the others stay, in their order.
   */
  lemma RemoveIsSplice(ms: seq<Member>, i: int)
    requires UniqueKeys(ms) && 0 <= i < |ms|
    ensures Remove(ms, ms[i].key) == ms[..i] + ms[i + 1..]
  {
    var k := ms[i].key;
    var before, after := ms[..i], ms[i + 1..];
    KeyOnlyAt(ms, i);
    calc {
      Remove(ms, k);
      { assert ms == (before + [ms[i]]) + after; }
      Remove((before + [ms[i]]) + after, k);
      { RemoveConcat(before + [ms[i]], after, k); }
      Remove(before + [ms[i]], k) + Remove(after, k);
      { RemoveConcat(before, [ms[i]], k); }
      Remove(before, k) + Remove([ms[i]], k) + Remove(after, k);
      { RemoveAbsent(before, k); RemoveAbsent(after, k); assert Remove([ms[i]], k) == []; }
      before + [] + after;
      { assert before + [] == before; }
      before + after;
    }
  }

  /** With unique keys, the key of member `i` occurs neither before nor after it. */
  lemma KeyOnlyAt(ms: seq<Member>, i: int)
    requires UniqueKeys(ms) && 0 <= i < |ms|
    ensures ms[i].key !in KeysOf(ms[..i]) && ms[i].key !in KeysOf(ms[i + 1..])
  {
    var before, after := ms[..i], ms[i + 1..];
    KeysOfIndex(before);
    KeysOfIndex(after);
    forall j | 0 <= j < |before| ensures KeysOf(before)[j] != ms[i].key {
      assert before[j] == ms[j];
    }
    forall j | 0 <= j < |after| ensures KeysOf(after)[j] != ms[i].key {
      assert after[j] == ms[i + 1 + j];
    }
  }

  /** Deleting from a concatenation deletes from each part. */
  lemma {:induction false} RemoveConcat(a: seq<Member>, b: seq<Member>, k: string)
    ensures Remove(a + b, k) == Remove(a, k) + Remove(b, k)
  {
    if a == [] {
      assert a + b == b;
    } else {
      assert (a + b)[0] == a[0];
      assert (a + b)[1..] == a[1..] + b;
      RemoveConcat(a[1..], b, k);
    }
  }

  /** Deleting a key that is not there changes nothing. */
  lemma {:induction false} RemoveAbsent(ms: seq<Member>, k: string)
    requires k !in KeysOf(ms)
    ensures Remove(ms, k) == ms
  {
    if ms != [] {
      RemoveAbsent(ms[1..], k);
    }
  }

  /** The direct child of a container at one segment; `None` when it does not exist. */
  function Child(v: Value, seg: Segment): Option<Value> {
    match (v, seg)
    case (Arr(elems), Index(i)) => if i < |elems| then Some(elems[i]) else None
    case (Obj(ms), Key(k)) => Lookup(ms, k)
    case _ => None
  }

  /** The value at `p` inside `v`, walking segments left to right. */
  function Resolve(v: Value, p: Path): Option<Value>
    decreases |p|
  {
    if p == [] then Some(v)
    else match Child(v, p[0])
      case None => None
      case Some(c) => Resolve(c, p[1..])
  }

  /** Resolving `p + [s]` is resolving `p` and then taking child `s`. */
  lemma {:induction false} ResolveAppend(v: Value, p: Path, s: Segment)
    ensures Resolve(v, p + [s]) ==
            match Resolve(v, p) case None => None case Some(c) => Child(c, s)
    decreases |p|
  {
    if p == [] {
      assert [s][1..] == [];
    } else {
      assert (p + [s])[0] == p[0];
      assert (p + [s])[1..] == p[1..] + [s];
      match Child(v, p[0])
      case None =>
      case Some(c) => ResolveAppend(c, p[1..], s);
    }
  }

  /** Resolving `p + q` is resolving `p` and then `q` from there. */
  lemma {:induction false} ResolveConcat(v: Value, p: Path, q: Path)
    ensures Resolve(v, p + q) ==
            match Resolve(v, p) case None => None case Some(c) => Resolve(c, q)
    decreases |p|
  {
    if p == [] {
      assert p + q == q;
    } else {
      assert (p + q)[0] == p[0];
      assert (p + q)[1..] == p[1..] + q;
      match Child(v, p[0])
      case None =>
      case Some(c) => ResolveConcat(c, p[1..], q);
    }
  }

  /** Two paths that part ways at some segment: neither is a prefix of the other. */
  predicate Disjoint(p: Path, q: Path)
    decreases |p|
  {
    p != [] && q != [] && (p[0] != q[0] || Disjoint(p[1..], q[1..]))
  }

  /** Disjoint paths are exactly the pairs where neither is a prefix of the other. */
  lemma {:induction false} DisjointIffNoPrefix(p: Path, q: Path)
    ensures Disjoint(p, q) <==> !(p <= q) && !(q <= p)
    decreases |p|
  {
    if p != [] && q != [] && p[0] == q[0] {
      DisjointIffNoPrefix(p[1..], q[1..]);
      assert p <= q <==> p[1..] <= q[1..];
      assert q <= p <==> q[1..] <= p[1..];
    }
  }
}
