/**
 * Path-addressed mutation of a JSON value: the navigate-then-assign step of
 * `JsonEditor.handleChange` and the splice/delete that a parent node's
 * `onDelete` closure performs.
 */
module TreeMutator {
  import opened Wrappers
  import opened JsonValue

  /** The segment kind matches the container kind: an index into an array or a key into an object. */
  predicate Addressable(v: Value, seg: Segment) {
    (v.Arr? && seg.Index?) || (v.Obj? && seg.Key?)
  }

  /**
   * `current[seg] = x` succeeds: any key of an object, or an array index that
   * exists or is one past the end (which appends).
   */
  predicate Settable(v: Value, seg: Segment) {
    Addressable(v, seg) && (v.Arr? ==> seg.i <= |v.elems|)
  }

  /** The container after `current[seg] = x`; `None` when JavaScript would throw. */
  function SetChild(v: Value, seg: Segment, x: Value): (r: Option<Value>)
    ensures r.Some? <==> Settable(v, seg)
    ensures r.Some? ==> Child(r.value, seg) == Some(x)
    ensures r.Some? ==> forall s :: s != seg ==> Child(r.value, s) == Child(v, s)
    ensures r.Some? && v.Arr? ==>
              r.value.Arr? && |r.value.elems| == if seg.i == |v.elems| then |v.elems| + 1 else |v.elems|
    ensures r.Some? && v.Obj? ==>
              && r.value.Obj?
              && (seg.k in KeysOf(v.members) ==> KeysOf(r.value.members) == KeysOf(v.members))
              && (seg.k !in KeysOf(v.members) ==> KeysOf(r.value.members) == KeysOf(v.members) + [seg.k])
    ensures r.Some? && WellFormed(v) && WellFormed(x) ==> WellFormed(r.value)
  {
    match (v, seg)
    case (Arr(elems), Index(i)) => if i <= |elems| then Some(Arr(SetElement(elems, i, x))) else None
    case (Obj(ms), Key(k)) => Some(Obj(SetMember(ms, k, x)))
    case _ => None
  }

  /** `array[i] = x` for an index that exists or is the length (an append). */
  function SetElement(elems: seq<Value>, i: nat, x: Value): (r: seq<Value>)
    requires i <= |elems|
    ensures |r| == if i == |elems| then |elems| + 1 else |elems|
    ensures r[i] == x
    ensures forall j :: 0 <= j < |r| && j != i ==> r[j] == elems[j]
    ensures (forall j :: 0 <= j < |elems| ==> WellFormed(elems[j])) && WellFormed(x) ==>
              forall j :: 0 <= j < |r| ==> WellFormed(r[j])
  {
    if i < |elems| then elems[i := x] else elems + [x]
  }

  /** `object[k] = x`: `Put`, with the facts about it collected. */
  function SetMember(ms: seq<Member>, k: string, x: Value): (r: seq<Member>)
    ensures Lookup(r, k) == Some(x)
    ensures forall k' :: k' != k ==> Lookup(r, k') == Lookup(ms, k')
    ensures k in KeysOf(ms) ==> KeysOf(r) == KeysOf(ms)
    ensures k !in KeysOf(ms) ==> KeysOf(r) == KeysOf(ms) + [k]
    ensures WellFormed(Obj(ms)) && WellFormed(x) ==> WellFormed(Obj(r))
  {
    PutFrame(ms, k, x);
    PutUnique(ms, k, x);
    PutMembers(ms, k, x);
    PutKeys(ms, k, x);
    var r := Put(ms, k, x);
    assert forall j :: 0 <= j < |r| ==> r[j] in ms || r[j] == Member(k, x);
    r
  }

  /**
   * `handleChange`'s assignment: the root is replaced by an empty path;
   * otherwise the walk to the parent (`current = current[path[i]]`) must find
   * every intermediate value and the last segment must be settable on the
   * parent, else JavaScript throws a TypeError (modelled as `None`). It
   * succeeds exactly when the path's parent exists and accepts the last segment.
   */
  function SetAt(v: Value, p: Path, x: Value): (r: Option<Value>)
    ensures r.Some? <==> CanSet(v, p)
    decreases |p|
  {
    if p == [] then Some(x)
    else if |p| == 1 then SetChild(v, p[0], x)
    else
      assert Parent(p)[0] == p[0];
      assert Parent(p)[1..] == Parent(p[1..]);
      match Child(v, p[0])
      case None => None
      case Some(c) =>
        match SetAt(c, p[1..], x)
        case None => None
        case Some(c') => SetChild(v, p[0], c')
  }

  /** All segments but the last. */
  function Parent(p: Path): Path
    requires p != []
  {
    p[..|p| - 1]
  }

  /** The path is the root, or it resolves to a parent on which its last segment is settable. */
  predicate CanSet(v: Value, p: Path) {
    p == [] ||
    match Resolve(v, Parent(p))
    case None => false
    case Some(par) => Settable(par, p[|p| - 1])
  }

  /** Writing back the value a location already holds leaves the document as it was. */
  lemma {:induction false} SetAtSame(v: Value, p: Path, x: Value)
    requires Resolve(v, p) == Some(x)
    ensures SetAt(v, p, x) == Some(v)
    decreases |p|
  {
    if p != [] {
      var c := Child(v, p[0]).value;
      if |p| > 1 {
        SetAtSame(c, p[1..], x);
      }
      match v
      case Arr(elems) =>
        assert elems[p[0].i := c] == elems;
      case Obj(ms) =>
        PutExisting(ms, p[0].k, c);
    }
  }

  /** Every location that already exists can be overwritten. */
  lemma ExistingIsSettable(v: Value, p: Path, x: Value)
    requires Resolve(v, p).Some?
    ensures SetAt(v, p, x).Some?
  {
    if p != [] {
      assert p == Parent(p) + [p[|p| - 1]];
      ResolveAppend(v, Parent(p), p[|p| - 1]);
    }
  }

  /**
   * After a successful `SetAt`, the subtree at `p` is `x`: for every `q`,
   * the location `p + q` holds what `x` holds at `q`.
   */
  lemma {:induction false} SetAtSubtree(v: Value, p: Path, x: Value, q: Path)
    requires SetAt(v, p, x).Some?
    ensures Resolve(SetAt(v, p, x).value, p + q) == Resolve(x, q)
    decreases |p|
  {
    if p == [] {
      assert p + q == q;
    } else {
      var w := SetAt(v, p, x).value;
      assert (p + q)[0] == p[0];
      assert (p + q)[1..] == p[1..] + q;
      if |p| == 1 {
        assert p[1..] + q == q;
      } else {
        var c := Child(v, p[0]).value;
        SetAtSubtree(c, p[1..], x, q);
      }
    }
  }

  /** After a successful `SetAt`, the addressed location holds the new value. */
  lemma SetAtResolves(v: Value, p: Path, x: Value)
    requires SetAt(v, p, x).Some?
    ensures Resolve(SetAt(v, p, x).value, p) == Some(x)
  {
    SetAtSubtree(v, p, x, []);
    assert p + [] == p;
  }

  /** Every location disjoint from `p` (neither its ancestor nor inside it) is unchanged. */
  lemma {:induction false} SetAtFrame(v: Value, p: Path, x: Value, q: Path)
    requires SetAt(v, p, x).Some? && Disjoint(p, q)
    ensures Resolve(SetAt(v, p, x).value, q) == Resolve(v, q)
    decreases |p|
  {
    var w := SetAt(v, p, x).value;
    if p[0] == q[0] {
      var c := Child(v, p[0]).value;
      SetAtFrame(c, p[1..], x, q[1..]);
    }
  }

  /** `SetAtFrame` for all disjoint locations at once. */
  lemma SetAtFrameAll(v: Value, p: Path, x: Value)
    requires SetAt(v, p, x).Some?
    ensures forall q :: Disjoint(p, q) ==> Resolve(SetAt(v, p, x).value, q) == Resolve(v, q)
  {
    forall q | Disjoint(p, q) ensures Resolve(SetAt(v, p, x).value, q) == Resolve(v, q) {
      SetAtFrame(v, p, x, q);
    }
  }

  /**
   * `b` is container `a` after an assignment to its child `seg`, as far as its
   * shape goes: an array keeps its length unless `seg` appends; an object keeps
   * its key order, and a new key goes last.
   */
  predicate KeepsShape(a: Value, b: Value, seg: Segment) {
    match (a, seg)
    case (Arr(elems), Index(i)) => b.Arr? && |b.elems| == if i < |elems| then |elems| else |elems| + 1
    case (Obj(ms), Key(k)) =>
      b.Obj? && KeysOf(b.members) == if k in KeysOf(ms) then KeysOf(ms) else KeysOf(ms) + [k]
    case _ => false
  }

  /**
   * The ancestor of the assigned location at depth `n` exists before and after,
   * and its shape is kept: every ancestor above the parent keeps its array
   * length or its key order, because its child on the path already existed.
   */
  predicate AncestorKept(v: Value, w: Value, p: Path, n: nat)
    requires n < |p|
  {
    && Resolve(v, p[..n]).Some?
    && Resolve(w, p[..n]).Some?
    && KeepsShape(Resolve(v, p[..n]).value, Resolve(w, p[..n]).value, p[n])
  }

  /** `SetAt` assigns in place: each ancestor of `p` keeps its kind, its length or its key order. */
  lemma {:induction false} SetAtKeepsAncestor(v: Value, p: Path, x: Value, n: nat)
    requires SetAt(v, p, x).Some? && n < |p|
    ensures AncestorKept(v, SetAt(v, p, x).value, p, n)
    decreases n
  {
    var w := SetAt(v, p, x).value;
    if n == 0 {
      assert p[..0] == [];
    } else {
      var c := Child(v, p[0]).value;
      var c' := SetAt(c, p[1..], x).value;
      assert Child(w, p[0]) == Some(c');
      SetAtKeepsAncestor(c, p[1..], x, n - 1);
      assert p[..n][0] == p[0];
      assert p[..n][1..] == p[1..][..n - 1];
      assert p[n] == p[1..][n - 1];
    }
  }

  /** `SetAtKeepsAncestor` for every depth at once. */
  lemma SetAtKeepsAncestors(v: Value, p: Path, x: Value)
    requires SetAt(v, p, x).Some?
    ensures forall n: nat :: n < |p| ==> AncestorKept(v, SetAt(v, p, x).value, p, n)
  {
    forall n: nat | n < |p| ensures AncestorKept(v, SetAt(v, p, x).value, p, n) {
      SetAtKeepsAncestor(v, p, x, n);
    }
  }

  /**
   * `w` is `v` changed only at `p`: every location disjoint from `p` resolves
   * as before, and every ancestor of `p` keeps its shape.
   */
  ghost predicate FramedAt(v: Value, w: Value, p: Path) {
    && (forall q :: Disjoint(p, q) ==> Resolve(w, q) == Resolve(v, q))
    && (forall n: nat :: n < |p| ==> AncestorKept(v, w, p, n))
  }

  /** Setting a well-formed value into a well-formed document keeps object keys unique everywhere. */
  lemma {:induction false} SetAtWellFormed(v: Value, p: Path, x: Value)
    requires SetAt(v, p, x).Some?
    ensures WellFormed(v) && WellFormed(x) ==> WellFormed(SetAt(v, p, x).value)
    decreases |p|
  {
    if |p| >= 2 && WellFormed(v) {
      var c := Child(v, p[0]).value;
      ChildWellFormed(v, p[0]);
      SetAtWellFormed(c, p[1..], x);
    }
  }

  /** Children of a well-formed value are well-formed. */
  lemma ChildWellFormed(v: Value, seg: Segment)
    requires WellFormed(v) && Child(v, seg).Some?
    ensures WellFormed(Child(v, seg).value)
  {
    if v.Obj? {
      var ms := v.members;
      var i :| 0 <= i < |ms| && ms[i] == Member(seg.k, Child(v, seg).value);
    }
  }

  /**
   * Assigning through a parent path is replacing the parent by the parent
   * with that one child set: how `addProperty` and `onDelete` reach the tree.
   */
  lemma {:induction false} SetAtExtend(v: Value, p: Path, s: Segment, x: Value)
    requires Resolve(v, p).Some? && Settable(Resolve(v, p).value, s)
    ensures SetAt(v, p + [s], x) == SetAt(v, p, SetChild(Resolve(v, p).value, s, x).value)
    decreases |p|
  {
    if p != [] {
      assert (p + [s])[0] == p[0];
      assert (p + [s])[1..] == p[1..] + [s];
      var c := Child(v, p[0]).value;
      SetAtExtend(c, p[1..], s, x);
    } else {
      assert [s][1..] == [];
    }
  }

  /** `array.splice(i, 1)`: removes the element at `i`; an index past the end removes nothing. */
  function Splice<T>(s: seq<T>, i: nat): (r: seq<T>)
    ensures i < |s| ==> |r| == |s| - 1
    ensures i >= |s| ==> r == s
    ensures forall j :: 0 <= j < i && j < |r| ==> r[j] == s[j]
    ensures forall j :: i <= j < |r| ==> r[j] == s[j + 1]
  {
    if i < |s| then s[..i] + s[i + 1..] else s
  }

  /**
   * The parent's new value in the `onDelete` closure: an array is spliced at
   * the index, an object loses the key.
   */
  function DeleteChild(v: Value, seg: Segment): (r: Value)
    requires Addressable(v, seg)
    ensures r.Arr? == v.Arr? && r.Obj? == v.Obj?
    ensures Child(r, seg).Some? <==> v.Arr? && seg.i < |v.elems| - 1
    ensures v.Arr? && seg.i < |v.elems| ==> |r.elems| == |v.elems| - 1
    ensures v.Arr? ==> forall j: nat :: j < seg.i ==> Child(r, Index(j)) == Child(v, Index(j))
    ensures v.Arr? ==> forall j: nat :: j >= seg.i ==> Child(r, Index(j)) == Child(v, Index(j + 1))
    ensures v.Obj? && UniqueKeys(v.members) ==>
              forall s :: s != seg ==> Child(r, s) == Child(v, s)
    ensures WellFormed(v) ==> WellFormed(r)
  {
    match v
    case Arr(elems) => Arr(Splice(elems, seg.i))
    case Obj(ms) =>
      RemoveUnique(ms, seg.k);
      RemoveMembers(ms, seg.k);
      RemoveFrame(ms, seg.k);
      var r := Remove(ms, seg.k);
      assert forall j :: 0 <= j < |r| ==> r[j] in ms;
      Obj(r)
  }

  /** Deleting an existing object key removes exactly that member and keeps the order of the rest. */
  lemma DeleteKeyIsSplice(ms: seq<Member>, i: int)
    requires UniqueKeys(ms) && 0 <= i < |ms|
    ensures DeleteChild(Obj(ms), Key(ms[i].key)) == Obj(Splice(ms, i))
  {
    RemoveIsSplice(ms, i);
  }
}
