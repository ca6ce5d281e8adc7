/**
 * The operation filter: keeps, in each tag group, the operations whose path,
 * summary, description, operationId, method or tag name contains the search
 * phrase (case-insensitively), and drops the groups left empty.
 */
module OpsFilter {
  import opened Wrappers
  import opened Text

  /** The fields of an operation's definition that are searched; each may be missing. */
  datatype OperationDetails = OperationDetails(
    summary: Option<string>,
    description: Option<string>,
    operationId: Option<string>)

  /** One operation entry of a tag group. */
  datatype Operation = Operation(
    path: Option<string>,
    httpMethod: Option<string>,
    operation: Option<OperationDetails>)

  /** One entry of the ordered tag map: the tag name, its other fields, and its operations. */
  datatype TagGroup<D> = TagGroup(tag: string, tagDetails: D, operations: seq<Operation>)

  /** `a` is `b` with some elements left out, order kept. */
  ghost predicate IsSubsequence<T>(a: seq<T>, b: seq<T>)
    decreases |b|
  {
    a == [] || (b != [] && ((a[0] == b[0] && IsSubsequence(a[1..], b[1..])) || IsSubsequence(a, b[1..])))
  }

  /** `contains`: false when either side is empty; else a case-insensitive substring test. */
  function Contains(phrase: string, target: string): (r: bool)
    ensures r <==> phrase != "" && target != "" && exists i :: OccursAt(ToLower(target), ToLower(phrase), i)
  {
    if phrase == "" || target == "" then false
    else
      IncludesIffOccurs(ToLower(target), ToLower(phrase));
      Includes(ToLower(target), ToLower(phrase))
  }

  /** `field || ""`: a missing field reads as the empty string. */
  function OrEmpty(field: Option<string>): string {
    match field
    case Some(s) => s
    case None => ""
  }

  /** The six texts searched for an operation listed under `tag`. */
  function SearchedFields(op: Operation, tag: string): (fs: seq<string>)
    ensures |fs| == 6 && fs[5] == tag
  {
    var details := op.operation;
    [ OrEmpty(op.path),
      if details.Some? then OrEmpty(details.value.summary) else "",
      if details.Some? then OrEmpty(details.value.description) else "",
      if details.Some? then OrEmpty(details.value.operationId) else "",
      OrEmpty(op.httpMethod),
      tag ]
  }

  /** The keep condition: the phrase is contained in one of the searched fields. */
  function Matches(phrase: string, tag: string, op: Operation): (r: bool)
    ensures r <==> exists f :: f in SearchedFields(op, tag) && Contains(phrase, f)
  {
    var fs := SearchedFields(op, tag);
    Contains(phrase, fs[0]) || Contains(phrase, fs[1]) || Contains(phrase, fs[2]) ||
    Contains(phrase, fs[3]) || Contains(phrase, fs[4]) || Contains(phrase, fs[5])
  }

  /** `operations.filter(...)` for one tag: the matching operations, in their order. */
  function KeepOperations(phrase: string, tag: string, ops: seq<Operation>): (r: seq<Operation>)
    ensures IsSubsequence(r, ops)
    ensures forall op :: op in r <==> op in ops && Matches(phrase, tag, op)
  {
    if ops == [] then []
    else
      var rest := KeepOperations(phrase, tag, ops[1..]);
      if Matches(phrase, tag, ops[0]) then
        var r := [ops[0]] + rest;
        assert r[1..] == rest;
        r
      else
        rest
  }

  /**
   * `filter` works entry by entry: a single operation is kept exactly when it
   * matches, and filtering a concatenation concatenates the results, so every
   * matching entry is kept as often as it occurs.
   */
  lemma {:induction false} KeepOperationsSplits(phrase: string, tag: string, a: seq<Operation>, b: seq<Operation>)
    ensures KeepOperations(phrase, tag, a + b) == KeepOperations(phrase, tag, a) + KeepOperations(phrase, tag, b)
    ensures |a| == 1 ==> KeepOperations(phrase, tag, a) == if Matches(phrase, tag, a[0]) then a else []
  {
    if a == [] {
      assert a + b == b;
    } else {
      assert (a + b)[0] == a[0];
      assert (a + b)[1..] == a[1..] + b;
      KeepOperationsSplits(phrase, tag, a[1..], b);
      if |a| == 1 {
        assert a[1..] == [];
      }
    }
  }

  /** `tagObj.set("operations", matched)`: only the operations field changes. */
  function Narrow<D>(phrase: string, g: TagGroup<D>): (r: TagGroup<D>)
    ensures r.tag == g.tag && r.tagDetails == g.tagDetails
    ensures IsSubsequence(r.operations, g.operations)
    ensures forall op :: op in r.operations <==> op in g.operations && Matches(phrase, g.tag, op)
  {
    g.(operations := KeepOperations(phrase, g.tag, g.operations))
  }

  /** The tag names of a sequence of groups, in order. */
  function Tags<D>(gs: seq<TagGroup<D>>): (ts: seq<string>)
    ensures |ts| == |gs|
    ensures forall i :: 0 <= i < |gs| ==> ts[i] == gs[i].tag
  {
    if gs == [] then [] else [gs[0].tag] + Tags(gs[1..])
  }

  /** Narrows every group and drops the ones left without operations. */
  function FilterGroups<D>(phrase: string, gs: seq<TagGroup<D>>): (r: seq<TagGroup<D>>)
    ensures forall g :: g in r ==> |g.operations| > 0
    ensures forall g :: g in r ==> exists h :: h in gs && g == Narrow(phrase, h)
    ensures forall h :: h in gs && |Narrow(phrase, h).operations| > 0 ==> Narrow(phrase, h) in r
    ensures IsSubsequence(Tags(r), Tags(gs))
  {
    if gs == [] then []
    else
      var g := Narrow(phrase, gs[0]);
      var rest := FilterGroups(phrase, gs[1..]);
      assert Tags(gs)[1..] == Tags(gs[1..]);
      if |g.operations| > 0 then
        var r := [g] + rest;
        assert r[1..] == rest;
        assert Tags(r)[1..] == Tags(rest);
        r
      else
        rest
  }

  /**
   * The exported filter: a missing or blank phrase returns the groups as they
   * are; otherwise the trimmed phrase filters them.
   */
  function FilterTaggedOps<D>(taggedOps: seq<TagGroup<D>>, phrase: Option<string>): (r: seq<TagGroup<D>>)
    ensures phrase.None? || IsBlank(phrase.value) ==> r == taggedOps
    ensures phrase.Some? && !IsBlank(phrase.value) ==> r == FilterGroups(Trim(phrase.value), taggedOps)
  {
    if phrase.None? then taggedOps
    else
      TrimEmptyIffBlank(phrase.value);
      if Trim(phrase.value) == "" then taggedOps
      else FilterGroups(Trim(phrase.value), taggedOps)
  }

  /** An operation listed under a tag whose name contains the phrase is always kept. */
  lemma TagMatchKeepsAll<D>(phrase: string, g: TagGroup<D>)
    requires Contains(phrase, g.tag)
    ensures Narrow(phrase, g) == g
  {
    KeepAllMatching(phrase, g.tag, g.operations);
  }

  /** Filtering operations that all match keeps them all. */
  lemma {:induction false} KeepAllMatching(phrase: string, tag: string, ops: seq<Operation>)
    requires forall op :: op in ops ==> Matches(phrase, tag, op)
    ensures KeepOperations(phrase, tag, ops) == ops
  {
    if ops != [] {
      KeepAllMatching(phrase, tag, ops[1..]);
    }
  }

  /** Filtering the result again with the same phrase changes nothing. */
  lemma {:induction false} FilterGroupsIdempotent<D>(phrase: string, gs: seq<TagGroup<D>>)
    ensures FilterGroups(phrase, FilterGroups(phrase, gs)) == FilterGroups(phrase, gs)
  {
    if gs != [] {
      var g := Narrow(phrase, gs[0]);
      var rest := FilterGroups(phrase, gs[1..]);
      FilterGroupsIdempotent(phrase, gs[1..]);
      if |g.operations| > 0 {
        KeepAllMatching(phrase, g.tag, g.operations);
        assert ([g] + rest)[1..] == rest;
      }
    }
  }

  /** The whole filter is idempotent for a fixed phrase. */
  lemma FilterIdempotent<D>(taggedOps: seq<TagGroup<D>>, phrase: Option<string>)
    ensures FilterTaggedOps(FilterTaggedOps(taggedOps, phrase), phrase) == FilterTaggedOps(taggedOps, phrase)
  {
    if phrase.Some? && !IsBlank(phrase.value) {
      FilterGroupsIdempotent(Trim(phrase.value), taggedOps);
    }
  }
}
