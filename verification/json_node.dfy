/**
 * One `JsonNode` of the tree: its own UI flags, and the actions its buttons
 * and text box trigger (edit a leaf, add a child, delete a child), each ending
 * in a call of the editor's `handleChange`.
 */
module JsonNode {
  import opened Wrappers
  import opened JsonValue
  import opened JsonText
  import opened Text
  import opened TreeMutator
  import opened Coercion
  import opened JsonEditor

  /** A node's own state; `isEditingKey` is only ever cleared, never set. */
  datatype NodeState = NodeState(
    isExpanded: bool,
    isEditingKey: bool,
    isEditingValue: bool,
    editValue: string)

  /** A freshly displayed node: expanded and not editing. */
  const InitialNode: NodeState := NodeState(true, false, false, "")

  /** `toggleExpand`: flips expanded/collapsed and touches nothing else. */
  function ToggleExpand(s: NodeState): (r: NodeState)
    ensures r.isExpanded != s.isExpanded
    ensures r.(isExpanded := s.isExpanded) == s
  {
    s.(isExpanded := !s.isExpanded)
  }

  /** Toggling twice restores the node. */
  lemma ToggleTwice(s: NodeState)
    ensures ToggleExpand(ToggleExpand(s)) == s
  {
  }

  /** The text an edit starts from: a string's own characters, any other value's JSON text. */
  function EditSeed(rt: JsRuntime, data: Value): string {
    if data.Str? then data.s else rt.stringify(data)
  }

  /** `startEditValue`: enters edit mode with the seed text of the node's value. */
  function StartEditValue(rt: JsRuntime, s: NodeState, data: Value): (r: NodeState)
    ensures r.isEditingValue
    ensures r.isExpanded == s.isExpanded && r.isEditingKey == s.isEditingKey
    ensures data.Str? ==> r.editValue == data.s
    ensures !data.Str? ==> r.editValue == rt.stringify(data)
  {
    s.(isEditingValue := true, editValue := EditSeed(rt, data))
  }

  /** The text box's change handler: the pending text follows what is typed. */
  function SetEditText(s: NodeState, text: string): (r: NodeState)
    ensures r.editValue == text
    ensures r.(editValue := s.editValue) == s
  {
    s.(editValue := text)
  }

  /** `cancelEdit`: leaves both edit modes; the document is not involved. */
  function CancelEdit(s: NodeState): (r: NodeState)
    ensures !r.isEditingValue && !r.isEditingKey
    ensures r.isExpanded == s.isExpanded && r.editValue == s.editValue
  {
    s.(isEditingValue := false, isEditingKey := false)
  }

  /** What confirming an edit did: editor and node state, text sent to the host, and whether "Invalid value" was alerted. */
  datatype SaveOutcome = SaveOutcome(editor: Editor, node: NodeState, emitted: Option<string>, alerted: bool)

  /**
   * `saveEditValue`: coerces the pending text and hands it to `handleChange`
   * at the node's path. When that throws, the alert is shown and nothing
   * changes (the node stays in edit mode); otherwise edit mode ends, and only
   * the node's location changes: the error field, every disjoint location and
   * the ancestors' shapes are kept (against the clone of the document, which
   * is the document itself when it round-trips).
   */
  function SaveEditValue(rt: JsRuntime, ed: Editor, readOnly: bool, s: NodeState, path: Path): (r: SaveOutcome)
    ensures r.alerted <==> !readOnly && !Applies(rt, ed.data, path)
    ensures RoundTrips(rt, ed.data) ==> (r.alerted <==> !readOnly && !CanSet(ed.data, path))
    ensures r.alerted ==> r.editor == ed && r.node == s && r.emitted.None?
    ensures !r.alerted ==> r.node == s.(isEditingValue := false)
    ensures readOnly ==> r.editor == ed && r.emitted.None?
    ensures !readOnly && !r.alerted ==>
              && Resolve(r.editor.data, path) == Some(Coerce(rt, s.editValue))
              && r.editor.error == ed.error
              && r.emitted == Some(rt.stringifyIndented(r.editor.data))
    ensures !readOnly && !r.alerted && path != [] ==>
              Clone(rt, ed.data).Success? && FramedAt(Clone(rt, ed.data).value, r.editor.data, path)
    ensures !readOnly && !r.alerted && RoundTrips(rt, ed.data) ==> FramedAt(ed.data, r.editor.data, path)
  {
    match HandleChange(rt, ed, readOnly, path, Coerce(rt, s.editValue))
    case Ignored => SaveOutcome(ed, s.(isEditingValue := false), None, false)
    case Applied(e, text) => SaveOutcome(e, s.(isEditingValue := false), Some(text), false)
    case Thrown => SaveOutcome(ed, s, None, true)
  }

  /**
   * Confirming an unchanged edit of a non-string value leaves the document as
   * it was, provided the value survives `JSON.stringify` then `JSON.parse`.
   */
  lemma UnchangedEditKeepsDocument(rt: JsRuntime, ed: Editor, s: NodeState, path: Path, v: Value)
    requires Resolve(ed.data, path) == Some(v) && !v.Str? && RoundTrips(rt, v) && RoundTrips(rt, ed.data)
    ensures var r := SaveEditValue(rt, ed, false, StartEditValue(rt, s, v), path);
            !r.alerted && r.editor == ed && !r.node.isEditingValue
  {
    SetAtSame(ed.data, path, v);
  }

  /**
   * An unchanged edit of a string keeps it only when its text falls through to
   * the verbatim branch: not JSON, not a keyword, not numeric.
   */
  lemma UnchangedStringEditKeepsDocument(rt: JsRuntime, ed: Editor, s: NodeState, path: Path, str: string)
    requires Resolve(ed.data, path) == Some(Str(str)) && RoundTrips(rt, ed.data)
    requires rt.parse(str).Failure? && str !in {"true", "false", "null"}
    requires rt.toNumber(str).None? || IsBlank(str)
    ensures var r := SaveEditValue(rt, ed, false, StartEditValue(rt, s, Str(str)), path);
            !r.alerted && r.editor == ed
  {
    CoerceVerbatim(rt, str);
    SetAtSame(ed.data, path, Str(str));
  }

  /**
   * Because a string is seeded without quotes, confirming an unchanged edit of
   * a string whose characters are JSON text (such as "42" or "true") replaces
   * it by the parsed value.
   */
  lemma UnchangedStringEditRetypes(rt: JsRuntime, ed: Editor, s: NodeState, path: Path, str: string, w: Value)
    requires Resolve(ed.data, path) == Some(Str(str)) && RoundTrips(rt, ed.data)
    requires rt.parse(str) == Success(w) && w != Str(str)
    ensures var r := SaveEditValue(rt, ed, false, StartEditValue(rt, s, Str(str)), path);
            !r.alerted && Resolve(r.editor.data, path) == Some(w) && r.editor != ed
  {
    ExistingIsSettable(ed.data, path, w);
  }

  /**
   * The `onChange` call `addProperty` makes, if any: an array gets `""` at
   * index `length`; an object gets `""` under the trimmed answer to the key
   * prompt, unless the prompt was cancelled or answered with blank text.
   */
  function AddRequest(data: Value, path: Path, answer: Option<string>): (r: Option<(Path, Value)>)
    ensures data.Arr? ==> r == Some((path + [Index(|data.elems|)], Str("")))
    ensures !data.Arr? ==> (r.Some? <==> answer.Some? && !IsBlank(answer.value))
    ensures !data.Arr? && r.Some? ==> r.value == (path + [Key(Trim(answer.value))], Str(""))
  {
    if data.Arr? then Some((path + [Index(|data.elems|)], Str("")))
    else
      match answer
      case Some(k) =>
        TrimEmptyIffBlank(k);
        if Trim(k) != "" then Some((path + [Key(Trim(k))], Str(""))) else None
      case None => None
  }

  /** `addProperty` on the node showing `data` at `path`; nothing happens without a request. */
  function AddProperty(rt: JsRuntime, ed: Editor, readOnly: bool, data: Value, path: Path,
                       answer: Option<string>): (r: Change)
    ensures AddRequest(data, path, answer).None? ==> r == Ignored
    ensures readOnly ==> r == Ignored
  {
    match AddRequest(data, path, answer)
    case None => Ignored
    case Some((p, x)) => HandleChange(rt, ed, readOnly, p, x)
  }

  /**
   * Adding to an array of a document that survives the clone appends `""` at
   * index = old length: the array at the node's path grows by one, keeps
   * every existing element, and nothing outside it changes.
   */
  lemma AddToArray(rt: JsRuntime, ed: Editor, path: Path, elems: seq<Value>, answer: Option<string>)
    requires Resolve(ed.data, path) == Some(Arr(elems)) && RoundTrips(rt, ed.data)
    ensures var r := AddProperty(rt, ed, false, Arr(elems), path, answer);
            && r.Applied?
            && Resolve(r.editor.data, path) == Some(Arr(elems + [Str("")]))
            && (forall q :: Disjoint(path, q) ==> Resolve(r.editor.data, q) == Resolve(ed.data, q))
            && FramedAt(ed.data, r.editor.data, path + [Index(|elems|)])
  {
    AddChildSets(ed.data, path, Index(|elems|), Str(""));
  }

  /**
   * Adding to an object with a usable key sets the trimmed key to `""`,
   * overwriting an existing member in place, so keys stay unique.
   */
  lemma AddToObject(rt: JsRuntime, ed: Editor, path: Path, ms: seq<Member>, key: string)
    requires Resolve(ed.data, path) == Some(Obj(ms)) && !IsBlank(key) && RoundTrips(rt, ed.data)
    ensures var r := AddProperty(rt, ed, false, Obj(ms), path, Some(key));
            && r.Applied?
            && Resolve(r.editor.data, path) == Some(Obj(Put(ms, Trim(key), Str(""))))
            && (UniqueKeys(ms) ==> UniqueKeys(Put(ms, Trim(key), Str(""))))
            && (forall q :: Disjoint(path, q) ==> Resolve(r.editor.data, q) == Resolve(ed.data, q))
            && FramedAt(ed.data, r.editor.data, path + [Key(Trim(key))])
  {
    PutUnique(ms, Trim(key), Str(""));
    AddChildSets(ed.data, path, Key(Trim(key)), Str(""));
  }

  /** A cancelled or blank key prompt leaves an object's document untouched. */
  lemma AddWithoutKey(rt: JsRuntime, ed: Editor, path: Path, ms: seq<Member>, answer: Option<string>)
    requires answer.None? || IsBlank(answer.value)
    ensures AddProperty(rt, ed, false, Obj(ms), path, answer) == Ignored
  {
  }

  /**
   * Assigning one child below an existing container replaces that container
   * by `SetChild` of it, with everything disjoint from it unchanged.
   */
  lemma AddChildSets(d: Value, path: Path, s: Segment, x: Value)
    requires Resolve(d, path).Some? && Settable(Resolve(d, path).value, s)
    ensures SetAt(d, path + [s], x).Some?
    ensures var c' := SetChild(Resolve(d, path).value, s, x).value;
            && SetAt(d, path + [s], x) == SetAt(d, path, c')
            && Resolve(SetAt(d, path, c').value, path) == Some(c')
            && forall q :: Disjoint(path, q) ==> Resolve(SetAt(d, path, c').value, q) == Resolve(d, q)
  {
    var c' := SetChild(Resolve(d, path).value, s, x).value;
    SetAtExtend(d, path, s, x);
    ExistingIsSettable(d, path, c');
    SetAtResolves(d, path, c');
    SetAtFrameAll(d, path, c');
  }

  /**
   * The parent's `onDelete` closure, called with the child's path: the parent
   * value without that child replaces the parent at the parent's path.
   */
  function OnDelete(rt: JsRuntime, ed: Editor, readOnly: bool, data: Value, path: Path,
                    deletePath: Path): (r: Change)
    requires deletePath != [] && Addressable(data, deletePath[|deletePath| - 1])
    ensures readOnly <==> r.Ignored?
    ensures r.Applied? ==> Resolve(r.editor.data, path) == Some(DeleteChild(data, deletePath[|deletePath| - 1]))
  {
    HandleChange(rt, ed, readOnly, path, DeleteChild(data, deletePath[|deletePath| - 1]))
  }

  /**
   * Deleting from a node of a document that survives the clone always
   * succeeds, touches nothing disjoint from the node, and keeps its ancestors' shapes.
   */
  lemma DeleteApplies(rt: JsRuntime, ed: Editor, data: Value, path: Path, deletePath: Path)
    requires Resolve(ed.data, path) == Some(data) && RoundTrips(rt, ed.data)
    requires deletePath != [] && Addressable(data, deletePath[|deletePath| - 1])
    ensures var r := OnDelete(rt, ed, false, data, path, deletePath);
            && r.Applied?
            && FramedAt(ed.data, r.editor.data, path)
  {
    var x := DeleteChild(data, deletePath[|deletePath| - 1]);
    ExistingIsSettable(ed.data, path, x);
  }

  /**
   * Deleting array element `i`: the array loses exactly that element, the
   * elements after it shift down by one, and no hole is left.
   */
  lemma DeleteArrayElement(rt: JsRuntime, ed: Editor, elems: seq<Value>, path: Path, i: nat)
    requires Resolve(ed.data, path) == Some(Arr(elems)) && RoundTrips(rt, ed.data) && i < |elems|
    ensures var r := OnDelete(rt, ed, false, Arr(elems), path, path + [Index(i)]);
            r.Applied? && Resolve(r.editor.data, path) == Some(Arr(elems[..i] + elems[i + 1..]))
  {
    DeleteApplies(rt, ed, Arr(elems), path, path + [Index(i)]);
  }

  /**
   * Deleting the member at position `i` of an object with unique keys: that
   * key is gone and every other member stays, in order.
   */
  lemma DeleteObjectMember(rt: JsRuntime, ed: Editor, ms: seq<Member>, path: Path, i: nat)
    requires Resolve(ed.data, path) == Some(Obj(ms)) && RoundTrips(rt, ed.data) && UniqueKeys(ms) && i < |ms|
    ensures var r := OnDelete(rt, ed, false, Obj(ms), path, path + [Key(ms[i].key)]);
            && r.Applied?
            && Resolve(r.editor.data, path) == Some(Obj(ms[..i] + ms[i + 1..]))
            && ms[i].key !in KeysOf(ms[..i] + ms[i + 1..])
  {
    DeleteApplies(rt, ed, Obj(ms), path, path + [Key(ms[i].key)]);
    DeleteKeyIsSplice(ms, i);
    RemoveUnique(ms, ms[i].key);
    assert Lookup(Remove(ms, ms[i].key), ms[i].key) == None;
  }
}
