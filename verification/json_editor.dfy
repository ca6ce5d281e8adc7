/**
 * The `JsonEditor` component's document state: parsing the text it is given,
 * and applying one path-addressed change (`handleChange`).
 */
module JsonEditor {
  import opened Wrappers
  import opened JsonValue
  import opened JsonText
  import opened TreeMutator

  /** The component state: the last good document and the last parse error, if any. */
  datatype Editor = Editor(data: Value, error: Option<string>)

  /** The state before the first parse: an empty object and no error. */
  const Initial: Editor := Editor(Obj([]), None)

  /**
   * `parseValue`: empty text is an empty object; text that parses replaces the
   * document and clears the error; otherwise the error message is recorded and
   * the previous document kept.
   */
  function ParseValue(rt: JsRuntime, ed: Editor, text: string): (r: Editor)
    ensures text == "" ==> r == Editor(Obj([]), None)
    ensures r.error.None? <==> text == "" || rt.parse(text).Success?
    ensures r.error.Some? ==> r.data == ed.data && rt.parse(text) == Failure(r.error.value)
    ensures text != "" && rt.parse(text).Success? ==> r.data == rt.parse(text).value
    ensures ParsesWellFormed(rt) && WellFormed(ed.data) ==> WellFormed(r.data)
  {
    if text == "" then Editor(Obj([]), None)
    else match rt.parse(text)
      case Success(v) => Editor(v, None)
      case Failure(msg) => Editor(ed.data, Some(msg))
  }

  /**
   * `handleChange` at `path` goes through: the deep clone of the document,
   * taken for every change, must succeed, and a path other than the root must
   * be settable in the clone.
   */
  predicate Applies(rt: JsRuntime, d: Value, path: Path) {
    Clone(rt, d).Success? && (path == [] || CanSet(Clone(rt, d).value, path))
  }

  /** For a document that survives the clone, `handleChange` goes through exactly when the path can be set in it. */
  lemma AppliesIffCanSet(rt: JsRuntime, d: Value, path: Path)
    ensures RoundTrips(rt, d) ==> (Applies(rt, d, path) <==> CanSet(d, path))
  {
  }

  /** What one call of `handleChange` did. */
  datatype Change =
    | Ignored                                 // read-only: returned at once
    | Applied(editor: Editor, emitted: string) // new state, and the text passed to the host's onChange
    | Thrown                                  // the walk or the assignment threw a TypeError

  /**
   * `handleChange(path, newValue)`: a no-op when read-only; otherwise the
   * document is first deep-cloned through `JSON.stringify`/`JSON.parse`; then
   * the empty path replaces the whole document, and any other path has the
   * value assigned at that path of the clone. The host is sent the indented text of the new document.
   * Only a document that survives the clone is framed against itself.
   */
  function HandleChange(rt: JsRuntime, ed: Editor, readOnly: bool, path: Path, x: Value): (r: Change)
    ensures readOnly <==> r.Ignored?
    ensures !readOnly ==> (r.Thrown? <==> !Applies(rt, ed.data, path))
    ensures !readOnly && RoundTrips(rt, ed.data) ==> (r.Thrown? <==> !CanSet(ed.data, path))
    ensures path == [] && !readOnly && Clone(rt, ed.data).Success? ==>
              r == Applied(Editor(x, ed.error), rt.stringifyIndented(x))
    ensures r.Applied? ==> r.editor.error == ed.error
    ensures r.Applied? ==> r.emitted == rt.stringifyIndented(r.editor.data)
    ensures r.Applied? ==> Resolve(r.editor.data, path) == Some(x)
    ensures r.Applied? && path != [] ==>
              Clone(rt, ed.data).Success? && FramedAt(Clone(rt, ed.data).value, r.editor.data, path)
    ensures r.Applied? && RoundTrips(rt, ed.data) ==> FramedAt(ed.data, r.editor.data, path)
    ensures r.Applied? && WellFormed(x) && (ParsesWellFormed(rt) || (RoundTrips(rt, ed.data) && WellFormed(ed.data))) ==>
              WellFormed(r.editor.data)
  {
    if readOnly then Ignored
    else match Clone(rt, ed.data)
      case Failure(_) => Thrown
      case Success(c) =>
        if path == [] then Applied(Editor(x, ed.error), rt.stringifyIndented(x))
        else match SetAt(c, path, x)
        case None => Thrown
        case Some(d) =>
          SetAtResolves(c, path, x);
          SetAtFrameAll(c, path, x);
          SetAtWellFormed(c, path, x);
          SetAtKeepsAncestors(c, path, x);
          Applied(Editor(d, ed.error), rt.stringifyIndented(d))
  }

  /**
   * The text sent to the host, when the host passes it back as the new value,
   * parses to the same document: tree and text stay in step.
   */
  lemma EmittedTextReparses(rt: JsRuntime, ed: Editor, readOnly: bool, path: Path, x: Value)
    requires HandleChange(rt, ed, readOnly, path, x).Applied?
    requires IndentedRoundTrips(rt, HandleChange(rt, ed, readOnly, path, x).editor.data)
    ensures var c := HandleChange(rt, ed, readOnly, path, x);
            ParseValue(rt, c.editor, c.emitted) == Editor(c.editor.data, None)
  {
  }

  /**
   * What the clone loses, an edit elsewhere loses too: a location disjoint
   * from the edited path that does not survive `JSON.stringify`/`JSON.parse`
   * (such as a number read as Infinity, which is written as null) changes.
   */
  lemma CloneLossSpreads(rt: JsRuntime, ed: Editor, path: Path, x: Value, q: Path)
    requires HandleChange(rt, ed, false, path, x).Applied? && Disjoint(path, q)
    requires Clone(rt, ed.data).Success? && Resolve(Clone(rt, ed.data).value, q) != Resolve(ed.data, q)
    ensures Resolve(HandleChange(rt, ed, false, path, x).editor.data, q) != Resolve(ed.data, q)
    ensures !RoundTrips(rt, ed.data)
  {
  }
}
