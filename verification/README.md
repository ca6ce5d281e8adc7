# JSON tree editor and operation filter: a verified Dafny model

This project models two small, sequential cores of the swagger-ui fork. It proves
properties of both.

1. **The JSON tree editor** (`JsonEditor` and `JsonNode` in
   `src/core/components/json-editor/JsonEditor.jsx`). The React rendering is set aside.
   What is left is an algorithm over a recursive JSON value:
   - parsing the editor's text into a document, keeping the last good document when parsing fails;
   - `handleChange`, which replaces the root or assigns at a path;
   - the per-node actions that call it: confirming a leaf edit (text coercion), adding a
     child, and the parent's delete closure;
   - the node's own flags: expanded, and editing.
2. **The operation filter** (`src/core/plugins/filter/opsFilter.js`). It does a
   case-insensitive substring search over tag groups of operations and drops the groups
   left empty.

Files and modules:

| file | module | contents |
|---|---|---|
| `wrappers.dfy` | `Wrappers` | `Option`, and `Result` (a value or a thrown message) |
| `text.dfy` | `Text` | `trim` over the ECMAScript whitespace set, ASCII `toLowerCase`, `includes` |
| `json_value.dfy` | `JsonValue` | `Value`, `Member`, `Segment`/`Path`; object members as an ordered list (`Lookup`, `Put`, `Remove`); `Resolve` |
| `tree_mutator.dfy` | `TreeMutator` | assignment at a path (`SetAt`), array splice, child deletion |
| `json_text.dfy` | `JsonText` | the JavaScript runtime's `JSON.parse`, `JSON.stringify` and `Number`, as parameters, plus the hypotheses stated about them |
| `coercion.dfy` | `Coercion` | the leaf text coercion of `saveEditValue` |
| `json_editor.dfy` | `JsonEditor` | editor state, `parseValue`, `handleChange` |
| `json_node.dfy` | `JsonNode` | node flags, edit / add / delete actions |
| `ops_filter.dfy` | `OpsFilter` | `contains` and the tag-group filter |

Modelling choices:

- **Foreign calls are parameters.** `JSON.parse`, `JSON.stringify(v)`,
  `JSON.stringify(v, null, 2)` and `Number(s)`/`isNaN` are the fields of a `JsRuntime`
  value that each operation receives. Facts about them are predicates used as lemma
  hypotheses, never assumed globally:
  - `RoundTrips`: parse of stringify gives the value back;
  - `IndentedRoundTrips`: the same for the indented text, which is also non-empty;
  - `ParsesWellFormed`: parsed objects have unique keys;
  - `ParsesAs`: the parser rejects a keyword or reads it correctly.
- **A throw is a result.** Walking to a missing parent or assigning onto a primitive
  throws a TypeError in the module's strict-mode code. `SetAt` returns `None` for it,
  `handleChange` returns `Thrown`, and `saveEditValue` reports it as "alerted".
- **The deep clone is a step.** Every `handleChange` that is not read-only first runs
  `JSON.parse(JSON.stringify(data))`, and throws if that fails. It then replaces the root,
  or assigns into the clone. Its frame is stated
  against the clone. When the document round-trips (`RoundTrips`), the clone is the
  document, and the frame also holds against the document itself.
- **Object members** are an ordered list of own properties. `Put` overwrites an existing
  key in place or appends a new one, which is what JavaScript assignment does for an
  ordinary key (names from `Object.prototype` are left out, see below). `WellFormed` says
  keys are unique at every depth. Every mutation preserves it.
- **"Nothing else changes"** is stated with `Disjoint(p, q)`: neither path is a prefix of
  the other (`DisjointIffNoPrefix`). After an assignment at `p`:
  - every disjoint location resolves as before (`SetAtFrame`);
  - everything at or below `p` is the new value (`SetAtSubtree`);
  - what remains is the ancestors of `p`. Each keeps its kind and, above the parent,
    its array length or its key order. The parent grows only by an appended element
    or a new last key (`SetAtKeepsAncestor`).

Choices that follow the code:

- Assigning at an array index equal to the length appends. This is how `addProperty`
  grows an array (JsonEditor.jsx:64, 268).
- An unresolvable path is not a fatal precondition failure. It is the TypeError that
  `saveEditValue`'s outer `try` turns into the "Invalid value" alert.
- The numeric fallback is `!isNaN(text) && text.trim() !== ""`. It is not a numeric
  grammar.
- Adding under an existing object key overwrites that member.
- With `readOnly` set, confirming an edit still closes the edit box, although the
  document stays unchanged.

## Model

| member | source | states |
|---|---|---|
| Text.Trim | src/core/plugins/filter/opsFilter.js:18-22 | the result is the infix between the leading and trailing whitespace, everything cut is whitespace, and the result has no whitespace at either end |
| Text.TrimEmptyIffBlank | src/core/plugins/filter/opsFilter.js:18 | `s.trim() === ""` holds exactly when every character of `s` is whitespace |
| Text.TrimIdempotent | src/core/plugins/filter/opsFilter.js:22 | trimming an already trimmed phrase changes nothing |
| Text.ToLower | src/core/plugins/filter/opsFilter.js:10 | lower-casing keeps the length and maps each character on its own, ASCII capitals to small letters |
| Text.ToLowerIdempotent | src/core/plugins/filter/opsFilter.js:10 | lower-casing twice is lower-casing once |
| Text.Includes | src/core/plugins/filter/opsFilter.js:10 | `includes` finds the empty pattern in every text, and a pattern it finds is no longer than the text (the exact characterization is `IncludesIffOccurs`) |
| Text.IncludesIffOccurs | src/core/plugins/filter/opsFilter.js:10 | the left-to-right `includes` scan succeeds exactly when the pattern occurs at some position of the text |
| JsonValue.Lookup | src/core/components/json-editor/JsonEditor.jsx:264 | `obj[k]` is undefined exactly when `k` is not among the object's own keys, and otherwise is the value of a member named `k` |
| JsonValue.LookupUnique | src/core/components/json-editor/JsonEditor.jsx:181 | with unique keys, looking up the key of member `i` finds member `i`'s value |
| JsonValue.Put | src/core/components/json-editor/JsonEditor.jsx:268 | after `obj[k] = v`, reading `k` gives `v` |
| JsonValue.PutKeys | src/core/components/json-editor/JsonEditor.jsx:268 | assigning an existing key keeps the key order (overwrite in place, no duplicate); a new key goes last |
| JsonValue.PutFrame | src/core/components/json-editor/JsonEditor.jsx:268 | assigning one key leaves every other key's value unchanged |
| JsonValue.PutUnique | src/core/components/json-editor/JsonEditor.jsx:268 | assignment keeps object keys unique |
| JsonValue.PutExisting | src/core/components/json-editor/JsonEditor.jsx:268 | writing back the value a key already has leaves the object as it was |
| JsonValue.Remove | src/core/components/json-editor/JsonEditor.jsx:191-193 | after `delete obj[k]` the key is absent and the object did not grow |
| JsonValue.RemoveMembers | src/core/components/json-editor/JsonEditor.jsx:191-193 | the remaining members are exactly the old members with another key |
| JsonValue.RemoveFrame | src/core/components/json-editor/JsonEditor.jsx:191-193 | with unique keys, every other key keeps its value |
| JsonValue.RemoveUnique | src/core/components/json-editor/JsonEditor.jsx:191-193 | deleting keeps object keys unique |
| JsonValue.RemoveIsSplice | src/core/components/json-editor/JsonEditor.jsx:191-193 | with unique keys, deleting the key of member `i` removes exactly member `i` and keeps the others in order |
| JsonValue.RemoveAbsent | src/core/components/json-editor/JsonEditor.jsx:192 | deleting a key the object does not have changes nothing |
| JsonValue.ResolveConcat | src/core/components/json-editor/JsonEditor.jsx:262-265 | walking `p + q` is walking `p` and then walking `q` from where it ends |
| JsonValue.DisjointIffNoPrefix | src/core/components/json-editor/JsonEditor.jsx:262-268 | two paths are disjoint exactly when neither is a prefix of the other |
| TreeMutator.SetChild | src/core/components/json-editor/JsonEditor.jsx:268 | `current[seg] = x` succeeds exactly on an object key or an array index no greater than the length; afterwards child `seg` is `x`, every other child is unchanged, an array grows only when appending, object keys keep their order with a new key going last, and well-formedness is kept |
| TreeMutator.SetElement | src/core/components/json-editor/JsonEditor.jsx:268 | array assignment: the length grows only for index = length, slot `i` holds the new value and every other slot is unchanged |
| TreeMutator.SetMember | src/core/components/json-editor/JsonEditor.jsx:268 | object assignment: the key holds the new value, other keys and the key order are unchanged, keys stay unique |
| TreeMutator.SetAt | src/core/components/json-editor/JsonEditor.jsx:262-268 | the walk to the parent and the assignment succeed exactly when the path is the root, or its parent resolves and accepts the last segment; the effect is stated by `SetAtSubtree`, `SetAtFrame` and `SetAtKeepsAncestor` |
| TreeMutator.ExistingIsSettable | src/core/components/json-editor/JsonEditor.jsx:262-268 | any location that exists can be overwritten without a throw |
| TreeMutator.SetAtSubtree | src/core/components/json-editor/JsonEditor.jsx:262-268 | after assigning `x` at `p`, location `p + q` holds what `x` holds at `q` |
| TreeMutator.SetAtResolves | src/core/components/json-editor/JsonEditor.jsx:262-268 | after assigning `x` at `p`, resolving `p` gives `x` |
| TreeMutator.SetAtFrame | src/core/components/json-editor/JsonEditor.jsx:262-268 | every location disjoint from `p` resolves as it did before |
| TreeMutator.SetAtKeepsAncestor | src/core/components/json-editor/JsonEditor.jsx:262-268 | the assignment is in place: every ancestor of `p` exists before and after and keeps its kind; arrays keep their length and objects their key order, except that the parent grows by an appended element or a new last key |
| TreeMutator.SetAtWellFormed | src/core/components/json-editor/JsonEditor.jsx:262-268 | assigning a well-formed value into a well-formed document keeps keys unique at every depth |
| TreeMutator.SetAtSame | src/core/components/json-editor/JsonEditor.jsx:262-268 | assigning the value already at a location returns the same document |
| TreeMutator.SetAtExtend | src/core/components/json-editor/JsonEditor.jsx:262-268 | assigning at `p + [s]` equals replacing the container at `p` by that container with child `s` set |
| TreeMutator.Splice | src/core/components/json-editor/JsonEditor.jsx:186-188 | `splice(i, 1)` with `i` in range shortens by one, keeps the elements before `i`, and shifts each later element down by one; out of range it changes nothing |
| TreeMutator.DeleteChild | src/core/components/json-editor/JsonEditor.jsx:184-195 | the parent keeps its kind; the deleted child is gone (for arrays, the index is then taken by the next element); array indices before `i` are unchanged and later ones shift down; with unique object keys the other members are unchanged; well-formedness is kept |
| TreeMutator.DeleteKeyIsSplice | src/core/components/json-editor/JsonEditor.jsx:190-193 | deleting an existing key of an object with unique keys is splicing out that member |
| Coercion.KeywordValue | src/core/components/json-editor/JsonEditor.jsx:45-47 | the keyword fallback applies exactly to "true", "false" and "null" |
| Coercion.LooksNumeric | src/core/components/json-editor/JsonEditor.jsx:48 | `!isNaN(text) && text.trim() !== ""` holds exactly when `Number` reads the text and the text is not all whitespace |
| Coercion.Coerce | src/core/components/json-editor/JsonEditor.jsx:36-50 | the parsed value wins when the text parses; a string result is the verbatim text unless the parser produced it; a number result came from the parser or from `Number(text)`; blank unparsable text stays a string; parser-produced well-formedness carries over |
| Coercion.CoerceKeywords | src/core/components/json-editor/JsonEditor.jsx:41-47 | "true", "false" and "null" become Bool, Bool and Null whichever branch reads them, if the parser never reads them otherwise |
| Coercion.CoerceNumeric | src/core/components/json-editor/JsonEditor.jsx:48-49 | non-blank text the parser rejects but `Number` reads becomes that number |
| Coercion.CoerceVerbatim | src/core/components/json-editor/JsonEditor.jsx:42-50 | any other text is kept verbatim as a string, so no input is rejected |
| JsonEditor.ParseValue | src/core/components/json-editor/JsonEditor.jsx:239-246 | empty text gives an empty object with no error; the error is cleared exactly when the text is empty or parses; on failure the message is recorded and the previous document kept; well-formedness is kept |
| JsonEditor.AppliesIffCanSet | src/core/components/json-editor/JsonEditor.jsx:251-268 | for a document that survives the clone, `handleChange` goes through exactly when the path's parent exists and accepts the last segment |
| JsonEditor.HandleChange | src/core/components/json-editor/JsonEditor.jsx:248-273 | read-only means ignored; any other change throws exactly when the deep clone fails, or the path is not the root and cannot be set in the clone (for a document that survives the clone: exactly when the path cannot be set in it); after a successful clone the empty path replaces the whole document; otherwise the path holds the new value, and against the clone every disjoint location is unchanged and every ancestor keeps its shape and key order, which holds against the document itself when it survives the clone; the error field is untouched, well-formedness is kept when the parser yields unique keys or the document survives the clone, and the host receives the indented text of the new document |
| JsonEditor.EmittedTextReparses | src/core/components/json-editor/JsonEditor.jsx:239-273 | when the host feeds the emitted text back, parsing it yields the same document and no error, under the round-trip hypothesis |
| JsonEditor.CloneLossSpreads | src/core/components/json-editor/JsonEditor.jsx:251-271 | a location disjoint from the edit that the clone does not reproduce (a non-finite number written as null) is changed by the edit, so the frame against the document needs the round trip |
| JsonNode.ToggleExpand | src/core/components/json-editor/JsonEditor.jsx:24-26 | flips expanded/collapsed and nothing else |
| JsonNode.ToggleTwice | src/core/components/json-editor/JsonEditor.jsx:24-26 | toggling twice restores the node state |
| JsonNode.StartEditValue | src/core/components/json-editor/JsonEditor.jsx:28-34 | edit mode starts from the raw characters of a string and from the JSON text of any other value |
| JsonNode.SetEditText | src/core/components/json-editor/JsonEditor.jsx:95 | typing replaces the pending text only |
| JsonNode.CancelEdit | src/core/components/json-editor/JsonEditor.jsx:58-60 | both edit modes end; the expanded flag and pending text are untouched |
| JsonNode.SaveEditValue | src/core/components/json-editor/JsonEditor.jsx:36-56 | the alert fires exactly when the change is not read-only and `handleChange` throws (for a document that survives the clone: when the path cannot be set), and then nothing changes; otherwise edit mode ends, and unless read-only the path holds the coerced text, the error field is kept, the host gets the new text, and every disjoint location and every ancestor's shape is kept against the clone, hence against the document when it survives the clone |
| JsonNode.UnchangedEditKeepsDocument | src/core/components/json-editor/JsonEditor.jsx:28-52 | confirming an unchanged edit of a non-string value leaves the document equal, if the value and the document survive stringify and parse |
| JsonNode.UnchangedStringEditKeepsDocument | src/core/components/json-editor/JsonEditor.jsx:28-52 | an unchanged string edit keeps a document that survives the clone when the text is not JSON, not a keyword and not numeric |
| JsonNode.UnchangedStringEditRetypes | src/core/components/json-editor/JsonEditor.jsx:28-52 | in a document that survives the clone, a string whose characters are JSON text (such as "42") is replaced by the parsed value after an unchanged edit |
| JsonNode.AddRequest | src/core/components/json-editor/JsonEditor.jsx:62-71 | an array asks for `""` at index = length; otherwise a request is made exactly when the prompt answer exists and is not blank, for the trimmed key |
| JsonNode.AddProperty | src/core/components/json-editor/JsonEditor.jsx:62-71 | without a request, or when read-only, nothing happens |
| JsonNode.AddToArray | src/core/components/json-editor/JsonEditor.jsx:63-64 | on an array in a document that survives the clone, `""` is appended at the old length, existing elements are kept, nothing disjoint changes and every ancestor keeps its shape |
| JsonNode.AddToObject | src/core/components/json-editor/JsonEditor.jsx:65-69 | on an object in a document that survives the clone, with a non-blank answer, the trimmed key is set to `""`, overwriting in place; keys stay unique, nothing disjoint changes and every ancestor keeps its shape |
| JsonNode.AddWithoutKey | src/core/components/json-editor/JsonEditor.jsx:66-67 | a cancelled or blank key prompt leaves the document unchanged |
| JsonNode.OnDelete | src/core/components/json-editor/JsonEditor.jsx:184-195 | read-only means ignored; on success the parent's path holds the parent without the child |
| JsonNode.DeleteApplies | src/core/components/json-editor/JsonEditor.jsx:184-195 | deleting from a node of a document that survives the clone always succeeds, leaves every disjoint location unchanged and keeps every ancestor's shape and key order |
| JsonNode.DeleteArrayElement | src/core/components/json-editor/JsonEditor.jsx:185-189 | in a document that survives the clone, deleting element `i` leaves the array without exactly that element, later elements shifted down, no hole |
| JsonNode.DeleteObjectMember | src/core/components/json-editor/JsonEditor.jsx:190-193 | in a document that survives the clone, deleting member `i` of an object with unique keys removes exactly that member, keeps the others in order, and the key is gone |
| OpsFilter.Contains | src/core/plugins/filter/opsFilter.js:8-11 | false when either argument is empty; otherwise true exactly when the lower-cased phrase occurs somewhere in the lower-cased target |
| OpsFilter.SearchedFields | src/core/plugins/filter/opsFilter.js:31-45 | six fields are searched, the last being the tag name; a missing field reads as `""` |
| OpsFilter.Matches | src/core/plugins/filter/opsFilter.js:38-46 | an operation matches exactly when one of its searched fields contains the phrase |
| OpsFilter.KeepOperations | src/core/plugins/filter/opsFilter.js:30-47 | the kept operations are a subsequence of the original, and an operation is kept exactly when it is in the group and matches |
| OpsFilter.KeepOperationsSplits | src/core/plugins/filter/opsFilter.js:30-47 | filtering is entry by entry: one operation is kept exactly when it matches, and filtering a concatenation concatenates the results, so repeated matching entries are all kept |
| OpsFilter.Narrow | src/core/plugins/filter/opsFilter.js:50 | only the operations field of a group changes: tag and tag details are kept |
| OpsFilter.FilterGroups | src/core/plugins/filter/opsFilter.js:24-52 | no output group is empty; each output group is the narrowing of an input group; every input group with a match appears; output tags are a subsequence of input tags |
| OpsFilter.FilterTaggedOps | src/core/plugins/filter/opsFilter.js:17-53 | a missing or blank phrase returns the input unchanged; otherwise the groups are filtered by the trimmed phrase |
| OpsFilter.TagMatchKeepsAll | src/core/plugins/filter/opsFilter.js:45 | when the tag name contains the phrase, every operation of the group is kept |
| OpsFilter.KeepAllMatching | src/core/plugins/filter/opsFilter.js:30-47 | filtering operations that all match keeps them all |
| OpsFilter.FilterGroupsIdempotent | src/core/plugins/filter/opsFilter.js:24-52 | filtering the result again with the same phrase changes nothing |
| OpsFilter.FilterIdempotent | src/core/plugins/filter/opsFilter.js:17-53 | the exported filter is idempotent for a fixed phrase |

## Left out

- React rendering and lifecycle are left out: JSX, CSS classes, buttons, and the
  `setState` callbacks. `componentDidMount` and `componentDidUpdate` only call
  `parseValue`, which is modelled as `ParseValue`.
- `JSON.parse`, `JSON.stringify` and `Number` are abstract runtime parameters. The model
  does not re-verify a JSON lexer, parser or pretty printer. The indentation of
  `JSON.stringify(_, null, 2)` is not modelled.
- Number semantics are left out. Numbers are reals, not float64. `Number`/`isNaN`
  quirks ("0x10", "Infinity", ".5") sit inside the abstract `toNumber`.
- The browser `prompt` is an `Option<string>` argument. The `alert` is the boolean
  `alerted` of `SaveEditValue`.
- The deep clone `JSON.parse(JSON.stringify(data))` at JsonEditor.jsx:251 is modelled
  (`JsonText.Clone`), but what `JSON.stringify` loses is left to the runtime parameter.
  It is the identity exactly when the document round-trips. A non-finite number (from
  `JSON.parse("1e999")` or `Number("Infinity")`) becomes null at every location on the
  next non-root edit (`CloneLossSpreads`). So the frame against the document itself is
  stated only for documents that survive the clone.
- JavaScript's ordering of integer-like object keys before other keys is not modelled.
  Members keep insertion order.
- Some paths the editor never builds are treated as a throw. These are a key on an
  array, an index on an object, and an array index beyond the length. JavaScript would
  coerce the key, or leave holes in the array.
- `deleteThis` (JsonEditor.jsx:73-77) only forwards the node's path. `OnDelete` takes
  that child path directly and requires its last segment to match the parent's kind,
  which is how the parent builds child paths.
- `toLowerCase` is ASCII only. Unicode case folding is not modelled.
- The Immutable.js ordered map of tags is a sequence, so the uniqueness of tag names is
  not modelled. Tag details are an arbitrary type parameter.
- `isEditingKey` is only ever cleared in the source, never set. No key-renaming operation
  exists to model.
- JsonValue.Put: names inherited from `Object.prototype` are not modelled. In JavaScript,
  `obj["__proto__"] = ""` goes to the inherited setter and creates no member, and
  `obj["toString"]` reads an inherited function when no member has that name. The model
  treats every key as an ordinary own property. So `Put`, `Lookup`, `SetChild` and
  `AddToObject` describe JavaScript only for keys that are not such names.
