# notation-lite ScoreManager in Dafny

This project models the document-editing logic of `ScoreManager`, the class at
the heart of notation-lite, a small MusicXML/MEI editing prototype. The class
keeps a parsed XML document and edits it in four ways:

- **Stamping identifiers on load** (`ensureUniqueIDs`). Every element in
  document order that has neither `id` nor `xml:id` gets a fresh name
  `nl-…`, written to both attributes. Elements that already have an id are
  left alone.
- **Lookup** (`getElementById`, `select`). Lookup returns the first element
  whose `xml:id` is the key. Failing that, it returns the first element whose
  `id` is the key.
- **Diatonic transposition** (`mutatePitch`). It finds the note's first
  `pitch`, then that pitch's first `step` and first `octave`. It moves the
  step letter along C D E F G A B and wraps by one step only. Any index past B
  becomes C an octave up. Any index before C becomes B an octave down. So three
  steps up from A gives C, not D.
- **Note to rest** (`deleteNote`). It builds a `rest` that copies the note's
  `duration` and `type` text into new children, then swaps the rest into the
  note's place.

The model is in three modules:

- `Tree` (`tree.dfy`): the document as a value. An element has a name, an
  attribute map, its own text and a sequence of children. A `Path` of child
  indices names an element. `Paths` lists every element in document order,
  which is the order `getElementsByTagName("*")` and `querySelector` use.
  This module also has the DOM operations the class relies on: `setAttribute`,
  `textContent`, `replaceChild` and `querySelector`.
- `Pitch` (`pitch.dfy`): the step/octave arithmetic `ShiftPitch`, plus
  JavaScript's `parseInt(text, 10)` and integer `toString()` as they are used
  for the octave. A NaN octave is `None`.
- `Score` (`score.dfy`): the stamping loop, lookup, transposition and
  note-to-rest as functions and methods on the tree, and the class
  `ScoreManager`. The class has one field, `doc: Option<Element>`, which
  stands for `xmlDoc`. Its methods change `doc`, and its read-only queries are
  functions that read it.

The model takes three values as parameters instead of computing them:

- `Load` receives an already-parsed tree.
- `StampIds` and `Load` receive `nameOf: nat -> string`. It gives the suffix
  for the k-th stamped element and replaces `Math.random`.
- `GetXml` receives the serialiser as a function.

## Model

| member | source | states |
|---|---|---|
| `Tree.Paths` | src/ScoreManager.ts:50 | The element list starts with the root, and every path in it names an element of the document. |
| `Tree.PathsComplete` | src/ScoreManager.ts:50-53 | A path is in the document-order list exactly when it names an element, so the stamping loop visits every element. |
| `Tree.PathsDistinct` | src/ScoreManager.ts:50-53 | The document-order list names each element only once. |
| `Tree.TreeBeforeAsymmetric` | src/ScoreManager.ts:50 | Tree order on paths is strict: no two paths each come before the other, and no path comes before itself. |
| `Tree.PathsInTreeOrder` | src/ScoreManager.ts:50 | The element list is in tree order: every element is listed after its ancestors, and a subtree is listed before the subtrees of its later siblings. |
| `Tree.PrecedesIsTreeOrder` | src/ScoreManager.ts:50-53 | For any two elements, the first comes before the second in the element list exactly when it is the second's ancestor, or when at the first place their paths part it leads to the earlier child. This is the order that every "first match" in lookup and `querySelector` refers to. |
| `Tree.TextContent` | src/ScoreManager.ts:110-111 | `textContent` begins with the element's own text. For an element with no children it is exactly that text. |
| `Tree.TextContentInDocumentOrder` | src/ScoreManager.ts:110-111 | `textContent` is the own text of every element in the subtree, the element itself first, joined in document order. This holds for the step and octave reads and for the `duration` and `type` text copied at lines 150-151. |
| `Tree.SetText` | src/ScoreManager.ts:130-131 | Assigning `textContent` leaves the element with no children, and reading `textContent` back gives the assigned text. The element keeps its name and attributes. |
| `Tree.SetAttrsEffect` | src/ScoreManager.ts:62-65 | Setting attributes on one element changes only that element's attributes. Every path stays valid, and every element keeps its name, text and number of children. |
| `Tree.ReplaceInside` | src/ScoreManager.ts:167 | After `replaceChild`, the replaced position and everything below it are the new subtree. |
| `Tree.ReplaceOutside` | src/ScoreManager.ts:167 | After `replaceChild`, every element outside the replaced subtree is still at the same path with the same label. Elements that are not ancestors of it are unchanged, including their subtrees. |
| `Tree.FindFirst` | src/ScoreManager.ts:87 | The scan returns the first index whose element matches, or nothing when no element from that index on matches. |
| `Tree.QueryFirst` | src/ScoreManager.ts:87 | Document-level `querySelector` returns the first matching element in document order, root included. It returns nothing exactly when no element matches. |
| `Tree.QueryDescendant` | src/ScoreManager.ts:101-105 | Element-level `querySelector` returns the first matching proper descendant in document order. It returns nothing exactly when no descendant matches. |
| `Tree.QueryDescendantIsFirst` | src/ScoreManager.ts:101-105 | Whichever descendant is the first match in document order is the one `querySelector` returns, so that first match is unique. |
| `Pitch.IndexOf` | src/ScoreManager.ts:113 | `steps.indexOf` gives a position holding the text, or -1 exactly when the text is not a scale letter. |
| `Pitch.ScaleIndex` | src/ScoreManager.ts:113-114 | A scale letter is read as its own position. Any other text is read as 0, which is C. |
| `Pitch.ShiftPitch` | src/ScoreManager.ts:109-131 | The step written back is always one of C D E F G A B. The octave moves by at most one: up exactly when the index passes B, down exactly when it falls below C. Whenever the shifted index passes B, by any distance, the result is C one octave up. Whenever it falls below C, by any distance, the result is B one octave down. Otherwise the step is the letter at the shifted index and the octave is unchanged. |
| `Pitch.ShiftUpOne` | src/ScoreManager.ts:117-128 | +1 from C through A gives the next letter in the same octave. +1 from B gives C one octave up. |
| `Pitch.ShiftDownOne` | src/ScoreManager.ts:117-128 | -1 from D through B gives the previous letter in the same octave. -1 from C gives B one octave down. |
| `Pitch.UnknownStepIsC` | src/ScoreManager.ts:110-114 | A step text outside the scale is shifted exactly as C would be. |
| `Pitch.UpThenDown` | src/ScoreManager.ts:117-131 | For a scale letter, +1 and then -1 restores both step and octave. |
| `Pitch.DownThenUp` | src/ScoreManager.ts:117-131 | For a scale letter, -1 and then +1 restores both step and octave. |
| `Pitch.WrapIsOneStep` | src/ScoreManager.ts:122-128 | Worked examples of the general wrap in `ShiftPitch`: +3 from A4 gives C5, not D5, and -3 from D4 gives B3, not A3. |
| `Pitch.ParseInt` | src/ScoreManager.ts:111 | `parseInt` is NaN exactly when no digit follows the leading white space and optional sign. A negative result comes only from a leading minus. |
| `Pitch.IntToString` | src/ScoreManager.ts:131 | `toString` of an integer starts with a minus sign exactly when the integer is negative. The rest is non-empty decimal digits that denote its magnitude, with no leading zero unless the integer is 0. |
| `Pitch.NatToString` | src/ScoreManager.ts:131 | The decimal text of a number is non-empty, all digits, and denotes that number. |
| `Pitch.ParseIntToString` | src/ScoreManager.ts:111-131 | `parseInt` reads back every integer that `toString` writes. |
| `Pitch.OctaveText` | src/ScoreManager.ts:131 | A NaN octave is written as "NaN". Any other octave is written as text that `parseInt` reads back to the same number. |
| `Score.HasIdCarries` | src/ScoreManager.ts:56 | The test that stamping makes, `id` or `xml:id` present, holds exactly when the element answers to some key in a lookup. |
| `Score.UnstampedCounts` | src/ScoreManager.ts:53-66 | The count of stamped elements before position i is 0 exactly when all of the first i elements already had an identifier. It is i exactly when none of them had one. |
| `Score.StampStep` | src/ScoreManager.ts:53-66 | Stamping the next element that has no identifier extends the stamped prefix by one, and the rest of the document stays unvisited. |
| `Score.StampSkip` | src/ScoreManager.ts:56-58 | Visiting an element that already has `id` or `xml:id` changes nothing. |
| `Score.StampDone` | src/ScoreManager.ts:53-67 | Once every element in document order has been visited, the document is fully stamped. |
| `Score.StampIds` | src/ScoreManager.ts:49-68 | The loop over all elements yields the original document with only attributes changed. Each element without an identifier gets `nl-` plus the next supplied name as both `id` and `xml:id`. |
| `Score.StampedElement` | src/ScoreManager.ts:53-66 | After stamping, every element has an identifier. An element that had one keeps its attributes. An element that had none gets the same `nl-…` value in `id` and `xml:id`, and nothing else changes. |
| `Score.EveryElementHasId` | src/ScoreManager.ts:53-66 | After stamping, no element of the document lacks `id` or `xml:id`. |
| `Score.ElementById` | src/ScoreManager.ts:83-89 | The result carries the key. When some element's `xml:id` is the key, the result is the first such element in document order. Otherwise it is the first element whose `id` is the key. The result is empty exactly when no element carries the key. |
| `Score.ReadStep` | src/ScoreManager.ts:110 | An empty step text is read as C, the first scale letter. Any other text is read as it is. |
| `Score.ReadOctave` | src/ScoreManager.ts:111 | An empty octave text is read as 4. Any other text goes through `parseInt`, and the result is NaN exactly when no digit follows the white space and sign. |
| `Score.NewPitch` | src/ScoreManager.ts:110-128 | The new step is a scale letter. A NaN octave stays NaN. A numeric octave shifts as `ShiftPitch` says. |
| `Score.Below` | src/ScoreManager.ts:101-105 | A descendant lookup from a note or pitch returns the path, from the document root, of the first descendant in document order with the requested tag. That path lies strictly below the starting element. The lookup returns nothing exactly when no such descendant exists. |
| `Score.PitchOf` | src/ScoreManager.ts:92-102 | The pitch edited is the first `pitch` below the note with the id. There is none when the id is not found or the note has no pitch. |
| `Score.PitchTargets` | src/ScoreManager.ts:92-107 | There is something to edit exactly when the note, its first pitch, and that pitch's first `step` and first `octave` are all found. The step and octave edited are those first descendants of the pitch, and both lie below the note. |
| `Score.Transposed` | src/ScoreManager.ts:91-131 | The document is unchanged in each of three cases: the id is not found (line 93), the note has no pitch (line 102), or the pitch lacks a step or an octave (line 107). |
| `Score.TwoWrites` | src/ScoreManager.ts:130-131 | Writing the text of the step and then of the octave, when neither element contains the other, leaves both written texts in place. |
| `Score.TwoWritesOutside` | src/ScoreManager.ts:130-131 | Those two writes leave the label of every element outside both subtrees unchanged. |
| `Score.TransposedWrites` | src/ScoreManager.ts:109-131 | After transposition, the step element is the original one with its content replaced by the shifted letter, which is in the scale. The octave element is the original one with its content replaced by the shifted octave, as text that `parseInt` reads back. Both keep their name and attributes, identifiers included. |
| `Score.TransposedKeepsOthers` | src/ScoreManager.ts:130-131 | Transposition leaves every element outside the step and octave unchanged in name, attributes, text and number of children. |
| `Score.DescendantTextOf` | src/ScoreManager.ts:148-151 | The text copied from the note for a tag is empty when the note has no descendant with that tag. Otherwise it is the `textContent` of the first such descendant in document order. |
| `Score.RestFor` | src/ScoreManager.ts:148-164 | The rest has no attributes and no own text. Its children are `duration` and then `type`. Each child copies the note's text and is present only when that text is non-empty. Its text content is the duration text followed by the type text. |
| `Score.RestText` | src/ScoreManager.ts:155-164 | The text content of a rest is the text of its one or two childless children, in order. |
| `Score.RestHasNoAttrs` | src/ScoreManager.ts:154 | No element of the rest, the rest included, carries an attribute, so none carries an identifier. |
| `Score.NoteToRest` | src/ScoreManager.ts:143-167 | An unknown id changes nothing. Otherwise the note's position now holds exactly the rest built from it. |
| `Score.NoteToRestKeepsOthers` | src/ScoreManager.ts:167 | Deleting a note leaves every element outside its subtree at the same path with the same label. Elements that are not ancestors of the note are unchanged, including their subtrees. |
| `Score.RestInside` | src/ScoreManager.ts:154-167 | No element inside the rest that replaced the note answers to any identifier. |
| `Score.FoundOutside` | src/ScoreManager.ts:167 | After a subtree with no attributes is swapped in, any element that answers to a key lies outside that subtree and answered to the key before. |
| `Score.LookupAfterReplace` | src/ScoreManager.ts:83-89 | After a subtree with no attributes is swapped in at n, a key is found exactly when some element outside n's subtree carried it. |
| `Score.NoteToRestLookup` | src/ScoreManager.ts:143-167 | After deletion, an identifier is found exactly when some element outside the deleted note's subtree carries it. So the deleted id is gone unless another element shares it. |
| `Score.ScoreManager.constructor` | src/ScoreManager.ts:10-13 | A new manager has no document. |
| `Score.ScoreManager.Load` | src/ScoreManager.ts:31-47 | After loading, the document is the given tree with identifiers stamped. |
| `Score.ScoreManager.GetXml` | src/ScoreManager.ts:77-80 | With no document the text is "". Otherwise it is the serialiser's text for the document. |
| `Score.ScoreManager.GetElementById` | src/ScoreManager.ts:83-89 | With no document nothing is found. Otherwise the result is the document lookup. |
| `Score.ScoreManager.Select` | src/ScoreManager.ts:139-141 | `select(id)` is true exactly when a document is loaded and some element in it has that `xml:id` or `id`. |
| `Score.ScoreManager.MutatePitch` | src/ScoreManager.ts:91-137 | With no document nothing happens. Otherwise the document becomes its transposition: the locals `stepIndex` and `newOct` are computed as the source does and written back to the step and octave. |
| `Score.ScoreManager.DeleteNote` | src/ScoreManager.ts:143-173 | With no document nothing happens. Otherwise the document becomes its note-to-rest replacement: the rest is built child by child and put in the note's place. |

## Left out

- The Verovio rendering engine is not modelled. This covers `init`, `setOptions`, `render`, and the `loadData` calls in `load`, `mutatePitch` and `deleteNote`. It is a foreign engine that the source only declares.
- XML parsing (`DOMParser`) and serialisation (`XMLSerializer`) are not modelled. `Load` takes an already-parsed tree, and `GetXml` takes the serialiser as a parameter.
- Identifier text from `Math.random` is not modelled. A supplied `nameOf` gives the suffix instead. Uniqueness is not claimed, because the source does not guarantee it.
- `console` logging is not modelled.
- Namespaces are not modelled. Attributes are a map with the plain keys `id` and `xml:id`, so the `xml:id` written with `setAttributeNS` and the one tested with `hasAttributeNS` are that same key.
- CSS selector escaping is not modelled. A key containing a quote, which would make the source's `querySelector` throw, is treated like any other string.
- Mixed content order is simplified. An element's own character data is one string placed before its children, so `textContent` is that text followed by the children's text. Comments, processing instructions and separate text nodes are not represented.
- Node identity and aliasing are not modelled. An element is a value named by its path, and an in-place DOM update becomes a new document value. The live `getElementsByTagName` list is taken once, which matches the source because setting attributes does not change it.
- Floating-point behaviour is not modelled. That includes `parseInt` on numbers beyond 2^53, `toString` switching to exponent form, and a fractional `direction`. Octaves and directions are integers.
- `parseInt` is modelled from JavaScript's white-space set, optional sign and digit prefix. It returns `None` for NaN, and NaN plus or minus one is written back as "NaN".
- `mutatePitch` does not always write the octave, because of how the DOM behaves. If the octave element lies inside the step element, writing the step's `textContent` detaches the octave, so the octave write has no effect on the document. `Transposed` models this as written.
- `Score.TransposedWrites`, `Score.TransposedKeepsOthers`: both assume that neither the step nor the octave element contains the other. When one does, the later text write removes the earlier one or is lost, as described above.
- `src/main.ts` (UI wiring), `src/verovio.d.ts` (declarations) and `src/ScoreManager.test.ts` are not part of this model. `ShiftUpOne` (+1) and `RestFor` state what the tests check. `ShiftDownOne` states the -1 case at lines 125-127, which the tests do not exercise.
