# networkAnnotation core, modelled in Dafny

networkAnnotation is a web application for annotating the pages of a text library with the entities of a project (people, places, dates, ...). This project models the parts of it that carry rules that can be stated and proved.

**The annotation canvas (browser side)**
- The character-level LCS diff the page editor computes between the old and the new page text (`_computeDiff`).
- The reconciliation of the stored annotations' offsets through that diff (`_reconcileAnnotations`).
- The split of the page text into rendered segments (`_buildSegments`).
- The trimming of spaces around a new selection.

**The entity-schema field types (server side)**
- The structural check of a field definition, the field record and its exported dict (`BaseSchemaField`).
- The value checks of the text, number, bool, dropdown, date and lat/long fields.
- The field registry.

**Other server rules**
- `Annotation.clean`, the server's offset and snapshot check.
- The `htmx_only` decorator's redirect to the parent path.
- The `render_field` and `add_attrs` form-field template tags.

## Modules

Each module declares its own state, and the imperative canvas code keeps its loops.
- **TextDiff (`diff.dfy`)**
  - `ComputeDiff` fills an `array2` table with two nested loops, traces back pushing unit steps and reverses them, then merges runs.
  - It is proved equal to the function `Diff`.
  - `Diff` is proved well-formed, exactly replaying, LCS-optimal and run-length invertible.
- **Reconcile (`reconcile.dfy`)**
  - `WalkAnnotation` is the inner loop with its early `break`.
  - `ReconcileAnnotations` is the outer loop.
  - Both are proved equal to functions. Those functions are in turn related to independent reference definitions: `MapOffset`, the first `equal` run whose closed range holds an offset, and `DeleteOverlaps`.
- **Segments (`segments.dfy`)**
  - `BuildSegments` collects the boundary set, sorts it and builds the segments.
  - It is proved to produce the segmentation `IsSegmentation`.
  - `TrimSelection` is the pair of trimming loops.
- **Python semantics (`pyvalue.dfy`, `pystring.dfy`)**
  - `PyValue` holds JSON-like Python values together with Python's `==` across numeric types, truthiness, `in`, and the exceptions the rules raise.
  - `PyString` holds the string methods the rules call.
- **Schema fields**
  - `SchemaBase`, one module per field type, and `Registry`.
  - A check that raises is a `Result` whose `Failure` carries the exception. The message of a `ValidationError` is a list of literal parts and parts that `str()` renders.
- **`AnnotationModel`, `Decorators`, `FormFields`:** the remaining server rules.
- **`Common`:** `Option`, `Result`, and the clamped slice shared by JavaScript's `slice` and Python's `[i:j]`.

### Where the code's behaviour may surprise

- **An insertion exactly at an annotation's end is not absorbed.**
  - Editing "Jane met Paul in London" into "Jane met Paula in London" keeps the annotation at 9..13 with text "Paul" (`Reconcile.PaulaExample`).
  - The reason: an offset is mapped through the first `equal` run whose closed range contains it, and 13 is the end of the first run.
  - One might expect the inserted "a" to join the annotation, giving 9..14 "Paula"; the code does not do this.
- **Two field types share a tag.**
  - `NumberField` declares the type tag `"text"`.
  - So the registry maps `"text"` to `NumberField`, has no `"number"` entry, and has six entries rather than seven.
  - A number definition must say `type: "text"`.
- **The `add_attrs` placeholder default is a single space.**
  - The comment over that code speaks of the field's label.
  - `add_attrs` also raises `KeyError` whenever its argument gives no `class`, including the empty default argument.
- **An end offset past the page can pass `Annotation.clean`.** Python slicing stops at the end of the text, so the check compares against the clamped slice.

## Model

| member | source | states |
|---|---|---|
| TextDiff.ComputeDiff | apps/annotation/static/annotation_canvas.js:944-993 | the returned script is `Diff(old, new)`; every run has count ≥ 1 and adjacent runs differ in kind; it turns the old text into the new one and replays to exactly the new text; its equal total is the LCS length `dp[m][n]`; equal+delete counts sum to `|old|`, equal+insert to `|new|` |
| TextDiff.LcsTable | apps/annotation/static/annotation_canvas.js:949-959 | every cell `dp[i][j]` of the `(m+1)×(n+1)` table holds the LCS recurrence value for the prefixes `old[..i]`, `new[..j]` |
| TextDiff.FillRow | apps/annotation/static/annotation_canvas.js:951-958 | one pass of the inner loop sets row `i` to the recurrence values and leaves every other row unchanged |
| TextDiff.TraceStep | apps/annotation/static/annotation_canvas.js:966-976 | the traceback's choice at a cell: `equal` only on a matching pair of units, `insert` only with new text left, `delete` only with old text left |
| TextDiff.TraceBack | apps/annotation/static/annotation_canvas.js:962-979 | the pushed unit steps, reversed, are the traceback path from `(m, n)` to `(0, 0)` in forward order, with ties broken towards `insert` |
| TextDiff.MergeSteps | apps/annotation/static/annotation_canvas.js:981-990 | the merge loop, growing the last run in place, computes the run-length merge of the unit steps |
| TextDiff.DiffCorrect | apps/annotation/static/annotation_canvas.js:962-990 | for all texts the diff is well-formed, aligned, replays to the new text, its equal total is the LCS length, and the totals add up to both text lengths |
| TextDiff.MergeWellFormed | apps/annotation/static/annotation_canvas.js:981-990 | merging any unit steps yields runs of count ≥ 1 with no two adjacent runs of one kind |
| TextDiff.ExpandMerge | apps/annotation/static/annotation_canvas.js:981-990 | expanding the merged runs gives back exactly the unit steps: the merge loses nothing |
| TextDiff.MergeExpand | apps/annotation/static/annotation_canvas.js:981-990 | on a well-formed script, merging its expansion gives the script back: merge and expand are inverse |
| TextDiff.ReplayIffAligned | apps/annotation/static/annotation_canvas.js:966-976 | replaying a script (copy `equal` from old, skip `delete`, take `insert` from new) reproduces the new text exactly when the script aligns the two texts |
| TextDiff.AlignedTotals | apps/annotation/static/annotation_canvas.js:962-990 | any aligning script has equal+delete totalling the old length and equal+insert the new length |
| TextDiff.TraceEqualCount | apps/annotation/static/annotation_canvas.js:949-976 | the number of `equal` steps on the traceback path from `(i, j)` is the table value `dp[i][j]` |
| TextDiff.DiffOptimal | apps/annotation/static/annotation_canvas.js:949-959 | no script aligning the two texts has more `equal` units than the diff: the diff pairs a longest common subsequence |
| TextDiff.LcsBound | apps/annotation/static/annotation_canvas.js:951-958 | an LCS of two prefixes is no longer than either prefix |
| TextDiff.LcsSwap | apps/annotation/static/annotation_canvas.js:951-958 | the recurrence is symmetric in the two texts |
| TextDiff.DiffIdentity | apps/annotation/static/annotation_canvas.js:962-990 | diffing a text against itself yields no runs for the empty text and one `equal` run of its length otherwise |
| TextDiff.DiffInsert | apps/annotation/static/annotation_canvas.js:962-990 | inserting a block at position `p ≥ 1` whose units differ from the unit before `p` yields `equal p`, `insert |w|`, then `equal` of the rest when there is a rest |
| TextDiff.DiffDelete | apps/annotation/static/annotation_canvas.js:962-990 | deleting `d` units at `p` (the unit before `p`, if any, not among them) yields `equal p` if `p > 0`, `delete d`, then `equal` of the rest when there is a rest |
| Reconcile.Decide | apps/annotation/static/annotation_canvas.js:900-931 | an annotation survives iff both offsets mapped and, when a deletion overlapped it, the new end lies after the new start; a survivor has the mapped offsets, the new text between them and every other field unchanged |
| Reconcile.WalkAnnotation | apps/annotation/static/annotation_canvas.js:851-899 | the walk with its early exit maps each offset through the first `equal` run whose closed old range contains it and flags exactly the spans some `delete` run overlaps |
| Reconcile.WalkByReference | apps/annotation/static/annotation_canvas.js:858-895 | the walk over all runs agrees with the reference offset map and the reference deletion overlap, from any cursor |
| Reconcile.WalkStops | apps/annotation/static/annotation_canvas.js:897 | once both offsets are mapped and the old cursor is past the end, the remaining runs change nothing the decision reads |
| Reconcile.ClassifyByReference | apps/annotation/static/annotation_canvas.js:851-931 | an annotation's fate is the decision applied to the reference offset map and deletion overlap |
| Reconcile.ReconcileAnnotations | apps/annotation/static/annotation_canvas.js:845-935 | the two result lists are the survivors' updated records and the invalidated records under the diff of the two texts, and their sizes add up to the input's |
| Reconcile.ReconcilePartition | apps/annotation/static/annotation_canvas.js:851-934 | every input record lands in exactly one list (sizes and payload multisets add up); both lists keep input order; invalidated entries are the unchanged input records |
| Reconcile.MapOffsetInRange | apps/annotation/static/annotation_canvas.js:858-874 | under a script that turns `a` into `b`, a mapped offset lies within `b` |
| Reconcile.NonEmptySurvivor | apps/annotation/static/annotation_canvas.js:900-931 | an annotation with `start < end` never survives with `end ≤ start` |
| Reconcile.SurvivorInNewText | apps/annotation/static/annotation_canvas.js:926-931 | a survivor of a non-empty span lies inside the new text and its snapshot is the new text between its offsets |
| Reconcile.IdentityEdit | apps/annotation/static/annotation_canvas.js:851-931 | with an unchanged non-empty text, an annotation in range keeps its offsets and gets the text between them; anything else is invalidated |
| Reconcile.IdentityReconcile | apps/annotation/static/annotation_canvas.js:845-935 | reconciling a non-empty text with itself keeps every in-range annotation, in order, with the same offsets and the re-sliced text, and invalidates none |
| Reconcile.InsertEdit | apps/annotation/static/annotation_canvas.js:858-878 | after an insertion of `w` at `p`, offsets up to `p` stay and later ones shift by `|w|`; an annotation ending at `p` does not absorb the insertion |
| Reconcile.DeleteSpanEdit | apps/annotation/static/annotation_canvas.js:879-916 | deleting exactly an annotation's span invalidates it |
| Reconcile.DeleteAfterEdit | apps/annotation/static/annotation_canvas.js:879-931 | a deletion at or after an annotation's end leaves it unchanged |
| Reconcile.DeleteBeforeEdit | apps/annotation/static/annotation_canvas.js:879-931 | a deletion before an annotation shifts both offsets left by the deleted length and keeps its text |
| Reconcile.DeleteInsideEdit | apps/annotation/static/annotation_canvas.js:901-912 | a deletion strictly inside an annotation keeps it, moves its end left by the deleted length and rejoins the text around the gap |
| Reconcile.PaulaExample | apps/annotation/static/annotation_canvas.js:864-870 | "Jane met Paul in London" → "Jane met Paula in London" keeps "Paul" at 9..13 |
| Reconcile.SmithKeepsJaneExample | apps/annotation/static/annotation_canvas.js:864-870 | inserting " Smith" right after "Jane" leaves the annotation "Jane" at 0..4 |
| Reconcile.SmithMovesPaulExample | apps/annotation/static/annotation_canvas.js:858-878 | inserting "Smith " before "met" moves "Paul" from 9..13 to 15..19 with unchanged text |
| Reconcile.DeletePaulExample | apps/annotation/static/annotation_canvas.js:901-916 | deleting "Paul" invalidates the annotation on it |
| Segments.CollectBoundaries | apps/annotation/static/annotation_canvas.js:578-589 | the boundary set is {0, text length} with every annotation offset and both ends of the pending selection |
| Segments.SortBoundaries | apps/annotation/static/annotation_canvas.js:591 | the sorted list is strictly increasing and has exactly the members of the set |
| Segments.SortedUnique | apps/annotation/static/annotation_canvas.js:591 | two strictly increasing lists with the same members are equal, so the sorted boundaries are determined by the set |
| Segments.SegmentsBetween | apps/annotation/static/annotation_canvas.js:594-608 | the loop emits one segment per pair of consecutive boundaries, in order, each with its text slice, covering annotations and pending flag |
| Segments.BuildSegments | apps/annotation/static/annotation_canvas.js:577-611 | the segments tile the boundary range in order, one between each two consecutive distinct boundaries, none containing a boundary inside, each with its slice, covering annotations and pending flag |
| Segments.SegmentsJoinToText | apps/annotation/static/annotation_canvas.js:594-608 | the segment texts joined in order give the whole text |
| Segments.CoveringMembers | apps/annotation/static/annotation_canvas.js:599-601 | an annotation is in a segment's list iff it is an input annotation with `start ≤ seg.start` and `end ≥ seg.end` |
| Segments.CoveringInOrder | apps/annotation/static/annotation_canvas.js:599-601 | a segment's annotations keep the input order |
| Segments.CoverageIsUniform | apps/annotation/static/annotation_canvas.js:577-611 | a position of a segment lies in an annotation exactly when the annotation is in that segment's list |
| Segments.PendingIsUniform | apps/annotation/static/annotation_canvas.js:603-605 | a position of a segment lies in the pending selection exactly when the segment is flagged pending |
| Segments.SkipLeading | apps/annotation/static/annotation_canvas.js:1013 | the leading loop stops at the first non-space within the selection, every unit skipped being a space |
| Segments.DropTrailing | apps/annotation/static/annotation_canvas.js:1014 | the trailing loop stops after the last non-space, every unit dropped being a space |
| Segments.TrimSelection | apps/annotation/static/annotation_canvas.js:1008-1016 | the selection is ignored iff it is collapsed or holds only spaces; otherwise it is trimmed by the two loops |
| Segments.AllSpaces | apps/annotation/static/annotation_canvas.js:1013-1016 | trimming a non-collapsed selection leaves nothing exactly when it holds only spaces |
| Segments.TrimIdempotent | apps/annotation/static/annotation_canvas.js:1013-1014 | a trimmed selection trims to itself |
| Segments.TrimRemovesOnlySpaces | apps/annotation/static/annotation_canvas.js:1013-1014 | the selected text is the trimmed text with only spaces around it |
| PyString.JoinSplit | networkAnnotation/decorators.py:12-14 | joining the parts of a split with the separator gives the string back |
| PyString.SplitOnce | apps/projects/templatetags/form_fields.py:43 | `split(":", 1)`: the piece is the head, the separator and the tail, with no separator in the head |
| PyValue.Contains | apps/projects/schema_definitions/dropdown.py:32 | `in` is `==`-membership on a list, a substring test on a string (`TypeError` for a non-string), key membership on a dict (`TypeError` when unhashable), and `TypeError` otherwise |
| PyValue.PyEqSymmetric | apps/projects/schema_definitions/dropdown.py:32 | Python `==` on the modelled values is symmetric |
| SchemaBase.CleanDefinition | apps/projects/schema_definitions/base.py:23-49 | a definition passes iff it has string `name` and `label`, a `type` equal to the class tag and a bool `required` when present; it is returned unmodified; missing keys are reported in the order name, label, type, then the tag mismatch, then `name` not a string, `label` not a string, `required` not a bool, each only when the earlier checks pass |
| SchemaBase.Serialize | apps/projects/schema_definitions/base.py:17-18 | the stored form of a value is the value itself |
| SchemaBase.Deserialize | apps/projects/schema_definitions/base.py:20-21 | a stored value is read back as it is |
| SchemaBase.SchemaField.constructor | apps/projects/schema_definitions/base.py:7-12 | `name` and `label` default to `None`, `required` to `False`, and the keyword arguments are kept |
| SchemaBase.SchemaField.ToDict | apps/projects/schema_definitions/base.py:51-62 | the keys are the four core keys and the definition's keys; the core entries come from the instance and the class tag; extras are copied and never overwrite a core entry |
| SchemaBase.ExportCleanDefinition | apps/projects/schema_definitions/base.py:51-62 | a field built from a definition that passed the check exports that definition with `required` filled in as `False` when absent |
| TextFieldType.Validate | apps/projects/schema_definitions/text.py:8-12 | a value passes iff it is `None` or a string; otherwise "<name> must be a string" (or `KeyError` without a name) |
| TextFieldType.Deserialize | apps/projects/schema_definitions/text.py:17-20 | `None` stays `None`, a string comes back unchanged, anything else becomes its `str()` rendering |
| TextFieldType.DeserializedValidates | apps/projects/schema_definitions/text.py:8-20 | whatever is stored, the value read back passes the text check |
| TextFieldType.RoundTrip | apps/projects/schema_definitions/text.py:14-20 | reading back a serialized valid text value returns it, and reading back twice is reading back once |
| TextFieldType.CleanDefinition | apps/projects/schema_definitions/text.py:22-24 | exactly the base check with the tag `"text"` |
| NumberFieldType.Validate | apps/projects/schema_definitions/number.py:8-12 | a value passes iff it is `None`, an int, a float or a bool (a bool is an int); otherwise "<name> must be a number" |
| NumberFieldType.ValidateExamples | apps/projects/schema_definitions/number.py:11-12 | `True` and 2.5 pass, the string "3" does not |
| NumberFieldType.CleanDefinition | apps/projects/schema_definitions/number.py:14-16 | exactly the base check with the class tag, which is `"text"` |
| NumberFieldType.NumberTagIsText | apps/projects/schema_definitions/number.py:6 | a number definition with `type: "number"` is refused with the type-mismatch error, and with `type: "text"` it is accepted |
| BoolFieldType.Validate | apps/projects/schema_definitions/bool.py:17-32 | a value passes iff it is `None`, `""`, a bool, or a string whose lower-case form is one of true/false/1/0/yes/no; otherwise "<name> must be a boolean." |
| BoolFieldType.UpperCaseAccepted | apps/projects/schema_definitions/bool.py:23-31 | "YES" passes |
| BoolFieldType.OthersRefused | apps/projects/schema_definitions/bool.py:32 | "maybe" and the int 1 are refused |
| BoolFieldType.CaseInsensitive | apps/projects/schema_definitions/bool.py:23 | a string gets the same verdict as its lower-case form, so letter case never matters |
| PyString.LowerIdempotent | apps/projects/schema_definitions/bool.py:23 | lower-casing twice gives the same string as lower-casing once |
| DropdownFieldType.CleanDefinition | apps/projects/schema_definitions/dropdown.py:20-27 | a definition passes iff it passes the base check and its `choices` is a non-empty list; base errors come first; it is returned unmodified |
| DropdownFieldType.Validate | apps/projects/schema_definitions/dropdown.py:29-35 | `None` passes; with a list of choices a value passes iff it `==` one of them; with a string of choices a string passes iff it is a substring and any other value raises `TypeError`; with a dict of choices a value passes iff it is a string key, and a list or dict value raises `TypeError`; without `choices` every other value raises (`KeyError`); a non-iterable `choices` raises `TypeError`; the message lists the choices |
| DropdownFieldType.ChoiceIsAccepted | apps/projects/schema_definitions/dropdown.py:32 | every choice of a definition is an accepted value |
| DropdownFieldType.CleanedDefinitionValidates | apps/projects/schema_definitions/dropdown.py:20-35 | after a definition passed its check, a value passes iff it is `None` or equal to a choice, and is otherwise refused with the "must be one of" message |
| DateFieldType.ValidateStructured | apps/projects/schema_definitions/date.py:19-61 | a structured date passes iff its `iso` is a non-empty string, its precision is one of the six, and its date is valid (month-day only for `0000-`); each failing case gets its own error, checked in this order: missing `iso`; `TypeError` for a list or dict precision; the invalid-precision message with the sorted list for any other unknown precision; `AttributeError` for a non-string `iso`; then the no-year date message and the ISO date message |
| DateFieldType.Validate | apps/projects/schema_definitions/date.py:10-65 | a value passes iff it is `None`, any string, or a valid structured date; anything else gets "date value must be a string or structured date object." |
| DateFieldType.NoYearUsesMonthDay | apps/projects/schema_definitions/date.py:44-52 | `0000-04-30` is checked as month and day "04-30" only |
| DateFieldType.MissingIsoReportedFirst | apps/projects/schema_definitions/date.py:24-27 | a structured date without `iso` is refused for that, whatever its precision |
| DateFieldType.PrecisionBeforeDate | apps/projects/schema_definitions/date.py:29-41 | an unknown precision is reported, with the sorted precision list, before the date is looked at |
| LatLongFieldType.Validate | apps/projects/schema_definitions/latlong.py:9-27 | a value passes iff it is `None` or a dict with numeric `lat` in [-90, 90] and numeric `long` in [-180, 180]; otherwise it gets the first failing check's message, in the order shape, numeric coordinates, latitude range, longitude range |
| LatLongFieldType.ValidateExamples | apps/projects/schema_definitions/latlong.py:18-27 | the range ends are included, a bool counts as a number, latitude is reported first, a string coordinate is "not numeric" |
| Registry.RegistryKeys | apps/projects/schema_definitions/registry.py:9-20 | the registry's keys are exactly the listed classes' tags |
| Registry.LastClassWins | apps/projects/schema_definitions/registry.py:9-20 | under each tag the registry holds the last listed class carrying it |
| Registry.RegisteredUnderOwnTag | apps/projects/schema_definitions/registry.py:9-20 | every registered class carries the tag it is registered under |
| Registry.RegistryContents | apps/projects/schema_definitions/registry.py:9-20 | the registry has exactly six entries, `"text"` maps to the number class, `"number"` is absent and the text class is not registered |
| Registry.GetFieldClass | apps/projects/schema_definitions/registry.py:23-26 | a registered tag returns the registry's entry for it, a class carrying that tag; any other value raises `ValueError("Unknown field type: ...")`, an unhashable one `TypeError` |
| Registry.LookupExamples | apps/projects/schema_definitions/registry.py:23-26 | `"number"` is unknown, `"text"` gives the number class, `"date"` the date class |
| AnnotationModel.Clean | apps/annotation/models.py:25-34 | passes iff `start < end` and the snapshot is empty or equals the page text sliced (clamped) at the offsets; each failure carries its message |
| AnnotationModel.CleanInsidePage | apps/annotation/models.py:29-34 | with offsets inside the page, a non-empty snapshot passes iff it is the page text between them |
| AnnotationModel.CleanAcceptsEndPastPage | apps/annotation/models.py:30 | an end offset past the page passes when the snapshot is the page's tail |
| AnnotationModel.CleanRejectsStartPastPage | apps/annotation/models.py:29-34 | a start offset at or past the end of the page fails with any non-empty snapshot |
| AnnotationModel.ReconciledAnnotationsPassClean | apps/annotation/models.py:25-34 | every annotation the browser's reconciliation keeps (from non-empty spans) passes the server's check against the new page text |
| Decorators.ParentPathIsPrefix | networkAnnotation/decorators.py:12-17 | with the trailing slashes stripped, the target is the path up to and including its last slash, or `/` when no slash is left |
| Decorators.ParentOfItselfOnlyAtRoot | networkAnnotation/decorators.py:12-17 | the only path redirected to itself is `/` |
| Decorators.ParentPathExample | networkAnnotation/decorators.py:12-15 | `/projects/3/` redirects to `/projects/` |
| Decorators.HtmxOnly | networkAnnotation/decorators.py:9-18 | the view is called iff the `HX-Request` header is present and non-empty; otherwise the redirect goes to the parent path, which ends with `/` |
| FormFields.RenderField | apps/projects/templatetags/form_fields.py:8-16 | a widget class whose lower-cased name contains "checkbox" gets the checkbox template, else one containing "textarea" the textarea template, else the text template |
| FormFields.ShortWidgetsAreText | apps/projects/templatetags/form_fields.py:9-15 | a name shorter than either word gets the text template |
| FormFields.OwnAttrs | apps/projects/templatetags/form_fields.py:39-51 | `KeyError("class")` iff no `class` was parsed; otherwise the parsed attributes plus `placeholder` (a space by default), with the base classes appended to `class` |
| FormFields.FinalAttrs | apps/projects/templatetags/form_fields.py:54-55 | the widget's attributes, each overridden by the filter's own, with no key lost |
| FormFields.AddAttrs | apps/projects/templatetags/form_fields.py:30-58 | the parsing loop, the placeholder, class and merge steps compute the final attributes, raising `KeyError` exactly as they do |
| FormFields.EmptyArgumentRaises | apps/projects/templatetags/form_fields.py:40-51 | an empty argument always raises `KeyError("class")` |
| FormFields.SplitAtFirstColon | apps/projects/templatetags/form_fields.py:43 | a piece splits at its first colon only, so the value keeps later colons |
| FormFields.PairOfKeyValue | apps/projects/templatetags/form_fields.py:42-44 | a piece `key:value` contributes the stripped key and the stripped value |
| FormFields.ParsedKeysHaveNoColon | apps/projects/templatetags/form_fields.py:41-44 | no parsed key contains a colon |
| FormFields.LastPieceWins | apps/projects/templatetags/form_fields.py:44 | the last piece that sets a key decides its value |
| FormFields.ParsedKeysFromPieces | apps/projects/templatetags/form_fields.py:40-44 | a key is parsed exactly when some piece with a colon sets it |
| FormFields.PiecesWithoutColonIgnored | apps/projects/templatetags/form_fields.py:42 | pieces without a colon contribute nothing |

## Left out

- DOM rendering, the toolbar, popovers, mouse and timer handling, `_getOffsets`, `_buildHighlightStyle`, `parseDateString` and the date and reference widgets of the canvas: they are browser UI, floating-point colour blending and regex-driven date entry, not offset logic.
- Saving an edited page, annotation CRUD and `_fetch`: network calls and dialogs.
- TextDiff.LcsTable: the table is an `Int32Array`. Its cells never exceed the shorter text's length, so there is no wrap-around for texts under 2^31 units, and the model uses unbounded integers.
- AnnotationModel.ReconciledAnnotationsPassClean holds for text made of Basic Multilingual Plane characters only. `TextDiff.ComputeDiff` and `Reconcile.ReconcileAnnotations` index text by Unicode code point (a Dafny `char`), which matches the canvas's 16-bit units only for such text. A character outside it takes two units in the canvas and one in Python, so a later offset the browser computes points one unit further per such character than the server's slice expects.
- Reconcile.Annotation: offsets are naturals. Non-integer or negative offsets from a malformed record are not modelled, and every field other than the offsets and the snapshot is an opaque payload.
- The annotation list and the pending selection are parameters of `BuildSegments`, not fields of a canvas object.
- `str()` rendering is left out: messages carry `Shown` parts for the values they interpolate, and `TextFieldType.Deserialize` takes the rendering as a parameter.
- DateFieldType.Validate: `datetime.fromisoformat` and `datetime.strptime(rest, "%m-%d")` are the predicate parameters `isoDate` and `monthDay`. The `original` key is read by the code but used for nothing.
- PyString.Lower lowercases ASCII letters only, while Python's `str.lower` also lowercases other letters. For the tests the model uses it in, this makes no difference. A non-ASCII letter lowercases to a non-ASCII one, except U+212A, which becomes "k", and U+0130, which becomes "i" followed by U+0307. Neither "k" nor "i" occurs in the six bool words. Python normalises identifiers, so U+212A never reaches a widget class name.
- PyValue.Value has no NaN or infinity: floats are reals, so the lat/long range checks are exact.
- Dict key order and the rendering of a dropdown's choices list inside a message are not modelled.
- `ReferenceField`: only its tag is modelled. Its checks are database queries.
- `apps/annotation/api.py`, `apps/projects/services/schema_service.py`, the legacy `projects/` app, the Django views, urls, admin, models and forms, and `networkAnnotation/forms.py` are not part of this model: they are request, ORM and form plumbing.
- Decorators.HtmxOnly returns `CallView` or `Redirect(target)` instead of calling the view or building a redirect response. The request is reduced to the `HX-Request` header value (`None` when absent) and the path.
- AnnotationModel.Clean takes the text of the annotation's page. The page is a required foreign key and a page object is always truthy, so the model has no page-less case. The check on an unsaved annotation without a page, where reading `self.page` raises, is not modelled. Django's `super().clean()` is not modelled either.
- FormFields.RenderField takes the widget's class name as a string. `as_widget` rendering is not modelled.
- FormFields.AddAttrs: the widget's attributes are a map value, so that the widget's own dict is not mutated holds by construction.
- `add_classes` and `add_placeholder` are single `as_widget` calls and are not modelled.
