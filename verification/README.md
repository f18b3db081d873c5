# JSONL review session, modelled in Dafny

This project models the review session of `DataCleaningApp`, a browser tool
for cleaning line-delimited JSON (JSONL) datasets. A reviewer loads a file of
records, edits each record's `input` and `output` text, and approves or
rejects it. They can then download the annotated file. With the React hooks
taken away, the component is a small state machine over four values:

- the list of records;
- the cursor (`currentIndex`);
- two draft buffers (`editedInput`, `editedOutput`).

Each handler becomes a pure transition on an immutable `Session`.

Modules, one per concern:

- `Json` (`json.dfy`): JSON values, records as `map<string, Value>`, and the
  JavaScript operations the component applies to fields. These are lookup
  with `undefined`, spread-assignment, truthiness and `x || ''`.
- `Text` (`text.dfy`): `split('\n')` and `join('\n')`, and the two lemmas
  that make them inverse.
- `Counting` (`counting.dfy`): counting the positions of a sequence that
  pass a test. The progress tally and the blank-line and parse filters of
  the load are checked against this count.
- `Ingest` (`ingest.dfy`): the file-reading half of `handleFileUpload`. It
  splits, drops blank lines, parses, drops unparsable lines and normalises
  `approve`.
- `Review` (`review.dfy`): the session, the resume cursor and every
  transition. It also holds the export text and the progress tally.
- `Workflow` (`workflow.dfy`): user actions gated by what is on screen, runs
  of actions, and the properties that involve several transitions.

`JSON.parse`, `JSON.stringify` and the whitespace test behind `trim` are not
modelled. They are the three fields of a `Codec` value that every loading or
exporting function takes as a parameter. `parse` returns `None` where
`JSON.parse` throws.

JavaScript `undefined` is `None`. A record field that is assigned `undefined`
is removed from the map. Every later read sees `undefined` either way, and
`JSON.stringify` drops such keys, so nothing can tell the two apart.

The model follows the source where its behaviour differs from what a reader
might expect:

- **Resume cursor.** The source scans backward for the last record whose
  `approve` is not `null`. It resumes one past that record, clamped to the
  last index. It does not count the decided records.
- **Resume with nothing decided.** When nothing is decided, the scan leaves
  the cursor at the last record, not the first. An empty file leaves it at
  -1.
- **Drafts after loading an empty file.** The drafts are left as they were,
  not emptied.
- **Selecting a missing field.** `handleSelectOutput` with a field the record
  lacks stores `undefined` in the output draft. It is not a no-op. The
  review card calls it only with `output1` and `output2`, so
  `Workflow.Action` offers just those two; neither name is inherited by a
  plain object, so a missing key reads as `undefined`.
- **Decide with no record under review.** `handleApprove` and `handleReject`
  have no bounds check of their own. They are reachable only from the review
  card, which is rendered only when `records.length > 0 && !isComplete`.
  `Decide` therefore requires `-1 <= cursor < length`.
- **Advance at the last record.** `moveToNext` never moves the cursor to
  `length`. The "complete" screen is therefore unreachable: see
  `Workflow.CompleteScreenNeverShown`.
- **`approve` values other than booleans and `null`.** A value such as a
  string counts as decided for the resume scan but as pending in the
  progress tally. The model keeps both rules as written.

## Model

| member | source | states |
|---|---|---|
| Text.Split | src/DataCleaningApp.tsx:19 | splitting the file text gives at least one piece, and no piece contains a newline |
| Text.Join | src/DataCleaningApp.tsx:99 | no lines join to the empty text; otherwise the joined text starts with the first line |
| Text.JoinSeparatorCount | src/DataCleaningApp.tsx:99 | the text joined from n >= 1 newline-free lines holds exactly n - 1 newlines; their placement is stated by `Text.SplitJoin` |
| Text.JoinSplit | src/DataCleaningApp.tsx:19 | joining the split pieces with newlines rebuilds the original text exactly |
| Text.SplitJoin | src/DataCleaningApp.tsx:99 | for a non-empty list of newline-free lines, splitting their newline-joined text gives back the same lines in the same order; the empty list joins to `""`, which splits into one empty piece |
| Ingest.DropBlank | src/DataCleaningApp.tsx:19 | the kept lines are all non-blank, every non-blank line is kept, and nothing else appears |
| Ingest.DropBlankAppend | src/DataCleaningApp.tsx:19 | the filter keeps lines in their original order: filtering two consecutive stretches gives the survivors of the first, then those of the second |
| Ingest.DropBlankCount | src/DataCleaningApp.tsx:19 | exactly as many lines survive as there are non-blank positions, so no line is kept twice |
| Ingest.ParseKept | src/DataCleaningApp.tsx:20-30 | at most one record per line, and every record loaded carries an `approve` field |
| Ingest.ParseKeptOnNonBlank | src/DataCleaningApp.tsx:20-30 | on non-blank lines the parse stage yields, in line order, the normalised record of each line that parses and nothing for the others |
| Ingest.LoadRecords | src/DataCleaningApp.tsx:18-30 | the records a file's text loads as are its newline-separated lines read by the one-pass reference |
| Json.OrEmpty | src/DataCleaningApp.tsx:48 | `x \|\| ''` (also at lines 80 and 88): a present, truthy value is kept as it is; anything else, `undefined` included, becomes the empty string |
| Ingest.Normalise | src/DataCleaningApp.tsx:22-26 | `approve` becomes `null` when absent and is kept verbatim when present; every other field is unchanged |
| Ingest.LoadMatchesOnePass | src/DataCleaningApp.tsx:19-30 | the two stages of the load compute the one-pass reference: each line yields its normalised record exactly when it is non-blank and parses, and nothing otherwise |
| Ingest.IngestedAppend | src/DataCleaningApp.tsx:19-30 | the load keeps records in line order: reading two consecutive stretches of lines gives the records of the first, then those of the second |
| Ingest.LoadCount | src/DataCleaningApp.tsx:19-30 | the number of records loaded equals the number of non-blank lines that parse, so it is at most the number of non-blank lines |
| Review.IsComplete | src/DataCleaningApp.tsx:112 | on a valid session, `isComplete` holds exactly in the initial state, with no records and the cursor at 0 |
| Review.ScanBack | src/DataCleaningApp.tsx:34-41 | when every record after the scan start is undecided, the scan lands one past the last decided record, clamped to the last index; with no decided record it lands on the last index |
| Review.ResumeCursor | src/DataCleaningApp.tsx:32-42 | the cursor is `min(lastDecided + 1, length - 1)`, or `length - 1` when nothing is decided; it lies in `[0, length)` for a non-empty file and is -1 for an empty one |
| Review.ScanResumeCursor | src/DataCleaningApp.tsx:33-42 | the literal backward loop with its early `break` computes the same cursor as the resume rule |
| Review.Load | src/DataCleaningApp.tsx:14-50 | the records are the ingested file, the cursor is the resume cursor, and the session is valid; drafts come from the record at the cursor, or are untouched for an empty file |
| Review.Commit | src/DataCleaningApp.tsx:54-59 | the committed record has the drafts as `input` and `output` and the verdict as `approve`; every other field is unchanged |
| Review.Decide | src/DataCleaningApp.tsx:52-74 | only the current record changes, taking the drafts and the verdict; the length is kept; the cursor advances and reloads the drafts, except at the last record where cursor and drafts stay |
| Review.Advance | src/DataCleaningApp.tsx:76-82 | moves one forward with drafts reloaded from the new record only when not at the last record, and otherwise changes nothing; records are never modified |
| Review.StepBack | src/DataCleaningApp.tsx:84-90 | moves one back with drafts reloaded from the new record only when the cursor is positive, and otherwise changes nothing; records are never modified |
| Review.SelectCandidateOutput | src/DataCleaningApp.tsx:92-96 | only the output draft changes, becoming the current record's named field; nothing changes when no record is current |
| Review.ExportLines | src/DataCleaningApp.tsx:99 | one serialised line per record, the i-th line being the i-th record's serialisation |
| Review.Export | src/DataCleaningApp.tsx:99 | no records export the empty text; otherwise the exported text starts with the first record's serialisation |
| Review.Tally | src/DataCleaningApp.tsx:114-119 | approved, rejected and pending always add up to the number of records |
| Review.TallyCounts | src/DataCleaningApp.tsx:114-119 | each count equals the number of records whose `approve` is `true`, is `false`, or is neither |
| Workflow.Step | src/DataCleaningApp.tsx:149-244 | every user action keeps the session valid; an upload replaces the records by the file's; a review action whose control is not rendered changes nothing |
| Workflow.Run | src/DataCleaningApp.tsx:8-11 | any sequence of actions from a valid session, such as the initial one, ends in a valid session |
| Workflow.CompleteScreenNeverShown | src/DataCleaningApp.tsx:259 | from the initial state, `isComplete` never holds while there are records, and the review card is shown exactly when records exist |
| Workflow.StaleRecordsInAdvanceAreHarmless | src/DataCleaningApp.tsx:76-82 | running `moveToNext` on the records from before the commit gives the same session as running it on the committed records |
| Workflow.StepBackThenDecide | src/DataCleaningApp.tsx:52-90 | going back and deciding again without editing changes only the previous record, whose verdict is replaced, whose `input` is kept and whose `output` becomes `output \|\| ''`; the cursor and drafts return to the record the user left |
| Workflow.ExportOneLinePerRecord | src/DataCleaningApp.tsx:99 | for a non-empty session (the only kind with a download button, src/DataCleaningApp.tsx:137) in which no serialisation holds a raw newline, the exported text splits into exactly one serialised line per record, in record order |
| Workflow.ExportIgnoresCursorAndDrafts | src/DataCleaningApp.tsx:99 | two sessions with the same records export the same text, whatever their cursors and drafts |
| Workflow.LoadExportRoundTrip | src/DataCleaningApp.tsx:14-99 | loading an exported file gives back exactly the exported records, including an empty session |
| Workflow.DecideKeepsApprove | src/DataCleaningApp.tsx:52-74 | after a decision every record still carries an `approve` field |
| Workflow.DecidedTailResumes | src/DataCleaningApp.tsx:32-42 | after deciding a record with nothing decided beyond it, the resume cursor equals the cursor `Decide` left |
| Workflow.CheckpointResumesInPlace | src/DataCleaningApp.tsx:32-109 | a checkpoint downloaded right after a decision reloads with the same records, and at the same cursor |

## Left out

- JSX rendering, styling and labels (src/DataCleaningApp.tsx:121-283) and the
  React bootstrap in src/main.tsx. They are presentation only. The render
  conditions that decide which controls exist are kept, in `Workflow.Step`.
- Browser I/O is not modelled. This covers `file.text()`, and the Blob,
  object URL and anchor click that deliver the download. The download's file
  name (`cleaned_data.jsonl`) belongs to that I/O. `Export` models only the
  text that goes into the file.
- The internals of `JSON.parse` and `JSON.stringify` are the `parse` and
  `serialise` fields of `Codec`. A line that parses to something other than
  an object, such as `5` or `null`, is folded into `parse` too. In the source
  such a line is spread into an object or throws.
- The whitespace set of `String.prototype.trim` is the `isSpace` field of
  `Codec`.
- React's batching of state updates is not modelled. Transitions are applied
  one after another.
- Object key order has no counterpart in `map`. Exported key order is
  therefore not modelled.
- Workflow.LoadExportRoundTrip: takes the three codec laws as hypotheses on
  the records involved. The laws are: parsing a serialised record gives it
  back, serialisations hold no raw newline, and they are never blank. They
  are not proved of `JSON.stringify`, whose code is not part of this model.
- Workflow.CheckpointResumesInPlace: takes the same codec laws as
  hypotheses. It also assumes no record after the cursor is decided, as in a
  front-to-back review. Otherwise the scan resumes after the later decision.
