/** The review session of `DataCleaningApp` (src/DataCleaningApp.tsx) with
    the React state hooks replaced by an immutable value: the records, the
    cursor (`currentIndex`) and the two draft buffers (`editedInput`,
    `editedOutput`). Every handler becomes a pure transition. */
module Review {
  import opened Json
  import opened Text
  import opened Ingest
  import opened Counting

  /** A draft buffer holds whatever the handlers last stored in it; `None`
      is JavaScript `undefined` (for example `record.input` of a record that
      has no `input` field). */
  datatype Session = Session(
    records: seq<Record>,
    cursor: int,
    draftInput: Option<Value>,
    draftOutput: Option<Value>)

  /** The state before any file is loaded: `useState([])`, `useState(0)`
      and two `useState('')`. */
  const Initial: Session := Session([], 0, Some(Str("")), Some(Str("")))

  /** The shape every reachable session has: with records, the cursor
      indexes one of them; without, it is the initial 0 or the -1 that
      loading an empty file leaves behind. */
  predicate Valid(s: Session) {
    if |s.records| == 0 then -1 <= s.cursor <= 0
    else 0 <= s.cursor < |s.records|
  }

  /** `isComplete`: the cursor is at or past the end of the records. A
      valid session is complete only in the initial state, where there are
      no records and the cursor is still 0. */
  predicate IsComplete(s: Session)
    ensures Valid(s) ==> (IsComplete(s) <==> |s.records| == 0 && s.cursor == 0)
  {
    s.cursor >= |s.records|
  }

  /** The review card is rendered: `records.length > 0 && !isComplete`. */
  predicate ReviewCardShown(s: Session) {
    |s.records| > 0 && !IsComplete(s)
  }

  /** `record.approve !== null`: the resume scan's notion of a decision. */
  predicate Decided(r: Record) {
    Get(r, "approve") != Some(Null)
  }

  /** No record after index `d` is decided. */
  predicate UndecidedAfter(rs: seq<Record>, d: int) {
    forall j :: d < j < |rs| && 0 <= j ==> !Decided(rs[j])
  }

  /** Index `d` holds the last decided record. */
  predicate IsLastDecided(rs: seq<Record>, d: int) {
    0 <= d < |rs| && Decided(rs[d]) && UndecidedAfter(rs, d)
  }

  function Min(a: int, b: int): int {
    if a <= b then a else b
  }

  /** The drafts hold exactly what loading the current record puts there:
      its `input`, and its `output` or `''`. */
  predicate DraftsFromCurrent(s: Session) {
    && 0 <= s.cursor < |s.records|
    && s.draftInput == Get(s.records[s.cursor], "input")
    && s.draftOutput == Some(OrEmpty(Get(s.records[s.cursor], "output")))
  }

  /** Loads the drafts from `rec`:
      `setEditedInput(rec.input); setEditedOutput(rec.output || '')`. */
  function Seed(s: Session, rec: Record): Session {
    s.(draftInput := Get(rec, "input"), draftOutput := Some(OrEmpty(Get(rec, "output"))))
  }

  // ---------------------------------------------------------------------
  // Resume cursor

  /** The backward scan of `handleFileUpload` from index `i` down to the
      start, every record after `i` being known undecided. */
  function ScanBack(rs: seq<Record>, i: int): (cursor: int)
    requires -1 <= i < |rs|
    requires UndecidedAfter(rs, i)
    ensures |rs| == 0 ==> cursor == -1
    ensures |rs| > 0 ==> 0 <= cursor < |rs|
    ensures UndecidedAfter(rs, -1) ==> cursor == |rs| - 1
    ensures forall d :: IsLastDecided(rs, d) ==> cursor == Min(d + 1, |rs| - 1)
    decreases i + 1
  {
    if i < 0 then |rs| - 1
    else if Decided(rs[i]) then
      (if i + 1 >= |rs| then |rs| - 1 else i + 1)
    else ScanBack(rs, i - 1)
  }

  /** Where a load resumes: just after the last decided record, clamped to
      the last record; the last record when nothing is decided; -1 for an
      empty file. */
  function ResumeCursor(rs: seq<Record>): (cursor: int)
    ensures |rs| == 0 ==> cursor == -1
    ensures |rs| > 0 ==> 0 <= cursor < |rs|
    ensures UndecidedAfter(rs, -1) ==> cursor == |rs| - 1
    ensures forall d :: IsLastDecided(rs, d) ==> cursor == Min(d + 1, |rs| - 1)
  {
    ScanBack(rs, |rs| - 1)
  }

  /** The resume loop of `handleFileUpload` statement by statement: start at
      the last index, scan backward, and stop at the first decided record. */
  method ScanResumeCursor(rs: seq<Record>) returns (cursor: int)
    ensures cursor == ResumeCursor(rs)
  {
    cursor := |rs| - 1;
    var i := |rs| - 1;
    while i >= 0
      invariant -1 <= i < |rs|
      invariant UndecidedAfter(rs, i)
      invariant cursor == |rs| - 1
      decreases i + 1
    {
      if Decided(rs[i]) {
        cursor := i + 1;
        if cursor >= |rs| {
          cursor := |rs| - 1;
        }
        assert IsLastDecided(rs, i);
        break;
      }
      i := i - 1;
    }
  }

  // ---------------------------------------------------------------------
  // Transitions

  /** `handleFileUpload` once the file's text is available: the loaded
      records replace the session, the cursor resumes, and the drafts are
      loaded from the record at the cursor if there is one. */
  function Load(c: Codec, s: Session, text: string): (r: Session)
    ensures r.records == LoadRecords(c, text)
    ensures r.cursor == ResumeCursor(r.records)
    ensures Valid(r)
    ensures |r.records| > 0 ==> DraftsFromCurrent(r)
    ensures |r.records| == 0 ==> r.cursor == -1 && r.draftInput == s.draftInput && r.draftOutput == s.draftOutput
  {
    var recs := LoadRecords(c, text);
    var cur := ResumeCursor(recs);
    var loaded := Session(recs, cur, s.draftInput, s.draftOutput);
    if 0 <= cur < |recs| then Seed(loaded, recs[cur]) else loaded
  }

  /** `{...rec, input: draftInput, output: draftOutput, approve: verdict}` */
  function Commit(rec: Record, input: Option<Value>, output: Option<Value>, verdict: bool): (r: Record)
    ensures Get(r, "input") == input
    ensures Get(r, "output") == output
    ensures Get(r, "approve") == Some(Bool(verdict))
    ensures forall k :: k != "input" && k != "output" && k != "approve" ==> Get(r, k) == Get(rec, k)
  {
    Put(Put(rec, "input", input), "output", output)["approve" := Bool(verdict)]
  }

  /** `moveToNext`: step forward unless the cursor is at (or past) the last
      record, loading the drafts from the new record. */
  function Advance(s: Session): (r: Session)
    requires -1 <= s.cursor
    ensures r.records == s.records
    ensures s.cursor < |s.records| - 1 ==> r.cursor == s.cursor + 1 && DraftsFromCurrent(r)
    ensures s.cursor >= |s.records| - 1 ==> r == s
  {
    if s.cursor < |s.records| - 1 then Seed(s.(cursor := s.cursor + 1), s.records[s.cursor + 1])
    else s
  }

  /** `moveToPrevious`: step back unless the cursor is at (or before) the
      first record, loading the drafts from the new record and discarding
      unsaved edits. */
  function StepBack(s: Session): (r: Session)
    requires s.cursor <= |s.records|
    ensures r.records == s.records
    ensures s.cursor > 0 ==> r.cursor == s.cursor - 1 && DraftsFromCurrent(r)
    ensures s.cursor <= 0 ==> r == s
  {
    if s.cursor > 0 then Seed(s.(cursor := s.cursor - 1), s.records[s.cursor - 1])
    else s
  }

  /** `handleApprove` (verdict true) and `handleReject` (verdict false):
      commit both drafts and the verdict to the current record, then
      `moveToNext`. The source writes `updatedRecords[currentIndex]` with no
      bounds check; at index -1 that creates a property that is not an
      array element, which no later step reads, so the records stay as
      they are. */
  function Decide(s: Session, verdict: bool): (r: Session)
    requires -1 <= s.cursor < |s.records|
    ensures |r.records| == |s.records|
    ensures forall j :: 0 <= j < |s.records| && j != s.cursor ==> r.records[j] == s.records[j]
    ensures s.cursor >= 0 ==>
      var rec := r.records[s.cursor];
      && Get(rec, "input") == s.draftInput
      && Get(rec, "output") == s.draftOutput
      && Get(rec, "approve") == Some(Bool(verdict))
      && forall k :: k != "input" && k != "output" && k != "approve" ==> Get(rec, k) == Get(s.records[s.cursor], k)
    ensures s.cursor < |s.records| - 1 ==> r.cursor == s.cursor + 1 && DraftsFromCurrent(r)
    ensures s.cursor == |s.records| - 1 ==>
      r.cursor == s.cursor && r.draftInput == s.draftInput && r.draftOutput == s.draftOutput
  {
    var recs :=
      if s.cursor >= 0 then
        s.records[s.cursor := Commit(s.records[s.cursor], s.draftInput, s.draftOutput, verdict)]
      else s.records;
    Advance(s.(records := recs))
  }

  /** `handleSelectOutput(field)`: copy the current record's `field` into
      the output draft. A missing field stores `undefined`. */
  function SelectCandidateOutput(s: Session, field: string): (r: Session)
    ensures r.records == s.records && r.cursor == s.cursor && r.draftInput == s.draftInput
    ensures 0 <= s.cursor < |s.records| ==> r.draftOutput == Get(s.records[s.cursor], field)
    ensures !(0 <= s.cursor < |s.records|) ==> r == s
  {
    if 0 <= s.cursor < |s.records| then s.(draftOutput := Get(s.records[s.cursor], field))
    else s
  }

  // ---------------------------------------------------------------------
  // Read-outs

  /** The records' serialisations, one per record, in order. */
  function ExportLines(c: Codec, records: seq<Record>): (lines: seq<string>)
    ensures |lines| == |records|
    ensures forall i :: 0 <= i < |records| ==> lines[i] == c.serialise(records[i])
  {
    seq(|records|, i requires 0 <= i < |records| => c.serialise(records[i]))
  }

  /** The text `handleDownload` puts in the file:
      `records.map(JSON.stringify).join('\n')`. No records give the empty
      text; otherwise the text starts with the first record's
      serialisation. */
  function Export(c: Codec, s: Session): (text: string)
    ensures |s.records| == 0 ==> text == ""
    ensures |s.records| > 0 ==> c.serialise(s.records[0]) <= text
  {
    Join(ExportLines(c, s.records), Newline)
  }

  predicate IsApproved(r: Record) {
    Get(r, "approve") == Some(Bool(true))
  }

  predicate IsRejected(r: Record) {
    Get(r, "approve") == Some(Bool(false))
  }

  /** Neither `=== true` nor `=== false`: `null`, and any other value a
      file may carry in `approve`. */
  predicate IsPending(r: Record) {
    !IsApproved(r) && !IsRejected(r)
  }

  datatype Progress = Progress(approved: nat, rejected: nat, pending: nat)

  /** `progressStats`: the `reduce` over the records, left to right. */
  function Tally(records: seq<Record>): (p: Progress)
    ensures p.approved + p.rejected + p.pending == |records|
  {
    if |records| == 0 then Progress(0, 0, 0)
    else
      var acc := Tally(records[..|records| - 1]);
      var last := records[|records| - 1];
      if IsApproved(last) then acc.(approved := acc.approved + 1)
      else if IsRejected(last) then acc.(rejected := acc.rejected + 1)
      else acc.(pending := acc.pending + 1)
  }

  /** Each count of the tally is the number of records in its class. */
  lemma {:induction false} TallyCounts(records: seq<Record>)
    ensures Tally(records).approved == |Positions(records, IsApproved)|
    ensures Tally(records).rejected == |Positions(records, IsRejected)|
    ensures Tally(records).pending == |Positions(records, IsPending)|
  {
    if |records| > 0 {
      var front := records[..|records| - 1];
      var last := records[|records| - 1];
      TallyCounts(front);
      assert records == front + [last];
      PositionsSnoc(front, last, IsApproved);
      PositionsSnoc(front, last, IsRejected);
      PositionsSnoc(front, last, IsPending);
    }
  }
}
