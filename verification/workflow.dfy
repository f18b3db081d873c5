/** The review session driven by the user's actions, and the properties
    that relate several transitions: which states are reachable, what an
    exported file loads back as, and where a reloaded checkpoint resumes. */
module Workflow {
  import opened Json
  import opened Text
  import opened Ingest
  import opened Review

  /** The two candidate buttons of the review card, and the record field
      each one copies into the output draft. */
  datatype Candidate = Output1 | Output2

  function FieldOf(cand: Candidate): string {
    match cand
    case Output1 => "output1"
    case Output2 => "output2"
  }

  /** What the user can do. `Upload(None)` is a file dialog closed without
      a file. The review actions exist only while the review card is
      rendered. */
  datatype Action =
    | Upload(file: Option<string>)
    | Approve
    | Reject
    | Previous
    | SelectOutput(candidate: Candidate)
    | EditInput(text: string)
    | EditOutput(text: string)

  /** One user action. An action whose control is not on screen leaves the
      session alone. */
  function Step(c: Codec, s: Session, a: Action): (r: Session)
    requires Valid(s)
    ensures Valid(r)
    ensures a.Upload? && a.file.Some? ==> r.records == LoadRecords(c, a.file.value)
    ensures !a.Upload? && !ReviewCardShown(s) ==> r == s
  {
    var shown := ReviewCardShown(s);
    match a
    case Upload(file) => if file.Some? then Load(c, s, file.value) else s
    case Approve => if shown then Decide(s, true) else s
    case Reject => if shown then Decide(s, false) else s
    case Previous => if shown then StepBack(s) else s
    case SelectOutput(cand) => if shown then SelectCandidateOutput(s, FieldOf(cand)) else s
    case EditInput(text) => if shown then s.(draftInput := Some(Str(text))) else s
    case EditOutput(text) => if shown then s.(draftOutput := Some(Str(text))) else s
  }

  /** A sequence of actions, first to last. */
  function Run(c: Codec, s: Session, actions: seq<Action>): (r: Session)
    requires Valid(s)
    ensures Valid(r)
    decreases |actions|
  {
    if |actions| == 0 then s
    else Run(c, Step(c, s, actions[0]), actions[1..])
  }

  /** Whatever the user does, the cursor never passes the last record: the
      screen guarded by `isComplete && records.length > 0` is never shown,
      and the review card is shown exactly when there are records. */
  lemma CompleteScreenNeverShown(c: Codec, actions: seq<Action>)
    ensures !(IsComplete(Run(c, Initial, actions)) && |Run(c, Initial, actions).records| > 0)
    ensures ReviewCardShown(Run(c, Initial, actions)) <==> |Run(c, Initial, actions).records| > 0
  {
  }

  /** The source's `moveToNext` reads `records` and `currentIndex` from the
      render before the commit. Evaluating it on the committed records
      instead, as `Decide` does, gives the same session. */
  lemma StaleRecordsInAdvanceAreHarmless(s: Session, verdict: bool)
    requires 0 <= s.cursor < |s.records|
    ensures
      var committed := s.records[s.cursor := Commit(s.records[s.cursor], s.draftInput, s.draftOutput, verdict)];
      Advance(s).(records := committed) == Decide(s, verdict)
  {
  }

  /** Going back to revise a verdict: `Previous`, then `Approve` or
      `Reject` without editing. The previous record gets the new verdict,
      keeps its `input`, and has its `output` normalised to `output || ''`;
      every other record is untouched, and the cursor and drafts come back
      to the record the user left. Edits not yet committed there are lost. */
  lemma StepBackThenDecide(s: Session, verdict: bool)
    requires Valid(s) && s.cursor > 0
    ensures
      var r := Decide(StepBack(s), verdict);
      var p := s.cursor - 1;
      && |r.records| == |s.records|
      && Get(r.records[p], "approve") == Some(Bool(verdict))
      && Get(r.records[p], "input") == Get(s.records[p], "input")
      && Get(r.records[p], "output") == Some(OrEmpty(Get(s.records[p], "output")))
      && (forall k :: k != "input" && k != "output" && k != "approve" ==> Get(r.records[p], k) == Get(s.records[p], k))
      && (forall j :: 0 <= j < |s.records| && j != p ==> r.records[j] == s.records[j])
      && r.cursor == s.cursor
      && DraftsFromCurrent(r)
  {
  }

  /** The codec reads back what it writes for every record of `rs`, writes
      no raw newline, and never writes a blank line. `JSON.stringify` of an
      object has all three properties. */
  predicate RoundTripsOn(c: Codec, rs: seq<Record>) {
    forall i :: 0 <= i < |rs| ==>
      && c.parse(c.serialise(rs[i])) == Some(rs[i])
      && Newline !in c.serialise(rs[i])
      && !IsBlank(c, c.serialise(rs[i]))
  }

  /** The export reads the committed records only: sessions that differ
      just in cursor or drafts export the same text. */
  lemma ExportIgnoresCursorAndDrafts(c: Codec, s: Session, t: Session)
    requires s.records == t.records
    ensures Export(c, s) == Export(c, t)
  {
  }

  /** The export of a non-empty session (the only kind with a download
      button) has one line per record, in order, as long as no
      serialisation holds a raw newline. An empty session exports `""`,
      which splits into one empty piece. */
  lemma {:induction false} ExportOneLinePerRecord(c: Codec, s: Session)
    requires |s.records| > 0
    requires forall i :: 0 <= i < |s.records| ==> Newline !in c.serialise(s.records[i])
    ensures Split(Export(c, s), Newline) == ExportLines(c, s.records)
  {
    SplitJoin(ExportLines(c, s.records), Newline);
  }

  lemma {:induction false} DropBlankKeepsExportLines(c: Codec, rs: seq<Record>)
    requires RoundTripsOn(c, rs)
    ensures DropBlank(c, ExportLines(c, rs)) == ExportLines(c, rs)
  {
    if |rs| > 0 {
      var front := rs[..|rs| - 1];
      assert ExportLines(c, rs)[..|rs| - 1] == ExportLines(c, front);
      DropBlankKeepsExportLines(c, front);
    }
  }

  lemma {:induction false} ParseKeptReadsExportLines(c: Codec, rs: seq<Record>)
    requires RoundTripsOn(c, rs)
    requires forall i :: 0 <= i < |rs| ==> "approve" in rs[i]
    ensures ParseKept(c, ExportLines(c, rs)) == rs
  {
    if |rs| > 0 {
      var front := rs[..|rs| - 1];
      assert ExportLines(c, rs)[..|rs| - 1] == ExportLines(c, front);
      ParseKeptReadsExportLines(c, front);
      assert rs == front + [rs[|rs| - 1]];
    }
  }

  /** Loading an exported file gives back exactly the exported records,
      provided each already carries `approve` (as every loaded record
      does). */
  lemma {:induction false} LoadExportRoundTrip(c: Codec, s: Session, prev: Session)
    requires RoundTripsOn(c, s.records)
    requires forall i :: 0 <= i < |s.records| ==> "approve" in s.records[i]
    ensures Load(c, prev, Export(c, s)).records == s.records
  {
    var lines := ExportLines(c, s.records);
    if |s.records| == 0 {
      assert Export(c, s) == "";
      assert Split("", Newline) == [""];
      assert DropBlank(c, [""]) == [];
    } else {
      ExportOneLinePerRecord(c, s);
      DropBlankKeepsExportLines(c, s.records);
      ParseKeptReadsExportLines(c, s.records);
    }
  }

  /** Deciding preserves the `approve` field on every record that had one. */
  lemma DecideKeepsApprove(s: Session, verdict: bool)
    requires -1 <= s.cursor < |s.records|
    requires forall i :: 0 <= i < |s.records| ==> "approve" in s.records[i]
    ensures forall i :: 0 <= i < |Decide(s, verdict).records| ==> "approve" in Decide(s, verdict).records[i]
  {
  }

  /** Reviewing front to back, a checkpoint downloaded right after a
      decision loads back with the same records and resumes where the
      session stood: on the next record, or on the last one after deciding
      it. */
  lemma {:induction false} CheckpointResumesInPlace(c: Codec, s: Session, verdict: bool, prev: Session)
    requires 0 <= s.cursor < |s.records|
    requires UndecidedAfter(s.records, s.cursor)
    requires forall i :: 0 <= i < |s.records| ==> "approve" in s.records[i]
    requires RoundTripsOn(c, Decide(s, verdict).records)
    ensures Load(c, prev, Export(c, Decide(s, verdict))).records == Decide(s, verdict).records
    ensures Load(c, prev, Export(c, Decide(s, verdict))).cursor == Decide(s, verdict).cursor
  {
    var d := Decide(s, verdict);
    DecideKeepsApprove(s, verdict);
    LoadExportRoundTrip(c, d, prev);
    DecidedTailResumes(s, verdict);
  }

  /** After deciding record `i` with nothing decided beyond it, the resume
      cursor of the records is where `Decide` left the cursor. */
  lemma DecidedTailResumes(s: Session, verdict: bool)
    requires 0 <= s.cursor < |s.records|
    requires UndecidedAfter(s.records, s.cursor)
    ensures ResumeCursor(Decide(s, verdict).records) == Decide(s, verdict).cursor
  {
    var d := Decide(s, verdict);
    var i := s.cursor;
    assert Decided(d.records[i]);
    forall j | i < j < |d.records|
      ensures !Decided(d.records[j])
    {
      assert d.records[j] == s.records[j];
    }
    assert IsLastDecided(d.records, i);
  }
}
