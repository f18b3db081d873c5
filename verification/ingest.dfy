/** Reading a JSONL file into records (src/DataCleaningApp.tsx, the first
    half of `handleFileUpload`): split on newlines, drop blank lines, parse
    each remaining line, drop the lines that fail to parse, and give every
    record an `approve` field. */
module Ingest {
  import opened Json
  import opened Text
  import opened Counting

  /** The library calls the tool relies on, kept uninterpreted: `JSON.parse`
      of one line (yielding the parsed object, or `None` when it throws),
      `JSON.stringify` of one record, and the whitespace test behind
      `String.prototype.trim`. */
  datatype Codec = Codec(
    parse: string -> Option<Record>,
    serialise: Record -> string,
    isSpace: char -> bool)

  const Newline: char := '\n'

  /** `!line.trim()`: the line is empty once whitespace is trimmed. */
  predicate IsBlank(c: Codec, line: string) {
    forall k :: 0 <= k < |line| ==> c.isSpace(line[k])
  }

  /** A line that survives both filters of the load. */
  predicate WellFormed(c: Codec, line: string) {
    !IsBlank(c, line) && c.parse(line).Some?
  }

  /** The two line tests as values, for counting positions. */
  function NonBlankTest(c: Codec): string -> bool {
    line => !IsBlank(c, line)
  }

  function WellFormedTest(c: Codec): string -> bool {
    line => WellFormed(c, line)
  }

  /** `{...record, approve: record.approve !== undefined ? record.approve : null}` */
  function Normalise(r: Record): (n: Record)
    ensures "approve" in n
    ensures "approve" in r ==> n == r
    ensures "approve" !in r ==> n["approve"] == Null
    ensures forall k :: k != "approve" ==> Get(n, k) == Get(r, k)
  {
    if "approve" in r then r else r["approve" := Null]
  }

  /** `lines.filter(line => line.trim())` */
  function DropBlank(c: Codec, lines: seq<string>): (kept: seq<string>)
    ensures |kept| <= |lines|
    ensures forall i :: 0 <= i < |kept| ==> !IsBlank(c, kept[i])
    ensures forall i :: 0 <= i < |lines| && !IsBlank(c, lines[i]) ==> lines[i] in kept
    ensures forall i :: 0 <= i < |kept| ==> kept[i] in lines
  {
    if |lines| == 0 then []
    else
      var front := lines[..|lines| - 1];
      var last := lines[|lines| - 1];
      assert forall i :: 0 <= i < |front| ==> front[i] == lines[i];
      DropBlank(c, front) + (if IsBlank(c, last) then [] else [last])
  }

  /** `lines.map(line => parse-and-normalise, or null).filter(r => r !== null)`,
      fused into one pass. */
  function ParseKept(c: Codec, lines: seq<string>): (recs: seq<Record>)
    ensures |recs| <= |lines|
    ensures forall i :: 0 <= i < |recs| ==> "approve" in recs[i]
  {
    if |lines| == 0 then []
    else
      var last := lines[|lines| - 1];
      ParseKept(c, lines[..|lines| - 1])
        + (match c.parse(last) case Some(r) => [Normalise(r)] case None => [])
  }

  /** The records a file's text loads as: the one-pass reading of its
      lines. */
  function LoadRecords(c: Codec, text: string): (recs: seq<Record>)
    ensures recs == Ingested(c, Split(text, Newline))
  {
    var lines := Split(text, Newline);
    LoadMatchesOnePass(c, lines);
    ParseKept(c, DropBlank(c, lines))
  }

  /** What a single line contributes to the load. */
  function Contribution(c: Codec, line: string): seq<Record>
  {
    if WellFormed(c, line) then [Normalise(c.parse(line).value)] else []
  }

  lemma {:induction false} ParseKeptAppend(c: Codec, a: seq<string>, b: seq<string>)
    ensures ParseKept(c, a + b) == ParseKept(c, a) + ParseKept(c, b)
  {
    if |b| > 0 {
      assert (a + b)[..|a + b| - 1] == a + b[..|b| - 1];
      ParseKeptAppend(c, a, b[..|b| - 1]);
    } else {
      assert a + b == a;
    }
  }

  /** The reference reading of a file's lines, in one pass: each line
      contributes its normalised record exactly when it is non-blank and
      parses, and nothing otherwise. */
  function Ingested(c: Codec, lines: seq<string>): seq<Record>
  {
    if |lines| == 0 then []
    else Ingested(c, lines[..|lines| - 1]) + Contribution(c, lines[|lines| - 1])
  }

  lemma SingleLine(c: Codec, line: string)
    ensures ParseKept(c, DropBlank(c, [line])) == Contribution(c, line)
  {
  }

  /** The source's two stages (drop blank lines, then parse and drop the
      failures) compute the one-pass reference. */
  lemma {:induction false} LoadMatchesOnePass(c: Codec, lines: seq<string>)
    ensures ParseKept(c, DropBlank(c, lines)) == Ingested(c, lines)
  {
    if |lines| > 0 {
      var front := lines[..|lines| - 1];
      var last := lines[|lines| - 1];
      LoadMatchesOnePass(c, front);
      ParseKeptAppend(c, DropBlank(c, front), if IsBlank(c, last) then [] else [last]);
      SingleLine(c, last);
    }
  }

  /** The load keeps the records in the order of their lines: reading two
      consecutive stretches of lines gives the records of the first, then
      those of the second. */
  lemma {:induction false} IngestedAppend(c: Codec, a: seq<string>, b: seq<string>)
    ensures Ingested(c, a + b) == Ingested(c, a) + Ingested(c, b)
  {
    if |b| > 0 {
      assert (a + b)[..|a + b| - 1] == a + b[..|b| - 1];
      IngestedAppend(c, a, b[..|b| - 1]);
    } else {
      assert a + b == a;
    }
  }

  /** Dropping blank lines keeps the survivors in their original order:
      filtering two consecutive stretches of lines gives the survivors of
      the first, then those of the second. */
  lemma {:induction false} DropBlankAppend(c: Codec, a: seq<string>, b: seq<string>)
    ensures DropBlank(c, a + b) == DropBlank(c, a) + DropBlank(c, b)
  {
    if |b| > 0 {
      assert (a + b)[..|a + b| - 1] == a + b[..|b| - 1];
      DropBlankAppend(c, a, b[..|b| - 1]);
    } else {
      assert a + b == a;
    }
  }

  /** Exactly one line survives per non-blank position. */
  lemma {:induction false} DropBlankCount(c: Codec, lines: seq<string>)
    ensures |DropBlank(c, lines)| == |Positions(lines, NonBlankTest(c))|
  {
    if |lines| > 0 {
      var front := lines[..|lines| - 1];
      var last := lines[|lines| - 1];
      DropBlankCount(c, front);
      assert lines == front + [last];
      PositionsSnoc(front, last, NonBlankTest(c));
    }
  }

  /** On lines with no blank among them, the parse stage alone computes the
      one-pass reference: each line yields its normalised record exactly
      when it parses. */
  lemma {:induction false} ParseKeptOnNonBlank(c: Codec, lines: seq<string>)
    requires forall i :: 0 <= i < |lines| ==> !IsBlank(c, lines[i])
    ensures ParseKept(c, lines) == Ingested(c, lines)
  {
    if |lines| > 0 {
      var front := lines[..|lines| - 1];
      assert forall i :: 0 <= i < |front| ==> front[i] == lines[i];
      ParseKeptOnNonBlank(c, front);
    }
  }

  /** The number of records loaded is the number of well-formed lines, and
      so at most the number of non-blank lines. */
  lemma {:induction false} LoadCount(c: Codec, lines: seq<string>)
    ensures |Ingested(c, lines)| == |Positions(lines, WellFormedTest(c))|
    ensures |Ingested(c, lines)| <= |Positions(lines, NonBlankTest(c))|
  {
    if |lines| > 0 {
      var front := lines[..|lines| - 1];
      var last := lines[|lines| - 1];
      LoadCount(c, front);
      assert lines == front + [last];
      PositionsSnoc(front, last, WellFormedTest(c));
      PositionsSnoc(front, last, NonBlankTest(c));
    }
  }
}
