/** `String.prototype.split` and `Array.prototype.join` with a one-character
    separator, as the review tool uses them to read and write JSONL text. */
module Text {

  /** `s.split(sep)`: the maximal separator-free pieces of `s`, in order.
      Like JavaScript, the empty string splits into one empty piece and a
      trailing separator yields a trailing empty piece. */
  function Split(s: string, sep: char): (pieces: seq<string>)
    ensures |pieces| >= 1
    ensures forall i :: 0 <= i < |pieces| ==> sep !in pieces[i]
  {
    if |s| == 0 then [""]
    else
      var rest := Split(s[1..], sep);
      if s[0] == sep then [""] + rest
      else [[s[0]] + rest[0]] + rest[1..]
  }

  /** No line contains the separator. */
  predicate SeparatorFree(lines: seq<string>, sep: char) {
    forall i :: 0 <= i < |lines| ==> sep !in lines[i]
  }

  /** `lines.join(sep)`: the empty list joins to the empty string;
      otherwise the text starts with the first line. */
  function Join(lines: seq<string>, sep: char): (s: string)
    ensures |lines| == 0 ==> s == ""
    ensures |lines| > 0 ==> lines[0] <= s
  {
    if |lines| == 0 then ""
    else if |lines| == 1 then lines[0]
    else
      var tail := Join(lines[1..], sep);
      lines[0] + [sep] + tail
  }

  /** The text joined from n >= 1 separator-free lines holds exactly n - 1
      separators. Where they sit, one between each consecutive pair, is
      what `SplitJoin` states. */
  lemma {:induction false} JoinSeparatorCount(lines: seq<string>, sep: char)
    requires |lines| > 0
    requires SeparatorFree(lines, sep)
    ensures multiset(Join(lines, sep))[sep] == |lines| - 1
  {
    if |lines| > 1 {
      var tail := Join(lines[1..], sep);
      assert forall i :: 0 <= i < |lines[1..]| ==> lines[1..][i] == lines[i + 1];
      JoinSeparatorCount(lines[1..], sep);
      assert multiset(lines[0] + [sep] + tail) == multiset(lines[0]) + multiset([sep]) + multiset(tail);
    }
  }

  /** Joining a first line onto at least one more line. */
  lemma JoinCons(x: string, rest: seq<string>, sep: char)
    requires |rest| >= 1
    ensures Join([x] + rest, sep) == x + [sep] + Join(rest, sep)
  {
    assert ([x] + rest)[1..] == rest;
  }

  /** Gluing a character onto the first line glues it onto the joined text. */
  lemma JoinGlue(ch: char, rest: seq<string>, sep: char)
    requires |rest| >= 1
    ensures Join([[ch] + rest[0]] + rest[1..], sep) == [ch] + Join(rest, sep)
  {
    var head := [ch] + rest[0];
    if |rest| == 1 {
      assert [head] + rest[1..] == [head];
    } else {
      var tail := Join(rest[1..], sep);
      JoinCons(head, rest[1..], sep);
      JoinCons(rest[0], rest[1..], sep);
      assert [rest[0]] + rest[1..] == rest;
      assert head + [sep] + tail == [ch] + (rest[0] + [sep] + tail);
    }
  }

  /** Joining the pieces of a split gives the original text back. */
  lemma {:induction false} JoinSplit(s: string, sep: char)
    ensures Join(Split(s, sep), sep) == s
  {
    if |s| > 0 {
      var rest := Split(s[1..], sep);
      JoinSplit(s[1..], sep);
      if s[0] == sep {
        JoinCons("", rest, sep);
      } else {
        JoinGlue(s[0], rest, sep);
      }
      assert s == [s[0]] + s[1..];
    }
  }

  /** Splitting text that starts with a separator-free prefix `a`: the
      prefix is glued onto the first piece of the rest. */
  lemma {:induction false} SplitPrefix(a: string, t: string, sep: char)
    requires sep !in a
    ensures Split(a + t, sep) == [a + Split(t, sep)[0]] + Split(t, sep)[1..]
  {
    if |a| > 0 {
      SplitPrefix(a[1..], t, sep);
      assert (a + t)[1..] == a[1..] + t;
      assert (a + t)[0] == a[0];
      assert [a[0]] + (a[1..] + Split(t, sep)[0]) == a + Split(t, sep)[0];
    } else {
      assert a + t == t;
      assert a + Split(t, sep)[0] == Split(t, sep)[0];
    }
  }

  /** Splitting a separator-free head glued to `tail` by one separator:
      the head becomes its own piece, before the pieces of `tail`. */
  lemma SplitCons(head: string, tail: string, sep: char)
    requires sep !in head
    ensures Split(head + [sep] + tail, sep) == [head] + Split(tail, sep)
  {
    assert head + [sep] + tail == head + ([sep] + tail);
    SplitPrefix(head, [sep] + tail, sep);
    assert ([sep] + tail)[1..] == tail;
    assert head + "" == head;
  }

  /** Splitting joined separator-free lines gives the lines back. Together
      with `JoinSplit` this makes the two inverse on non-empty lists of
      separator-free lines. */
  lemma {:induction false} SplitJoin(lines: seq<string>, sep: char)
    requires |lines| >= 1
    requires SeparatorFree(lines, sep)
    ensures Split(Join(lines, sep), sep) == lines
  {
    if |lines| == 1 {
      SplitPrefix(lines[0], "", sep);
      assert lines[0] + "" == lines[0];
    } else {
      assert forall i :: 0 <= i < |lines[1..]| ==> lines[1..][i] == lines[i + 1];
      assert SeparatorFree(lines[1..], sep);
      SplitJoin(lines[1..], sep);
      SplitCons(lines[0], Join(lines[1..], sep), sep);
      assert lines == [lines[0]] + lines[1..];
    }
  }
}
