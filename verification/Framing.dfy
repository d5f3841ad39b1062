/**
 Cutting a text stream into LF-terminated lines, however it arrives.
 */
module Framing {
  import opened Texts

  /** `line.replace(/\r$/, "")`: one trailing CR is dropped. */
  function WithoutCR(line: string): string {
    if line != "" && line[|line| - 1] == '\r' then line[..|line| - 1] else line
  }

  function WithoutCRs(lines: seq<string>): (r: seq<string>)
    ensures |r| == |lines|
    ensures forall i | 0 <= i < |lines| :: r[i] == WithoutCR(lines[i])
  {
    seq(|lines|, i requires 0 <= i < |lines| => WithoutCR(lines[i]))
  }

  /** The complete lines of a stream, each less one trailing CR. */
  function Lines(stream: string): seq<string> {
    var parts := Split(stream, '\n');
    WithoutCRs(parts[..|parts| - 1])
  }

  /** What follows the last LF. */
  function Remainder(stream: string): string {
    var parts := Split(stream, '\n');
    parts[|parts| - 1]
  }

  lemma {:induction false} SplitAt(text: string, at: nat, sep: char)
    requires at < |text| && text[at] == sep && sep !in text[..at]
    ensures Split(text, sep) == [text[..at]] + Split(text[at + 1..], sep)
  {
    if at > 0 {
      assert text[0] == text[..at][0];
      assert text[1..][..at - 1] == text[..at][1..] && text[1..][at..] == text[at + 1..];
      SplitAt(text[1..], at - 1, sep);
      assert text[..at] == [text[0]] + text[1..at];
    }
  }

  lemma {:induction false} SplitConcat(a: string, b: string, sep: char)
    ensures var parts := Split(a, sep);
            Split(a + b, sep) == parts[..|parts| - 1] + Split(parts[|parts| - 1] + b, sep)
  {
    hide Split, IndexOf;
    var at := IndexOf(a, sep, 0);
    assert a[0..at] == a[..at];
    if at == |a| {
      SplitJoin([a], sep);
      assert [a][..0] == [];
    } else {
      var rest := a[at + 1..];
      assert (a + b)[..at] == a[..at] && (a + b)[at + 1..] == rest + b;
      SplitAt(a, at, sep);
      SplitAt(a + b, at, sep);
      SplitConcat(rest, b, sep);
      var parts := Split(rest, sep);
      assert ([a[..at]] + parts)[..|parts|] == [a[..at]] + parts[..|parts| - 1];
    }
  }

  /** More text after a stream: the old lines stay, and only the remainder is cut again. */
  lemma {:induction false} LinesConcat(stream: string, more: string)
    ensures Lines(stream + more) == Lines(stream) + Lines(Remainder(stream) + more)
    ensures Remainder(stream + more) == Remainder(Remainder(stream) + more)
  {
    hide Split;
    SplitConcat(stream, more, '\n');
  }

  /** The first line of a text with a LF in it, and what is left. */
  lemma {:induction false} FirstLine(text: string, at: nat)
    requires at < |text| && text[at] == '\n' && '\n' !in text[..at]
    ensures Lines(text) == [WithoutCR(text[..at])] + Lines(text[at + 1..])
    ensures Remainder(text) == Remainder(text[at + 1..])
  {
    hide Split;
    var parts := Split(text[at + 1..], '\n');
    SplitAt(text, at, '\n');
    assert ([text[..at]] + parts)[..|parts|] == [text[..at]] + parts[..|parts| - 1];
  }

  lemma {:induction false} NoLine(text: string)
    requires '\n' !in text
    ensures Lines(text) == [] && Remainder(text) == text
  {
    hide Split;
    SplitJoin([text], '\n');
  }

  /** Each line ended with a LF. */
  function Terminated(raw: seq<string>): string {
    if raw == [] then "" else raw[0] + "\n" + Terminated(raw[1..])
  }

  /** A line as it was sent: with a CR before its LF, or without one. */
  predicate SentAs(line: string, raw: string) {
    raw == line + "\r" || (raw == line && (raw == "" || raw[|raw| - 1] != '\r'))
  }

  /** What was sent as lines, each ended with a LF, and an unfinished rest is received so. */
  lemma {:induction false} LinesAreReceived(raw: seq<string>, rest: string)
    requires '\n' !in rest && forall i | 0 <= i < |raw| :: '\n' !in raw[i]
    ensures var stream := Terminated(raw) + rest;
            && |Lines(stream)| == |raw| && Remainder(stream) == rest
            && forall i | 0 <= i < |raw| :: SentAs(Lines(stream)[i], raw[i])
  {
    var stream := Terminated(raw) + rest;
    hide Split, Lines, Remainder;
    if raw == [] {
      assert stream == rest;
      NoLine(rest);
    } else {
      var more := Terminated(raw[1..]) + rest;
      assert stream == raw[0] + "\n" + more;
      assert stream[|raw[0]|] == '\n' && stream[..|raw[0]|] == raw[0] && stream[|raw[0]| + 1..] == more;
      FirstLine(stream, |raw[0]|);
      LinesAreReceived(raw[1..], rest);
      assert SentAs(WithoutCR(raw[0]), raw[0]);
      assert forall i | 0 < i < |raw| :: Lines(stream)[i] == Lines(more)[i - 1] && raw[i] == raw[1..][i - 1];
    }
  }
}
