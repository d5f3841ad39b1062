/**
 The string operations the modelled code leans on: `split`, `join`, `indexOf`.
 A character is a Unicode scalar value: one UTF-16 code unit below U+10000.
 */
module Texts {

  /** JavaScript's `s.split(sep)` for a one-character separator: never empty. */
  function Split(s: string, sep: char): (parts: seq<string>)
    ensures |parts| >= 1
    ensures forall part <- parts :: sep !in part
    ensures Join(parts, sep) == s
  {
    if s == "" then [""]
    else if s[0] == sep then
      var rest := Split(s[1..], sep);
      assert ([""] + rest)[1..] == rest;
      [""] + rest
    else
      var rest := Split(s[1..], sep);
      var parts := [[s[0]] + rest[0]] + rest[1..];
      assert parts[1..] == rest[1..];
      parts
  }

  function Join(parts: seq<string>, sep: char): string
    requires |parts| >= 1
  {
    if |parts| == 1 then parts[0] else parts[0] + [sep] + Join(parts[1..], sep)
  }

  /** Splitting undoes joining: separator-free parts are recovered exactly. */
  lemma {:induction false} SplitJoin(parts: seq<string>, sep: char)
    requires |parts| >= 1 && forall part <- parts :: sep !in part
    ensures Split(Join(parts, sep), sep) == parts
    decreases |parts|, |parts[0]|
  {
    var head, s := parts[0], Join(parts, sep);
    if head != "" {
      var shorter := [head[1..]] + parts[1..];
      assert head in parts && sep !in head && sep !in head[1..];
      assert forall part <- shorter :: part == head[1..] || part in parts;
      assert shorter[1..] == parts[1..] && s[1..] == Join(shorter, sep);
      SplitJoin(shorter, sep);
      assert s[0] == head[0] && [head[0]] + head[1..] == head;
    } else if |parts| > 1 {
      assert s[1..] == Join(parts[1..], sep);
      SplitJoin(parts[1..], sep);
    }
  }

  /** `s.indexOf(c, from)`, with `|s|` standing for the missing answer. */
  function IndexOf(s: string, c: char, from: nat): (i: nat)
    requires from <= |s|
    ensures from <= i <= |s|
    ensures c !in s[from..i]
    ensures i < |s| ==> s[i] == c
    decreases |s| - from
  {
    if from == |s| || s[from] == c then from else IndexOf(s, c, from + 1)
  }
}
