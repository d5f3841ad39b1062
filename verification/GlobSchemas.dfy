/**
 The schemas of globs and conflict paths, and what rewriting glob characters does to them.
 */
module GlobSchemas {
  import opened Texts
  import opened Globs

  const MAX_LENGTH := 1024

  // ----- the schemas --------------------------------------------------------------

  /** As far as `.*` runs from the start. */
  function FirstLine(s: string): string {
    if s == "" || LineTerminator(s[0]) then "" else [s[0]] + FirstLine(s[1..])
  }

  /** No segment is `.` or `..`; the expression looks no further than the first line. */
  predicate NoDotSegments(segs: seq<string>) {
    segs == [] || (segs[0] != "." && segs[0] != ".." && (Clean(segs[0]) ==> NoDotSegments(segs[1..])))
  }

  /** The length and the expression that the schemas of paths and globs have in common. */
  predicate AdmittedPath(s: string) {
    && 1 <= |s| <= MAX_LENGTH
    && (forall segment <- Split(s, '/') :: segment != "")
    && NoDotSegments(Split(s, '/'))
    && '\\' !in FirstLine(s) && '\0' !in FirstLine(s)
  }

  /** Reading on at this depth never closes what is not open, and closes everything. */
  predicate BalancedFrom(s: string, depth: nat) {
    if s == "" then depth == 0
    else if s[0] == '[' then BalancedFrom(s[1..], depth + 1)
    else if s[0] == ']' then depth > 0 && BalancedFrom(s[1..], depth - 1)
    else BalancedFrom(s[1..], depth)
  }

  predicate Balanced(s: string) {
    BalancedFrom(s, 0)
  }

  predicate AdmittedGlob(s: string) {
    AdmittedPath(s) && Balanced(s)
  }

  /** The refinement of `generatedFileGlobSchema`. */
  method CheckBalanced(value: string) returns (balanced: bool)
    ensures balanced == Balanced(value)
  {
    var depth: nat := 0;
    assert value[0..] == value;
    for i := 0 to |value|
      invariant BalancedFrom(value[i..], depth) == Balanced(value)
    {
      assert value[i..][1..] == value[i + 1..];
      if value[i] == '[' { depth := depth + 1; }
      if value[i] == ']' {
        if depth == 0 { return false; }
        depth := depth - 1;
      }
    }
    balanced := depth == 0;
  }

  lemma {:induction false} FirstLineIsFront(s: string)
    ensures forall c <- FirstLine(s) :: c in s
  {
    if s != "" { FirstLineIsFront(s[1..]); }
  }

  lemma {:induction false} NoDots(segs: seq<string>)
    requires forall segment <- segs :: '.' !in segment
    ensures NoDotSegments(segs)
  {
    if segs != [] {
      assert segs[0] in segs && '.' in "." && '.' in "..";
      NoDots(segs[1..]);
    }
  }

  /** Paths with nothing out of the ordinary are admitted. */
  lemma {:induction false} SimplePath(s: string)
    requires 1 <= |s| <= MAX_LENGTH && '\\' !in s && '\0' !in s
    requires forall segment <- Split(s, '/') :: segment != "" && '.' !in segment
    ensures AdmittedPath(s)
  {
    FirstLineIsFront(s);
    NoDots(Split(s, '/'));
  }

  // ----- rewriting glob characters --------------------------------------------------

  predicate Special(c: char) {
    c == '?' || c == '*' || c == '[' || c == ']'
  }

  /** No character of the text means anything in a glob. */
  predicate Plain(s: string) {
    forall c <- s :: !Special(c)
  }

  function Rewrite(s: string, f: char -> string): string {
    if s == "" then "" else f(s[0]) + Rewrite(s[1..], f)
  }

  function RewriteEach(segs: seq<string>, f: char -> string): (r: seq<string>)
    ensures |r| == |segs|
  {
    seq(|segs|, i requires 0 <= i < |segs| => Rewrite(segs[i], f))
  }

  /** Characters that the schema of paths looks for. */
  predicate Structural(c: char) {
    c == '/' || c == '\\' || c == '\0' || LineTerminator(c)
  }

  predicate Unstructured(s: string) {
    forall c <- s :: !Structural(c)
  }

  /** A glob character becomes text with a glob character and without structure; any other stays. */
  predicate Replaces(c: char, x: string) {
    if Special(c) then !Plain(x) && Unstructured(x) else x == [c]
  }

  ghost predicate Benign(f: char -> string) {
    forall c :: Replaces(c, f(c))
  }

  lemma {:induction false} RewriteConcat(a: string, b: string, f: char -> string)
    ensures Rewrite(a + b, f) == Rewrite(a, f) + Rewrite(b, f)
  {
    if a == "" {
      assert a + b == b;
    } else {
      var head, tail := f(a[0]), Rewrite(a[1..], f);
      RewriteConcat(a[1..], b, f);
      assert (a + b)[1..] == a[1..] + b;
      assert head + (tail + Rewrite(b, f)) == (head + tail) + Rewrite(b, f);
    }
  }

  lemma {:induction false} OneReplaced(c: char, x: string)
    requires Replaces(c, x)
    ensures x != "" && (Plain(x) <==> !Special(c))
    ensures forall d | Structural(d) :: d in x <==> d == c
  {
    assert Special(c) ==> !Structural(c);
    if !Special(c) { assert x[0] == c; }
  }

  lemma {:induction false} PlainConcat(a: string, b: string)
    ensures Plain(a + b) <==> Plain(a) && Plain(b)
  {
    assert forall c <- a :: c in a + b;
    assert forall c <- b :: c in a + b;
  }

  /** Structural characters are in the one exactly when they are in the other. */
  lemma {:induction false} RewriteKeeps(s: string, f: char -> string)
    requires Benign(f)
    ensures forall c | Structural(c) :: c in Rewrite(s, f) <==> c in s
    ensures Rewrite(s, f) == "" <==> s == ""
    ensures Clean(Rewrite(s, f)) <==> Clean(s)
  {
    hide Structural, Replaces;
    if s != "" {
      var x := f(s[0]);
      assert Replaces(s[0], x);
      OneReplaced(s[0], x);
      RewriteKeeps(s[1..], f);
      assert s == [s[0]] + s[1..];
    }
    CleanAlike(Rewrite(s, f), s);
  }

  lemma {:induction false} CleanAlike(a: string, b: string)
    requires forall c | Structural(c) :: c in a <==> c in b
    ensures Clean(a) <==> Clean(b)
  {
    assert forall c | LineTerminator(c) :: Structural(c);
  }

  lemma {:induction false} RewritePlain(s: string, f: char -> string)
    requires Benign(f)
    ensures Plain(Rewrite(s, f)) <==> Plain(s)
    ensures Plain(s) ==> Rewrite(s, f) == s
  {
    hide Replaces, Structural;
    if s != "" {
      var x := f(s[0]);
      assert Replaces(s[0], x);
      OneReplaced(s[0], x);
      RewritePlain(s[1..], f);
      PlainConcat(x, Rewrite(s[1..], f));
      PlainConcat([s[0]], s[1..]);
      assert s == [s[0]] + s[1..] && [s[0]][0] == s[0];
      if Plain(s) { StaysAsItIs(s[0], x); }
    }
  }

  lemma {:induction false} StaysAsItIs(c: char, x: string)
    requires Replaces(c, x) && !Special(c)
    ensures x == [c]
  {
  }

  lemma {:induction false} RewriteJoin(segs: seq<string>, f: char -> string)
    requires |segs| >= 1 && Benign(f)
    ensures Rewrite(Join(segs, '/'), f) == Join(RewriteEach(segs, f), '/')
  {
    hide Rewrite, Benign;
    if |segs| > 1 {
      var rest := Join(segs[1..], '/');
      RewriteJoin(segs[1..], f);
      RewriteConcat(segs[0] + "/", rest, f);
      RewriteConcat(segs[0], "/", f);
      RewritePlain("/", f);
      assert RewriteEach(segs, f)[1..] == RewriteEach(segs[1..], f);
    }
  }

  /** Rewriting a path rewrites its segments. */
  lemma {:induction false} RewriteSplit(path: string, f: char -> string)
    requires Benign(f)
    ensures Split(Rewrite(path, f), '/') == RewriteEach(Split(path, '/'), f)
  {
    hide Rewrite, Benign;
    var segs := Split(path, '/');
    RewriteJoin(segs, f);
    forall seg | seg in RewriteEach(segs, f) ensures '/' !in seg {
      var i :| 0 <= i < |segs| && seg == Rewrite(segs[i], f);
      RewriteKeeps(segs[i], f);
    }
    SplitJoin(RewriteEach(segs, f), '/');
  }

  lemma {:induction false} FirstLineConcat(a: string, b: string)
    requires forall c <- a :: !LineTerminator(c)
    ensures FirstLine(a + b) == a + FirstLine(b)
  {
    hide LineTerminator;
    if a == "" {
      assert a + b == b;
    } else {
      var head, tail := [a[0]], a[1..];
      assert a[0] in a && forall c <- tail :: c in a;
      FirstLineConcat(tail, b);
      assert (a + b)[1..] == tail + b && (a + b)[0] == a[0];
      assert head + (tail + FirstLine(b)) == (head + tail) + FirstLine(b) && head + tail == a;
    }
  }

  lemma {:induction false} RewriteFirstLine(s: string, f: char -> string)
    requires Benign(f)
    ensures FirstLine(Rewrite(s, f)) == Rewrite(FirstLine(s), f)
  {
    if s != "" {
      var x := f(s[0]);
      assert Replaces(s[0], x);
      RewriteFirstLine(s[1..], f);
      hide Benign;
      if LineTerminator(s[0]) {
        StaysAsItIs(s[0], x);
      } else {
        OneReplaced(s[0], x);
        assert forall d | LineTerminator(d) :: Structural(d);
        FirstLineConcat(x, Rewrite(s[1..], f));
      }
    }
  }

  lemma {:induction false} RewriteDots(segs: seq<string>, f: char -> string)
    requires Benign(f)
    ensures NoDotSegments(RewriteEach(segs, f)) <==> NoDotSegments(segs)
  {
    hide Rewrite, Benign;
    if segs != [] {
      var head := segs[0];
      RewriteDots(segs[1..], f);
      assert RewriteEach(segs, f)[1..] == RewriteEach(segs[1..], f) && RewriteEach(segs, f)[0] == Rewrite(head, f);
      RewriteKeeps(head, f);
      RewritePlain(head, f);
      assert Plain(".") && Plain("..");
    }
  }

  lemma {:induction false} RewriteNotEmpty(segs: seq<string>, f: char -> string)
    requires Benign(f) && forall seg <- segs :: seg != ""
    ensures forall seg <- RewriteEach(segs, f) :: seg != ""
  {
    hide Rewrite, Benign;
    forall seg | seg in RewriteEach(segs, f) ensures seg != "" {
      var i :| 0 <= i < |segs| && seg == Rewrite(segs[i], f);
      assert segs[i] in segs;
      RewriteKeeps(segs[i], f);
    }
  }

  /** A path whose glob characters are rewritten is still one, if it is not too long. */
  lemma {:induction false} RewriteIsAdmitted(path: string, f: char -> string)
    requires Benign(f) && AdmittedPath(path)
    ensures AdmittedPath(Rewrite(path, f)) <==> |Rewrite(path, f)| <= MAX_LENGTH
  {
    hide Rewrite, Benign, FirstLine, NoDotSegments, Split;
    var segs := Split(path, '/');
    RewriteKeeps(path, f);
    RewriteSplit(path, f);
    RewriteDots(segs, f);
    RewriteNotEmpty(segs, f);
    RewriteFirstLine(path, f);
    RewriteKeeps(FirstLine(path), f);
    assert Structural('\\') && Structural('\0');
  }
}
