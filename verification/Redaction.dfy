/**
 Redaction of secrets: every configured secret is replaced by a marker, longest first.
 */
module Redaction {
  import opened Bindings

  const REPLAY_MARKER := "***"
  const RECORDING_MARKER := "[REDACTED]"

  /** `s.split(sep)` for a separator of any length. */
  function SplitBy(s: string, sep: string): (parts: seq<string>)
    requires sep != ""
    ensures |parts| > 0
  {
    if |s| < |sep| then [s]
    else if s[..|sep|] == sep then [""] + SplitBy(s[|sep|..], sep)
    else var rest := SplitBy(s[1..], sep); [[s[0]] + rest[0]] + rest[1..]
  }

  function JoinBy(parts: seq<string>, marker: string): string
    requires |parts| > 0
  {
    if |parts| == 1 then parts[0] else parts[0] + marker + JoinBy(parts[1..], marker)
  }

  function Replace(s: string, secret: string, marker: string): string
    requires secret != ""
  {
    JoinBy(SplitBy(s, secret), marker)
  }

  /** The distinct ones of the secrets that are long enough, in their order. */
  function Kept(secrets: seq<string>, minimum: nat): seq<string> {
    if secrets == [] then []
    else
      var before, last := Kept(secrets[..|secrets| - 1], minimum), secrets[|secrets| - 1];
      if |last| < minimum || last in before then before else before + [last]
  }

  /** A stable sort, longest first. */
  function Insert(secret: string, sorted: seq<string>): seq<string> {
    if sorted == [] || |sorted[0]| < |secret| then [secret] + sorted else [sorted[0]] + Insert(secret, sorted[1..])
  }

  function LongestFirst(secrets: seq<string>): seq<string> {
    if secrets == [] then [] else Insert(secrets[|secrets| - 1], LongestFirst(secrets[..|secrets| - 1]))
  }

  function ReplaceAll(s: string, secrets: seq<string>, marker: string): string {
    if secrets == [] then s
    else
      var last := secrets[|secrets| - 1];
      var before := ReplaceAll(s, secrets[..|secrets| - 1], marker);
      if last == "" then before else Replace(before, last, marker)
  }

  function RedactText(s: string, secrets: seq<string>, minimum: nat, marker: string): string {
    ReplaceAll(s, LongestFirst(Kept(secrets, minimum)), marker)
  }

  function RedactReplayOutput(s: string, secrets: seq<string>): string {
    RedactText(s, secrets, 4, REPLAY_MARKER)
  }

  /** `redactValue` of a recording: every text is redacted, the names of fields are not. */
  function RedactValue(v: Value, secrets: seq<string>): Value {
    match v
    case Text(text) => Text(RedactText(text, secrets, 1, RECORDING_MARKER))
    case List(items) => List(seq(|items|, i requires 0 <= i < |items| => RedactValue(items[i], secrets)))
    case Object(fields) =>
      Object(seq(|fields|, i requires 0 <= i < |fields| => (fields[i].0, RedactValue(fields[i].1, secrets))))
    case Atom(_) => v
  }

  // ----- one secret -----------------------------------------------------------

  ghost predicate OccursAt(secret: string, s: string, i: nat) {
    i + |secret| <= |s| && s[i..i + |secret|] == secret
  }

  ghost predicate Occurs(secret: string, s: string) {
    exists i: nat :: OccursAt(secret, s, i)
  }

  /** Laid over the marker at distance `d`, the secret agrees with it wherever the two overlap. */
  predicate Fits(secret: string, marker: string, d: int) {
    forall i | 0 <= i < |secret| && 0 <= d + i < |marker| :: secret[i] == marker[d + i]
  }

  /** No overlapping position of the secret agrees with the marker. */
  predicate FitsNowhere(secret: string, marker: string) {
    forall d | -|secret| < d < |marker| :: !Fits(secret, marker, d)
  }

  /** Splitting and joining, one step at a time. */
  lemma {:induction false} ReplaceStep(s: string, secret: string, marker: string)
    requires secret != ""
    ensures Replace(s, secret, marker) ==
            if |s| < |secret| then s
            else if s[..|secret|] == secret then marker + Replace(s[|secret|..], secret, marker)
            else [s[0]] + Replace(s[1..], secret, marker)
  {
    if |s| >= |secret| {
      if s[..|secret|] == secret {
        var rest := SplitBy(s[|secret|..], secret);
        assert ([""] + rest)[1..] == rest;
        assert "" + marker == marker;
      } else {
        var rest := SplitBy(s[1..], secret);
        var parts := [[s[0]] + rest[0]] + rest[1..];
        assert parts[1..] == rest[1..];
        if |rest| > 1 {
          assert [s[0]] + (rest[0] + marker + JoinBy(rest[1..], marker)) == ([s[0]] + rest[0]) + marker + JoinBy(rest[1..], marker);
        }
      }
    }
  }

  lemma {:induction false} OccursLater(y: string, a: string, b: string)
    requires Occurs(y, b)
    ensures Occurs(y, a + b)
  {
    var i: nat :| OccursAt(y, b, i);
    assert (a + b)[|a| + i..|a| + i + |y|] == b[i..i + |y|];
    assert OccursAt(y, a + b, |a| + i);
  }

  lemma {:induction false} OccursInTail(y: string, a: string, b: string, i: nat)
    requires OccursAt(y, a + b, i) && |a| <= i
    ensures Occurs(y, b)
  {
    assert (a + b)[i..i + |y|] == b[i - |a|..i - |a| + |y|];
    assert OccursAt(y, b, i - |a|);
  }

  /** The rest of a secret that fits nowhere, at the start of a replaced text, was there before. */
  lemma {:induction false} BeginsAlike(s: string, x: string, marker: string, y: string, k: nat)
    requires x != "" && marker != "" && FitsNowhere(y, marker) && k <= |y| && y[k..] <= Replace(s, x, marker)
    ensures y[k..] <= s
    decreases |s|
  {
    hide SplitBy, JoinBy, Replace, FitsNowhere;
    ReplaceStep(s, x, marker);
    if k < |y| && |s| >= |x| {
      var cut := if s[..|x|] == x then |x| else 1;
      var front, rest := if s[..|x|] == x then marker else [s[0]], Replace(s[cut..], x, marker);
      if s[..|x|] == x {
        StartsInMarker(y, marker, rest, k);
      } else {
        assert y[k..][1..] == y[k + 1..] && ([s[0]] + rest)[1..] == rest;
        BeginsAlike(s[1..], x, marker, y, k + 1);
        assert [s[0]] + s[1..] == s && [y[k]] + y[k + 1..] == y[k..];
      }
    }
  }

  lemma {:induction false} StartsInMarker(y: string, marker: string, rest: string, k: nat)
    requires marker != "" && k < |y| && FitsNowhere(y, marker)
    ensures !(y[k..] <= marker + rest)
  {
    if y[k..] <= marker + rest {
      var d := -(k as int);
      forall i | 0 <= i < |y| && 0 <= d + i < |marker| ensures y[i] == marker[d + i] {
        assert y[i] == y[k..][i - k] == (marker + rest)[i - k];
      }
      assert Fits(y, marker, d);
      assert false;
    }
  }

  lemma {:induction false} PastMarker(y: string, marker: string, rest: string, i: nat)
    requires y != "" && FitsNowhere(y, marker) && OccursAt(y, marker + rest, i)
    ensures |marker| <= i
  {
    var out := marker + rest;
    forall j | 0 <= j < |y| && 0 <= i + j < |marker| ensures y[j] == marker[i + j] {
      assert y[j] == out[i..i + |y|][j] == out[i + j];
    }
    assert Fits(y, marker, i);
  }

  /** Replacing one secret creates no other that fits nowhere on the marker. */
  lemma {:induction false} CreatesNone(s: string, x: string, marker: string, y: string)
    requires x != "" && y != "" && marker != "" && FitsNowhere(y, marker)
    requires Occurs(y, Replace(s, x, marker))
    ensures Occurs(y, s)
    decreases |s|
  {
    hide SplitBy, JoinBy, Replace, FitsNowhere;
    var out := Replace(s, x, marker);
    var i: nat :| OccursAt(y, out, i);
    ReplaceStep(s, x, marker);
    if |s| >= |x| {
      if s[..|x|] == x {
        var rest := Replace(s[|x|..], x, marker);
        PastMarker(y, marker, rest, i);
        OccursInTail(y, marker, rest, i);
        CreatesNone(s[|x|..], x, marker, y);
        OccursLater(y, s[..|x|], s[|x|..]);
        assert s[..|x|] + s[|x|..] == s;
      } else if i > 0 {
        OccursInTail(y, [s[0]], Replace(s[1..], x, marker), i);
        CreatesNone(s[1..], x, marker, y);
        OccursLater(y, [s[0]], s[1..]);
        assert [s[0]] + s[1..] == s;
      } else {
        assert y[0..] == y && y <= out;
        BeginsAlike(s, x, marker, y, 0);
        assert OccursAt(y, s, 0);
      }
    }
  }

  /** A secret that fits nowhere on the marker does not survive its own replacement. */
  lemma {:induction false} RemovesIt(s: string, x: string, marker: string)
    requires x != "" && marker != "" && FitsNowhere(x, marker)
    ensures !Occurs(x, Replace(s, x, marker))
    decreases |s|
  {
    hide SplitBy, JoinBy, Replace, FitsNowhere;
    var out := Replace(s, x, marker);
    ReplaceStep(s, x, marker);
    if |s| >= |x| {
      var cut := if s[..|x|] == x then |x| else 1;
      RemovesIt(s[cut..], x, marker);
      forall i: nat ensures !OccursAt(x, out, i) {
        NotAt(s, x, marker, i);
      }
    }
  }

  lemma {:induction false} NotAt(s: string, x: string, marker: string, i: nat)
    requires x != "" && marker != "" && FitsNowhere(x, marker) && |s| >= |x|
    requires !Occurs(x, Replace(s[if s[..|x|] == x then |x| else 1..], x, marker))
    ensures !OccursAt(x, Replace(s, x, marker), i)
  {
    hide SplitBy, JoinBy, Replace, FitsNowhere;
    var out := Replace(s, x, marker);
    ReplaceStep(s, x, marker);
    if OccursAt(x, out, i) {
      if s[..|x|] == x {
        PastMarker(x, marker, Replace(s[|x|..], x, marker), i);
        OccursInTail(x, marker, Replace(s[|x|..], x, marker), i);
      } else if i > 0 {
        OccursInTail(x, [s[0]], Replace(s[1..], x, marker), i);
      } else {
        assert x[0..] == x && x <= out;
        BeginsAlike(s, x, marker, x, 0);
      }
      assert false;
    }
  }

  /** Text without the secret stays as it is. */
  lemma {:induction false} LeavesAlone(s: string, x: string, marker: string)
    requires x != "" && !Occurs(x, s)
    ensures Replace(s, x, marker) == s
    decreases |s|
  {
    hide SplitBy, JoinBy, Replace;
    ReplaceStep(s, x, marker);
    if |s| >= |x| {
      assert !OccursAt(x, s, 0);
      assert [s[0]] + s[1..] == s;
      if Occurs(x, s[1..]) { OccursLater(x, [s[0]], s[1..]); }
      LeavesAlone(s[1..], x, marker);
    }
  }

  // ----- all secrets ------------------------------------------------------------

  lemma {:induction false} KeptAre(secrets: seq<string>, minimum: nat)
    ensures forall x :: x in Kept(secrets, minimum) <==> x in secrets && |x| >= minimum
  {
    if secrets != [] {
      KeptAre(secrets[..|secrets| - 1], minimum);
      assert secrets == secrets[..|secrets| - 1] + [secrets[|secrets| - 1]];
    }
  }

  ghost predicate Descending(secrets: seq<string>) {
    forall i, j | 0 <= i < j < |secrets| :: |secrets[i]| >= |secrets[j]|
  }

  lemma {:induction false} InsertKeeps(secret: string, sorted: seq<string>)
    ensures multiset(Insert(secret, sorted)) == multiset(sorted) + multiset{secret}
  {
    if sorted != [] && |sorted[0]| >= |secret| {
      assert sorted == [sorted[0]] + sorted[1..];
      InsertKeeps(secret, sorted[1..]);
    }
  }

  lemma {:induction false} InsertSorts(secret: string, sorted: seq<string>)
    requires Descending(sorted)
    ensures Descending(Insert(secret, sorted))
  {
    if sorted != [] && |sorted[0]| >= |secret| {
      assert forall i | 0 <= i < |sorted[1..]| :: sorted[1..][i] == sorted[i + 1];
      InsertSorts(secret, sorted[1..]);
      InsertKeeps(secret, sorted[1..]);
      var after := Insert(secret, sorted[1..]);
      forall i | 0 <= i < |after| ensures |sorted[0]| >= |after[i]| {
        assert after[i] in multiset(after);
        assert after[i] == secret || after[i] in sorted[1..];
      }
    }
  }

  /** The secrets are replaced longest first, none left out and none twice. */
  lemma {:induction false} SortsAll(secrets: seq<string>)
    ensures Descending(LongestFirst(secrets)) && multiset(LongestFirst(secrets)) == multiset(secrets)
  {
    if secrets != [] {
      SortsAll(secrets[..|secrets| - 1]);
      InsertKeeps(secrets[|secrets| - 1], LongestFirst(secrets[..|secrets| - 1]));
      InsertSorts(secrets[|secrets| - 1], LongestFirst(secrets[..|secrets| - 1]));
      assert secrets == secrets[..|secrets| - 1] + [secrets[|secrets| - 1]];
    }
  }

  lemma {:induction false} SortedAreKept(secrets: seq<string>, minimum: nat, x: string)
    ensures x in LongestFirst(Kept(secrets, minimum)) <==> x in secrets && |x| >= minimum
  {
    KeptAre(secrets, minimum);
    SortsAll(Kept(secrets, minimum));
    assert x in multiset(LongestFirst(Kept(secrets, minimum))) <==> x in multiset(Kept(secrets, minimum));
  }

  lemma {:induction false} AllRemoved(s: string, secrets: seq<string>, marker: string, y: string)
    requires marker != "" && y != "" && FitsNowhere(y, marker)
    ensures y in secrets ==> !Occurs(y, ReplaceAll(s, secrets, marker))
    ensures Occurs(y, ReplaceAll(s, secrets, marker)) ==> Occurs(y, s)
  {
    hide Replace;
    if secrets != [] {
      var rest, last := secrets[..|secrets| - 1], secrets[|secrets| - 1];
      var before := ReplaceAll(s, rest, marker);
      assert secrets == rest + [last];
      AllRemoved(s, rest, marker, y);
      if last != "" {
        if Occurs(y, Replace(before, last, marker)) { CreatesNone(before, last, marker, y); }
        if y == last { RemovesIt(before, y, marker); }
      }
    }
  }

  lemma {:induction false} NothingToReplace(s: string, secrets: seq<string>, marker: string)
    requires forall x <- secrets :: x != "" ==> !Occurs(x, s)
    ensures ReplaceAll(s, secrets, marker) == s
  {
    hide Replace;
    if secrets != [] {
      var rest, last := secrets[..|secrets| - 1], secrets[|secrets| - 1];
      assert secrets == rest + [last];
      NothingToReplace(s, rest, marker);
      if last != "" { LeavesAlone(s, last, marker); }
    }
  }

  /**
   No secret that is long enough and fits nowhere on the marker is left in redacted text,
   whatever the other secrets are; nor is any text created that was not there.
   */
  lemma {:induction false} RedactionIsComplete(s: string, secrets: seq<string>, minimum: nat, marker: string, y: string)
    requires marker != "" && y != "" && FitsNowhere(y, marker)
    ensures y in secrets && |y| >= minimum ==> !Occurs(y, RedactText(s, secrets, minimum, marker))
    ensures Occurs(y, RedactText(s, secrets, minimum, marker)) ==> Occurs(y, s)
  {
    SortedAreKept(secrets, minimum, y);
    AllRemoved(s, LongestFirst(Kept(secrets, minimum)), marker, y);
  }

  /** Text with none of the secrets is unchanged. */
  lemma {:induction false} CleanTextIsUnchanged(s: string, secrets: seq<string>, minimum: nat, marker: string)
    requires minimum > 0 && forall x <- secrets :: |x| >= minimum ==> !Occurs(x, s)
    ensures RedactText(s, secrets, minimum, marker) == s
  {
    hide ReplaceAll;
    forall x | x in LongestFirst(Kept(secrets, minimum)) ensures !Occurs(x, s) {
      SortedAreKept(secrets, minimum, x);
    }
    NothingToReplace(s, LongestFirst(Kept(secrets, minimum)), marker);
  }

  /** No text of the value contains the secret. */
  ghost predicate TextsLack(v: Value, y: string) {
    match v
    case Text(text) => !Occurs(y, text)
    case List(items) => forall i | 0 <= i < |items| :: TextsLack(items[i], y)
    case Object(fields) => forall i | 0 <= i < |fields| :: TextsLack(fields[i].1, y)
    case Atom(_) => true
  }

  /** No text anywhere in a recorded value keeps a secret that fits nowhere on its marker. */
  lemma {:induction false} ValuesAreRedacted(v: Value, secrets: seq<string>, y: string)
    requires y in secrets && y != "" && FitsNowhere(y, RECORDING_MARKER)
    ensures TextsLack(RedactValue(v, secrets), y)
  {
    hide RedactText, Occurs;
    match v
    case Text(text) => RedactionIsComplete(text, secrets, 1, RECORDING_MARKER, y);
    case List(items) =>
      forall i | 0 <= i < |items| ensures TextsLack(RedactValue(items[i], secrets), y) {
        ValuesAreRedacted(items[i], secrets, y);
      }
    case Object(fields) =>
      forall i | 0 <= i < |fields| ensures TextsLack(RedactValue(fields[i].1, secrets), y) {
        ValuesAreRedacted(fields[i].1, secrets, y);
      }
    case Atom(_) =>
  }

  // ----- a secret that fits somewhere --------------------------------------------------

  function Repeated(f: char, n: nat): string {
    seq(n, _ => f)
  }

  lemma {:induction false} RunIsNot(f: char, n: nat, t: string)
    requires n > 0 && f !in t
    ensures |Repeated(f, n)| == n && Repeated(f, n)[0] == f && !Occurs(Repeated(f, n), t)
  {
    assert forall i: nat | OccursAt(Repeated(f, n), t, i) :: t[i] == Repeated(f, n)[0];
  }

  /** A run of a character that occurs nowhere else is replaced, and nothing else is. */
  lemma {:induction false} ReplacesRun(p: string, f: char, n: nat, t: string, marker: string)
    requires n > 0 && f !in p && f !in t
    ensures Replace(p + Repeated(f, n) + t, Repeated(f, n), marker) == p + marker + t
    decreases |p|
  {
    hide SplitBy, JoinBy, Replace, Repeated, Occurs;
    var x := Repeated(f, n);
    var s := p + x + t;
    RunIsNot(f, n, t);
    ReplaceStep(s, x, marker);
    if p == "" {
      assert s[..n] == x && s[n..] == t && p + marker + t == marker + t;
      LeavesAlone(t, x, marker);
    } else {
      assert s[0] == p[0] != f && s[..n][0] == s[0];
      assert s[1..] == p[1..] + x + t;
      ReplacesRun(p[1..], f, n, t, marker);
      assert [p[0]] + (p[1..] + marker + t) == p + marker + t;
    }
  }

  /** The parts of a secret before and after the marker it is laid over. */
  function Before(y: string, d: int): string
    requires -|y| < d
  {
    if d < 0 then y[..-d] else ""
  }

  function After(y: string, marker: string, d: int): string
    requires d < |marker|
  {
    if |marker| - d < |y| then y[|marker| - d..] else ""
  }

  lemma {:induction false} LaidOverOccurs(y: string, marker: string, d: int)
    requires -|y| < d < |marker| && Fits(y, marker, d)
    ensures Occurs(y, Before(y, d) + marker + After(y, marker, d))
  {
    var out, at := Before(y, d) + marker + After(y, marker, d), if d < 0 then 0 else d;
    assert out[at..at + |y|] == y;
    assert OccursAt(y, out, at);
  }

  lemma {:induction false} RunHidesIt(y: string, f: char, p: string, t: string)
    requires f !in y && |p| < |y| && |t| < |y|
    ensures !Occurs(y, p + Repeated(f, |y|) + t)
  {
    var s := p + Repeated(f, |y|) + t;
    forall i: nat ensures !OccursAt(y, s, i) {
      if i + |y| <= |s| {
        var j := if i < |p| then |p| else i;
        assert s[i..i + |y|][j - i] == s[j] == f;
        assert y[j - i] in y;
      }
    }
  }

  lemma {:induction false} KeptOfTwo(y: string, x: string, minimum: nat)
    requires y != x && |y| == |x| >= minimum
    ensures LongestFirst(Kept([y, x], minimum)) == [y, x]
  {
    assert [y, x][..1] == [y] && [y][..0] == [];
    assert Kept([], minimum) == [];
    assert Kept([y], minimum) == [y];
    assert Kept([y, x], minimum) == [y, x];
    assert LongestFirst([]) == [];
    assert LongestFirst([y]) == Insert(y, []) == [y];
    assert LongestFirst([y, x]) == Insert(x, [y]);
    assert [y][1..] == [] && Insert(x, []) == [x];
  }

  lemma {:induction false} TwoSecrets(s: string, y: string, x: string, minimum: nat, marker: string)
    requires y != x && |y| == |x| >= minimum && y != ""
    ensures RedactText(s, [y, x], minimum, marker) == Replace(Replace(s, y, marker), x, marker)
  {
    hide Replace, Kept, LongestFirst;
    KeptOfTwo(y, x, minimum);
    assert [y, x][..1] == [y] && [y][..0] == [];
    assert ReplaceAll(s, [], marker) == s;
    assert ReplaceAll(s, [y], marker) == Replace(s, y, marker);
  }

  /** A secret that fits somewhere on the marker survives in some text, with some other secret beside it. */
  lemma {:induction false} FittingSecretLeaks(y: string, minimum: nat, marker: string, d: int, f: char)
    returns (s: string, secrets: seq<string>)
    requires y != "" && marker != "" && -|y| < d < |marker| && Fits(y, marker, d)
    requires f !in y && f !in marker && |y| >= minimum
    ensures y in secrets && Occurs(y, RedactText(s, secrets, minimum, marker))
  {
    hide Replace, RedactText;
    var p, x, t := Before(y, d), Repeated(f, |y|), After(y, marker, d);
    s, secrets := p + x + t, [y, x];
    assert x[0] == f && y[0] in y;
    RunHidesIt(y, f, p, t);
    LeavesAlone(s, y, marker);
    ReplacesRun(p, f, |y|, t, marker);
    LaidOverOccurs(y, marker, d);
    TwoSecrets(s, y, x, minimum, marker);
  }

  /**
   Redaction removes a secret from every text, whatever the other secrets are, if and only if
   the secret fits nowhere on the marker.  (The character `f` is any that neither contains.)
   */
  lemma {:induction false} RedactedExactly(y: string, minimum: nat, marker: string, f: char)
    requires y != "" && |y| >= minimum && marker != "" && f !in y && f !in marker
    ensures FitsNowhere(y, marker) <==>
              forall s, secrets: seq<string> :: y in secrets ==> !Occurs(y, RedactText(s, secrets, minimum, marker))
  {
    hide RedactText, Occurs, Fits;
    if FitsNowhere(y, marker) {
      forall s, secrets: seq<string> | y in secrets ensures !Occurs(y, RedactText(s, secrets, minimum, marker)) {
        RedactionIsComplete(s, secrets, minimum, marker, y);
      }
    } else {
      var d :| -|y| < d < |marker| && Fits(y, marker, d);
      var s, secrets := FittingSecretLeaks(y, minimum, marker, d, f);
    }
  }

  /** In the replay form a secret is safe unless it starts or ends with the marker's character or holds the marker. */
  lemma {:induction false} ReplaySafeSecrets(y: string)
    requires |y| >= 4
    ensures FitsNowhere(y, REPLAY_MARKER) <==>
              y[0] != '*' && y[|y| - 1] != '*' && !Occurs(REPLAY_MARKER, y)
  {
    var m := REPLAY_MARKER;
    if y[0] == '*' { assert Fits(y, m, 2); }
    if y[|y| - 1] == '*' { assert Fits(y, m, 1 - |y|); }
    if Occurs(m, y) {
      var i: nat :| OccursAt(m, y, i);
      var d := -(i as int);
      forall j | 0 <= j < |y| && 0 <= d + j < |m| ensures y[j] == m[d + j] {
        assert y[i..i + 3][j - i] == y[j];
      }
      assert Fits(y, m, d);
    }
    forall d | -|y| < d < 3 && Fits(y, m, d)
      ensures y[0] == '*' || y[|y| - 1] == '*' || Occurs(m, y)
    {
      if d >= 0 {
        assert y[0] == m[d];
      } else if |y| + d < 3 {
        assert y[|y| - 1] == m[d + |y| - 1];
      } else {
        assert y[-d..-d + 3] == m;
        assert OccursAt(m, y, -d);
      }
    }
  }

  /** A key may share characters with the recording marker and still be safe. */
  lemma {:induction false} KeyIsSafe()
    ensures FitsNowhere("sk-ABCD", RECORDING_MARKER)
  {
    var y, m := "sk-ABCD", RECORDING_MARKER;
    forall d | -7 < d < 10 ensures !Fits(y, m, d) {
      var i := if d < 0 then -d else 0;
      if d == -6 { assert y[6] != m[0]; } else { assert y[i] != m[d + i]; }
    }
  }

  lemma {:induction false} OneReplacement()
    ensures Replace("*abcd", "****", "***") == "*abcd" && Replace("*abcd", "abcd", "***") == "****"
  {
    hide SplitBy, JoinBy, Replace;
    ReplaceStep("*abcd", "****", "***");
    ReplaceStep("abcd", "****", "***");
    ReplaceStep("bcd", "****", "***");
    ReplaceStep("*abcd", "abcd", "***");
    ReplaceStep("abcd", "abcd", "***");
    ReplaceStep("", "abcd", "***");
    assert "*abcd"[1..] == "abcd" && "abcd"[1..] == "bcd" && "abcd"[4..] == "";
    assert "*abcd"[..4] == "*abc" && "*abc" != "****" && "abcd" != "****" && "*abc" != "abcd" && "abcd"[..4] == "abcd";
    assert "***" + "" == "***" && "*" + "***" == "****" && ['*'] + "abcd" == "*abcd" && ['a'] + "bcd" == "abcd";
  }

  /** With the secrets `****` and `abcd`, redacting `*abcd` leaves the first of them. */
  lemma {:induction false} SharedCharacterLeaks()
    ensures Occurs("****", RedactReplayOutput("*abcd", ["****", "abcd"]))
  {
    hide Replace, RedactText;
    OneReplacement();
    assert "****"[0] != "abcd"[0];
    TwoSecrets("*abcd", "****", "abcd", 4, REPLAY_MARKER);
    assert OccursAt("****", "****", 0);
  }
}
