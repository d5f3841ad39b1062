/**
 Which rules the overlap search gets right.  A path written as a pattern, with its glob
 characters quoted, is an aligned rule for that path alone; asking the search about such
 rules shows what it takes a pattern to match.
 */
module GlobSafety {
  import opened Texts
  import opened Globs
  import opened GlobSchemas
  import opened GlobSegments
  import opened GlobOverlap

  function Quote(c: char): string {
    if c == '?' || c == '*' || c == '[' then ['[', c, ']'] else [c]
  }

  /** The path as a pattern for itself. */
  function Escape(s: string): string {
    Rewrite(s, Quote)
  }

  function EscapeEach(segs: seq<string>): seq<string> {
    RewriteEach(segs, Quote)
  }

  lemma {:induction false} ReadQuoted(c: char, rest: string)
    ensures ReadToken(Quote(c) + rest) == (if |Quote(c)| == 3 then Class(false, [(c, c)]) else Lit(c), |Quote(c)|)
  {
    var s := Quote(c) + rest;
    if |Quote(c)| == 3 {
      assert s[2] == ']' && s[1] == c;
      assert IndexOf(s, ']', 2) == 2;
      assert IndexOf(s, ']', 1) == 2;
      assert s[1..2] == [c] && [c][1..] == "";
      assert Ranges("") == [];
      assert Ranges([c]) == [(c, c)];
    }
  }

  /** The first token of an escaped text takes the first character and no other. */
  lemma {:induction false} EscapedToken(s: string) returns (t: Token)
    requires s != ""
    ensures Tokens(Escape(s)) == [t] + Tokens(Escape(s[1..]))
    ensures (t.Lit? || t.Class?) && forall c :: TakesOne(t, c) <==> c == s[0]
  {
    hide ReadToken, Quote;
    var rest := Escape(s[1..]);
    ReadQuoted(s[0], rest);
    TokensUnfold(Quote(s[0]) + rest);
    assert (Quote(s[0]) + rest)[|Quote(s[0])|..] == rest;
    t := ReadToken(Quote(s[0]) + rest).0;
    assert t.Class? ==> t.ranges[0] == (s[0], s[0]);
    assert Tokens(Escape(s)) == [t] + Tokens(rest);
  }

  /** An escaped text matches itself and nothing else. */
  lemma {:induction false} EscapeMatchesItself(s: string, t: string)
    ensures Matches(Escape(s), t) <==> s == t
  {
    if s == "" {
      NoTokens();
    } else {
      var token := EscapedToken(s);
      var ts := Tokens(Escape(s));
      assert ts[1..] == Tokens(Escape(s[1..]));
      if t != "" {
        EscapeMatchesItself(s[1..], t[1..]);
        assert t == [t[0]] + t[1..] && s == [s[0]] + s[1..];
      }
    }
  }

  lemma {:induction false} EscapeStaysWithin(s: string)
    requires '/' !in s
    ensures WithinSegment(Tokens(Escape(s))) && '/' !in Escape(s)
  {
    if s == "" {
      NoTokens();
    } else {
      var token := EscapedToken(s);
      EscapeStaysWithin(s[1..]);
      assert s[0] in s && !TakesOne(token, '/');
    }
  }

  /** Only glob characters are quoted, and a quoted one stays a glob character. */
  lemma {:induction false} EscapeKeepsLiterals(s: string)
    ensures IsLiteral(s) <==> IsLiteral(Escape(s))
    ensures IsLiteral(s) ==> Escape(s) == s
    ensures Escape(s) != "**"
  {
    if s != "" {
      EscapeKeepsLiterals(s[1..]);
      assert s == [s[0]] + s[1..] && Escape(s) == Quote(s[0]) + Escape(s[1..]);
      assert Escape(s)[0] == Quote(s[0])[0] != '*';
      assert Quote(s[0])[0] in Escape(s);
    }
  }

  lemma {:induction false} QuoteIsBenign()
    ensures Benign(Quote)
  {
    forall c ensures Replaces(c, Quote(c)) {
      assert Quote(c)[0] in Quote(c);
    }
  }

  lemma {:induction false} EscapeSplit(path: string)
    ensures Split(Escape(path), '/') == EscapeEach(Split(path, '/'))
    ensures Aligned(Escape(path))
  {
    hide Rewrite, Quote;
    var segs := Split(path, '/');
    QuoteIsBenign();
    RewriteSplit(path, Quote);
    forall seg | seg in EscapeEach(segs) ensures AlignedSegment(seg) {
      var i :| 0 <= i < |segs| && seg == Escape(segs[i]);
      EscapeStaysWithin(segs[i]);
    }
  }

  lemma {:induction false} EscapeBalances(s: string, depth: nat)
    ensures BalancedFrom(Escape(s), depth) <==> BalancedFrom(s, depth)
  {
    if s != "" {
      var rest := Escape(s[1..]);
      EscapeBalances(s[1..], if s[0] == '[' then depth + 1 else if s[0] == ']' && depth > 0 then depth - 1 else depth);
      var quoted, inside := Quote(s[0]) + rest, if s[0] == '[' then depth + 2 else depth + 1;
      if |Quote(s[0])| == 3 {
        var two, one := [s[0], ']'] + rest, [']'] + rest;
        assert quoted[1..] == two && two[1..] == one && one[1..] == rest;
        assert BalancedFrom(quoted, depth) == BalancedFrom(two, depth + 1);
        assert BalancedFrom(two, depth + 1) == BalancedFrom(one, inside);
        assert BalancedFrom(one, inside) == BalancedFrom(rest, inside - 1);
      } else {
        assert quoted[1..] == rest;
      }
    }
  }

  // ----- the search on a rule for one path ------------------------------------------

  /** The segments overlap, for the search, exactly when the pattern fits the segment of the path. */
  lemma {:induction false} OverlapIsFit(pat: string, segment: string)
    ensures SegmentsMayOverlap(pat, Escape(segment)) <==> Fits(pat, segment)
  {
    hide Matches, IsLiteral, Escape;
    EscapeKeepsLiterals(segment);
    if IsLiteral(segment) {
      if IsLiteral(pat) { LiteralMatchesItself(pat, segment); }
      LiteralMatchesItself(segment, segment);
    } else if IsLiteral(pat) {
      EscapeMatchesItself(segment, pat);
    }
  }

  lemma {:induction false} WalkIsCover(pats: seq<string>, segs: seq<string>)
    ensures Together(pats, EscapeEach(segs)) <==> CoversBroadly(pats, segs)
    decreases |pats| + |segs|
  {
    hide Alike, SegmentsMayOverlap, Fits, Rewrite, IsLiteral;
    var right := EscapeEach(segs);
    if segs != [] { EscapeKeepsLiterals(segs[0]); }
    if pats != [] {
      if pats[0] == "**" { WalkIsCover(pats[1..], segs); }
      if segs != [] {
        assert right[1..] == EscapeEach(segs[1..]) && right[0] == Escape(segs[0]);
        OverlapIsFit(pats[0], segs[0]);
        AlikeExactly(pats[0], right[0]);
        WalkIsCover(if pats[0] == "**" then pats else pats[1..], segs[1..]);
      }
    }
  }

  /** Asked about any pattern and the rule for one path, the search answers whether the pattern covers the path. */
  lemma {:induction false} SearchOnOnePath(pattern: string, path: string)
    ensures MayOverlap(pattern, Escape(path)) <==> CoversBroadly(Split(pattern, '/'), Split(path, '/'))
  {
    hide MayOverlap, CoversBroadly, Rewrite, Together;
    var ls, segs := Split(pattern, '/'), Split(path, '/');
    EscapeSplit(path);
    SearchExactly(pattern, Escape(path));
    WalkIsCover(ls, segs);
  }

  /** So for a path without glob characters, which is a rule for itself, whatever the pattern. */
  lemma {:induction false} SearchOnLiteralRule(pattern: string, path: string)
    requires IsLiteral(path)
    ensures MayOverlap(pattern, path) <==> Covers(Split(pattern, '/'), Split(path, '/'))
  {
    hide MayOverlap, Covers, CoversBroadly, Escape;
    EscapeKeepsLiterals(path);
    SearchOnOnePath(pattern, path);
    LiteralSegments(path);
    CoveredBroadly(Split(pattern, '/'), Split(path, '/'));
  }

  lemma {:induction false} LiteralSegments(path: string)
    requires IsLiteral(path)
    ensures forall segment <- Split(path, '/') :: IsLiteral(segment)
  {
    if path != "" {
      assert IsLiteral(path[1..]) && path[0] in path;
      LiteralSegments(path[1..]);
    }
  }

  // ----- which patterns are safe ----------------------------------------------------

  /** The schema admits the path, and its quoted form as a glob. */
  predicate Quotable(path: string) {
    AdmittedPath(path) && AdmittedGlob(Escape(path))
  }

  /** That takes balanced brackets, and a quoted form that is not too long. */
  lemma {:induction false} QuotableExactly(path: string)
    requires AdmittedPath(path)
    ensures Quotable(path) <==> Balanced(path) && |Escape(path)| <= MAX_LENGTH
  {
    hide AdmittedPath, Rewrite, BalancedFrom;
    QuoteIsBenign();
    RewriteIsAdmitted(path, Quote);
    EscapeBalances(path, 0);
  }

  lemma {:induction false} TooLong(s: string)
    requires AdmittedPath(s)
    ensures |s| <= MAX_LENGTH
  {
  }

  /** Of the paths in `paths` that the pattern shares with an aligned rule the search misses none. */
  ghost predicate SafeOn(pattern: string, paths: string -> bool) {
    forall rule, path: string | AdmittedGlob(rule) && Aligned(rule) && paths(path) && Matches(pattern, path) && Matches(rule, path) ::
      MayOverlap(pattern, rule)
  }

  /** Segment by segment, the pattern covers every path in `paths` that it matches. */
  ghost predicate CoversOn(pattern: string, paths: string -> bool) {
    forall path: string | paths(path) && Matches(pattern, path) :: CoversBroadly(Split(pattern, '/'), Split(path, '/'))
  }

  /** A pattern that covers what it matches is safe with every aligned rule, whatever the paths. */
  lemma {:induction false} CoveringIsSafe(pattern: string, paths: string -> bool)
    requires CoversOn(pattern, paths)
    ensures SafeOn(pattern, paths)
  {
    hide MayOverlap, Matches, Aligned, CoversBroadly, AdmittedGlob;
    forall rule, path: string | AdmittedGlob(rule) && Aligned(rule) && paths(path) && Matches(pattern, path) && Matches(rule, path)
      ensures MayOverlap(pattern, rule)
    {
      AlignedCovers(rule, path);
      CoveredPathIsFound(pattern, rule, path);
    }
  }

  /**
   A pattern, aligned or not, is safe with every admitted aligned rule on the quotable
   paths exactly when it covers those that it matches.
   */
  lemma {:induction false} SafeExactly(pattern: string)
    ensures SafeOn(pattern, Quotable) <==> CoversOn(pattern, Quotable)
  {
    hide MayOverlap, Matches, Aligned, CoversBroadly, Escape, AdmittedGlob;
    if SafeOn(pattern, Quotable) {
      forall path: string | Quotable(path) && Matches(pattern, path) ensures CoversBroadly(Split(pattern, '/'), Split(path, '/')) {
        EscapeSplit(path);
        EscapeMatchesItself(path, path);
        assert MayOverlap(pattern, Escape(path));
        SearchOnOnePath(pattern, path);
      }
    }
    if CoversOn(pattern, Quotable) { CoveringIsSafe(pattern, Quotable); }
  }

  // ----- paths whose quoted form is no rule -------------------------------------------

  /** Before any text, `masked` reads as one token, and that takes what `takes` says of `c`. */
  ghost predicate ReadsAs(masked: string, rest: string, c: char, takes: (char, char) -> bool) {
    && masked != "" && masked[0] != '*'
    && var read := ReadToken(masked + rest);
       && read.1 == |masked| && (read.0.Lit? || read.0.AnyOne? || read.0.Class?)
       && forall d :: TakesOne(read.0, d) <==> takes(c, d)
  }

  ghost predicate Neutral(masked: string, rest: string, depth: nat) {
    BalancedFrom(masked + rest, depth) <==> BalancedFrom(rest, depth)
  }

  /**
   A way to write each glob character of a path as a token of a glob with balanced brackets that
   takes this character, perhaps others, and never `/`.
   */
  ghost predicate IsMask(f: char -> string, takes: (char, char) -> bool) {
    && Benign(f)
    && (forall c, rest: string :: ReadsAs(f(c), rest, c, takes))
    && (forall c, rest: string, depth: nat :: Neutral(f(c), rest, depth))
    && (forall c | Special(c) :: !IsLiteral(f(c)) && !takes(c, '/'))
    && (forall c, d :: takes(c, d) <== c == d)
    && (forall c, d | !Special(c) :: takes(c, d) ==> c == d)
  }

  /** The two agree as far as the mask tells. */
  predicate Agrees(pat: string, segment: string, takes: (char, char) -> bool) {
    |pat| == |segment| && forall i | 0 <= i < |segment| :: takes(segment[i], pat[i])
  }

  /** As `Fits`, but a literal segment need only agree. */
  predicate FitsLoosely(pat: string, segment: string, takes: (char, char) -> bool) {
    if Plain(segment) then Matches(pat, segment) else IsLiteral(pat) ==> Agrees(pat, segment, takes)
  }

  predicate CoversLoosely(pats: seq<string>, segs: seq<string>, takes: (char, char) -> bool)
    decreases |pats| + |segs|
  {
    if pats == [] then segs == []
    else if pats[0] == "**" then
      CoversLoosely(pats[1..], segs, takes) || (segs != [] && CoversLoosely(pats, segs[1..], takes))
    else segs != [] && FitsLoosely(pats[0], segs[0], takes) && CoversLoosely(pats[1..], segs[1..], takes)
  }

  lemma {:induction false} MaskedToken(s: string, f: char -> string, takes: (char, char) -> bool) returns (t: Token)
    requires s != "" && IsMask(f, takes)
    ensures Tokens(Rewrite(s, f)) == [t] + Tokens(Rewrite(s[1..], f))
    ensures (t.Lit? || t.AnyOne? || t.Class?) && forall d :: TakesOne(t, d) <==> takes(s[0], d)
  {
    hide ReadToken, Benign;
    var masked, rest := f(s[0]), Rewrite(s[1..], f);
    assert ReadsAs(masked, rest, s[0], takes);
    TokensUnfold(masked + rest);
    assert (masked + rest)[|masked|..] == rest;
    t := ReadToken(masked + rest).0;
  }

  lemma {:induction false} MaskedMatches(s: string, t: string, f: char -> string, takes: (char, char) -> bool)
    requires IsMask(f, takes)
    ensures Matches(Rewrite(s, f), t) <==> Agrees(t, s, takes)
  {
    hide IsMask;
    if s == "" {
      NoTokens();
    } else {
      var token := MaskedToken(s, f, takes);
      hide Rewrite;
      var ts := Tokens(Rewrite(s, f));
      assert ts[1..] == Tokens(Rewrite(s[1..], f));
      if t != "" {
        MaskedMatches(s[1..], t[1..], f, takes);
        AgreesStep(t, s, takes);
      }
    }
  }

  lemma {:induction false} AgreesStep(t: string, s: string, takes: (char, char) -> bool)
    requires t != "" && s != ""
    ensures Agrees(t, s, takes) <==> Agrees(t[1..], s[1..], takes) && takes(s[0], t[0])
  {
    assert forall i | 0 < i < |s| :: s[i] == s[1..][i - 1];
    assert forall i | 0 < i < |t| :: t[i] == t[1..][i - 1];
  }

  lemma {:induction false} MaskedStaysWithin(s: string, f: char -> string, takes: (char, char) -> bool)
    requires '/' !in s && IsMask(f, takes)
    ensures WithinSegment(Tokens(Rewrite(s, f)))
  {
    hide Benign;
    if s == "" {
      NoTokens();
    } else {
      var token := MaskedToken(s, f, takes);
      MaskedStaysWithin(s[1..], f, takes);
      assert s[0] in s && !takes(s[0], '/');
    }
  }

  lemma {:induction false} MaskedBalances(s: string, f: char -> string, takes: (char, char) -> bool)
    requires IsMask(f, takes)
    ensures Balanced(Rewrite(s, f))
  {
    hide Benign;
    if s != "" {
      MaskedBalances(s[1..], f, takes);
      assert Neutral(f(s[0]), Rewrite(s[1..], f), 0);
    }
  }

  /** The masked path, unless it is too long, is an admitted, aligned rule that matches the path. */
  lemma {:induction false} MaskedIsRule(path: string, f: char -> string, takes: (char, char) -> bool)
    requires AdmittedPath(path) && IsMask(f, takes) && |Rewrite(path, f)| <= MAX_LENGTH
    ensures AdmittedGlob(Rewrite(path, f)) && Aligned(Rewrite(path, f)) && Matches(Rewrite(path, f), path)
  {
    var segs := Split(path, '/');
    assert Benign(f) && Agrees(path, path, takes);
    hide Rewrite, IsMask, Benign, Matches, BalancedFrom, Agrees, AdmittedPath;
    RewriteSplit(path, f);
    RewriteIsAdmitted(path, f);
    MaskedBalances(path, f, takes);
    MaskedMatches(path, path, f, takes);
    forall seg | seg in RewriteEach(segs, f) ensures AlignedSegment(seg) {
      var i :| 0 <= i < |segs| && seg == Rewrite(segs[i], f);
      MaskedStaysWithin(segs[i], f, takes);
    }
  }

  /** A masked segment stays a literal exactly when it had nothing to mask. */
  lemma {:induction false} MaskedLiteral(s: string, f: char -> string, takes: (char, char) -> bool)
    requires IsMask(f, takes)
    ensures Plain(s) ==> IsLiteral(s) && Rewrite(s, f) == s
    ensures !Plain(s) ==> !IsLiteral(Rewrite(s, f))
    ensures Rewrite(s, f) != "**"
  {
    hide Benign;
    RewritePlain(s, f);
    if s != "" {
      var x, rest := f(s[0]), Rewrite(s[1..], f);
      assert ReadsAs(x, "", s[0], takes);
      assert Special(s[0]) ==> !IsLiteral(x);
      hide IsMask, ReadsAs;
      MaskedLiteral(s[1..], f, takes);
      NotLiteralConcat(x, rest);
      assert s == [s[0]] + s[1..];
      assert (x + rest)[0] == x[0];
    }
  }

  lemma {:induction false} NotLiteralConcat(a: string, b: string)
    ensures IsLiteral(a + b) <==> IsLiteral(a) && IsLiteral(b)
  {
  }

  lemma {:induction false} OverlapIsLooseFit(pat: string, segment: string, f: char -> string, takes: (char, char) -> bool)
    requires IsMask(f, takes)
    ensures SegmentsMayOverlap(pat, Rewrite(segment, f)) <==> FitsLoosely(pat, segment, takes)
  {
    hide Matches, Rewrite, Agrees, IsMask, IsLiteral;
    MaskedLiteral(segment, f, takes);
    if Plain(segment) {
      if IsLiteral(pat) { LiteralMatchesItself(pat, segment); }
      LiteralMatchesItself(segment, segment);
    } else {
      MaskedMatches(segment, pat, f, takes);
    }
  }

  lemma {:induction false} WalkIsLooseCover(pats: seq<string>, segs: seq<string>, f: char -> string, takes: (char, char) -> bool)
    requires IsMask(f, takes)
    ensures Together(pats, RewriteEach(segs, f)) <==> CoversLoosely(pats, segs, takes)
    decreases |pats| + |segs|
  {
    hide Alike, SegmentsMayOverlap, FitsLoosely, Rewrite, IsMask, IsLiteral;
    var right := RewriteEach(segs, f);
    if segs != [] { MaskedLiteral(segs[0], f, takes); }
    if pats != [] {
      if pats[0] == "**" { WalkIsLooseCover(pats[1..], segs, f, takes); }
      if segs != [] {
        assert right[1..] == RewriteEach(segs[1..], f) && right[0] == Rewrite(segs[0], f);
        OverlapIsLooseFit(pats[0], segs[0], f, takes);
        AlikeExactly(pats[0], right[0]);
        WalkIsLooseCover(if pats[0] == "**" then pats else pats[1..], segs[1..], f, takes);
      }
    }
  }

  /** Asked about any pattern and the masked path, the search answers whether the pattern covers the path loosely. */
  lemma {:induction false} SearchOnMaskedPath(pattern: string, path: string, f: char -> string, takes: (char, char) -> bool)
    requires IsMask(f, takes)
    ensures MayOverlap(pattern, Rewrite(path, f)) <==> CoversLoosely(Split(pattern, '/'), Split(path, '/'), takes)
  {
    var ls, segs := Split(pattern, '/'), Split(path, '/');
    var right := RewriteEach(segs, f);
    assert Benign(f);
    hide MayOverlap, CoversLoosely, Rewrite, Together, SegmentsMayOverlap, FitsLoosely, IsMask, Benign;
    RewriteSplit(path, f);
    SearchExactly(pattern, Rewrite(path, f));
    WalkIsLooseCover(ls, segs, f, takes);
  }

  /**
   On all admitted paths: a pattern that is safe covers what it matches at least loosely, for
   every mask that does not make the path too long.
   */
  lemma {:induction false} SafeCoversLoosely(pattern: string, path: string, f: char -> string, takes: (char, char) -> bool)
    requires SafeOn(pattern, AdmittedPath) && AdmittedPath(path) && Matches(pattern, path)
    requires IsMask(f, takes) && |Rewrite(path, f)| <= MAX_LENGTH
    ensures CoversLoosely(Split(pattern, '/'), Split(path, '/'), takes)
  {
    hide MayOverlap, Matches, Aligned, CoversLoosely, AdmittedGlob, AdmittedPath, Rewrite, IsMask;
    MaskedIsRule(path, f, takes);
    assert MayOverlap(pattern, Rewrite(path, f));
    SearchOnMaskedPath(pattern, path, f, takes);
  }

  // ----- two masks ------------------------------------------------------------------------

  /** A `?` for each glob character, which makes no path longer. */
  function Blur(c: char): string {
    if Special(c) then "?" else [c]
  }

  predicate BlurTakes(c: char, d: char) {
    if Special(c) then d != '/' else c == d
  }

  /** A range for a bracket, and a class of its own for the others. */
  function Sharpen(c: char): string {
    if c == '[' || c == ']' then "[Z-^]" else Quote(c)
  }

  predicate SharpTakes(c: char, d: char) {
    if c == '[' || c == ']' then 'Z' <= d <= '^' else c == d
  }

  lemma {:induction false} NeutralText(masked: string, rest: string, depth: nat)
    requires '[' !in masked && ']' !in masked
    ensures Neutral(masked, rest, depth)
  {
    if masked == "" {
      assert masked + rest == rest;
    } else {
      assert masked[0] in masked && (masked + rest)[1..] == masked[1..] + rest;
      NeutralText(masked[1..], rest, depth);
    }
  }

  lemma {:induction false} NeutralClass(inside: string, rest: string, depth: nat)
    requires '[' !in inside && ']' !in inside
    ensures Neutral("[" + inside + "]", rest, depth)
  {
    var all := "[" + inside + "]" + rest;
    assert all[1..] == inside + ("]" + rest) && ("]" + rest)[1..] == rest;
    NeutralText(inside, "]" + rest, depth + 1);
  }

  lemma {:induction false} BlurIsMask()
    ensures IsMask(Blur, BlurTakes)
  {
    hide ReadsAs, Neutral, Plain, Unstructured, IsLiteral, Benign;
    forall c, rest: string ensures ReadsAs(Blur(c), rest, c, BlurTakes) { BlurReads(c, rest); }
    forall c, rest: string, depth: nat ensures Neutral(Blur(c), rest, depth) { NeutralText(Blur(c), rest, depth); }
    BlurIsBenign();
    NotLiteral("?", 0);
  }

  lemma {:induction false} BlurReads(c: char, rest: string)
    ensures ReadsAs(Blur(c), rest, c, BlurTakes)
  {
    assert (Blur(c) + rest)[0] == Blur(c)[0];
  }

  lemma {:induction false} BlurIsBenign()
    ensures Benign(Blur)
  {
    assert '?' in "?";
  }

  lemma {:induction false} NotLiteral(s: string, i: nat)
    requires i < |s| && (s[i] == '?' || s[i] == '*' || s[i] == '[')
    ensures !IsLiteral(s) && !Plain(s)
  {
    assert s[i] in s;
  }

  lemma {:induction false} BlurKeepsLength(s: string)
    ensures |Rewrite(s, Blur)| == |s|
  {
    if s != "" { BlurKeepsLength(s[1..]); }
  }

  lemma {:induction false} ReadRange(rest: string)
    ensures ReadToken("[Z-^]" + rest) == (Class(false, [('Z', '^')]), 5)
  {
    var s := "[Z-^]" + rest;
    assert s[1] == 'Z' && s[2] == '-' && s[3] == '^' && s[4] == ']';
    assert IndexOf(s, ']', 4) == 4;
    assert IndexOf(s, ']', 3) == 4;
    assert IndexOf(s, ']', 2) == 4;
    assert IndexOf(s, ']', 1) == 4;
    assert s[1..4] == "Z-^" && "Z-^"[3..] == "";
    assert Ranges("") == [];
    assert Ranges("Z-^") == [('Z', '^')];
  }

  lemma {:induction false} SharpReads(c: char, rest: string)
    ensures ReadsAs(Sharpen(c), rest, c, SharpTakes)
  {
    hide ReadToken;
    if c == '[' || c == ']' {
      ReadRange(rest);
      assert [('Z', '^')][0] == ('Z', '^');
    } else {
      ReadQuoted(c, rest);
      assert [(c, c)][0] == (c, c);
    }
  }

  lemma {:induction false} SharpIsNeutral(c: char, rest: string, depth: nat)
    ensures Neutral(Sharpen(c), rest, depth)
  {
    hide BalancedFrom;
    if c == '[' || c == ']' {
      assert "[" + "Z-^" + "]" == "[Z-^]";
      NeutralClass("Z-^", rest, depth);
    } else if c == '?' || c == '*' {
      assert "[" + [c] + "]" == Quote(c);
      NeutralClass([c], rest, depth);
    } else {
      NeutralText([c], rest, depth);
    }
  }

  lemma {:induction false} SharpIsMask()
    ensures IsMask(Sharpen, SharpTakes)
  {
    hide ReadsAs, Neutral, Plain, Unstructured, IsLiteral, Benign, Sharpen;
    forall c, rest: string ensures ReadsAs(Sharpen(c), rest, c, SharpTakes) { SharpReads(c, rest); }
    forall c, rest: string, depth: nat ensures Neutral(Sharpen(c), rest, depth) { SharpIsNeutral(c, rest, depth); }
    forall c ensures Replaces(c, Sharpen(c)) && (Special(c) ==> !IsLiteral(Sharpen(c))) { SharpReplaces(c); }
    SharpIsBenign();
  }

  lemma {:induction false} SharpReplaces(c: char)
    ensures Replaces(c, Sharpen(c)) && (Special(c) ==> !IsLiteral(Sharpen(c)))
  {
    if Special(c) { NotLiteral(Sharpen(c), 0); }
  }

  lemma {:induction false} SharpIsBenign()
    ensures Benign(Sharpen)
  {
    hide Replaces;
    forall c ensures Replaces(c, Sharpen(c)) { SharpReplaces(c); }
  }

  /** With `?` for the glob characters no path gets too long. */
  lemma {:induction false} SafeCoversBlurred(pattern: string, path: string)
    requires SafeOn(pattern, AdmittedPath) && AdmittedPath(path) && Matches(pattern, path)
    ensures CoversLoosely(Split(pattern, '/'), Split(path, '/'), BlurTakes)
  {
    hide AdmittedPath, SafeOn, Matches, CoversLoosely, IsMask;
    BlurIsMask();
    BlurKeepsLength(path);
    TooLong(path);
    SafeCoversLoosely(pattern, path, Blur, BlurTakes);
  }

  /** With a range for a bracket a literal segment has to agree but for `Z`, `\` and `^` in its place. */
  lemma {:induction false} SafeCoversSharply(pattern: string, path: string)
    requires SafeOn(pattern, AdmittedPath) && AdmittedPath(path) && Matches(pattern, path)
    requires |Rewrite(path, Sharpen)| <= MAX_LENGTH
    ensures CoversLoosely(Split(pattern, '/'), Split(path, '/'), SharpTakes)
  {
    hide AdmittedPath, SafeOn, Matches, CoversLoosely, IsMask, Rewrite;
    SharpIsMask();
    SafeCoversLoosely(pattern, path, Sharpen, SharpTakes);
  }

  // ----- examples -----------------------------------------------------------------------

  /** Aligned patterns cover what they match, but not they alone: see `UnalignedButSafe` and `TrailingClassIsSafe`. */
  lemma {:induction false} AlignedCoversItsMatches(pattern: string, paths: string -> bool)
    requires Aligned(pattern)
    ensures CoversOn(pattern, paths) && SafeOn(pattern, paths)
  {
    hide Aligned, Matches, CoversBroadly, SafeOn;
    forall path: string | paths(path) && Matches(pattern, path) ensures CoversBroadly(Split(pattern, '/'), Split(path, '/')) {
      AlignedCovers(pattern, path);
    }
    CoveringIsSafe(pattern, paths);
  }

  /** `a[!x]` takes `/`, but no admitted path ends in one. */
  lemma {:induction false} TrailingClassIsSafe()
    ensures !Aligned("a[!x]") && CoversOn("a[!x]", AdmittedPath) && SafeOn("a[!x]", AdmittedPath)
  {
    hide Accepts, CoversBroadly, SafeOn;
    TrailingClassTokens();
    SplitOne("a[!x]");
    var notX := Class(true, [('x', 'x')]);
    assert TakesOne(notX, '/') && notX in Tokens("a[!x]");
    assert "a[!x]" in ["a[!x]"] && "a[!x]" != "**";
    forall path: string | AdmittedPath(path) && Matches("a[!x]", path) ensures CoversBroadly(Split("a[!x]", '/'), Split(path, '/')) {
      TrailingClassCovers(path);
    }
    CoveringIsSafe("a[!x]", AdmittedPath);
  }

  lemma {:induction false} TrailingClassTokens()
    ensures Tokens("a[!x]") == [Lit('a'), Class(true, [('x', 'x')])]
  {
    hide ReadBracket;
    TokensUnfold("a[!x]");
    assert "a[!x]"[1..] == "[!x]";
    TrailingClassRead();
    TokensUnfold("[!x]");
    assert "[!x]"[4..] == "";
    NoTokens();
  }

  lemma {:induction false} TrailingClassRead()
    ensures ReadToken("[!x]") == (Class(true, [('x', 'x')]), 4)
  {
    var rest := "[!x]";
    assert rest[3] == ']' && IndexOf(rest, ']', 3) == 3;
    assert IndexOf(rest, ']', 2) == 3;
    assert IndexOf(rest, ']', 1) == 3;
    assert rest[1..3] == "!x" && "!x"[1..] == "x" && "x"[1..] == "";
    assert Ranges("") == [];
    assert Ranges("x") == [('x', 'x')];
  }

  lemma {:induction false} TrailingClassMatches(path: string)
    requires Matches("a[!x]", path)
    ensures |path| == 2 && path[0] == 'a'
  {
    TrailingClassTokens();
    var notX := Class(true, [('x', 'x')]);
    var ts := [Lit('a'), notX];
    assert ts[1..] == [notX] && [notX][1..] == [];
    assert Accepts([notX], path[1..]);
    assert Accepts([], path[1..][1..]);
  }

  lemma {:induction false} EmptySegment(path: string)
    requires path == "a/"
    ensures !AdmittedPath(path)
  {
    hide NoDotSegments, FirstLine;
    assert path == "a" + "/" + "";
    SplitTwo("a", "");
    assert ["a", ""][1] == "" && "" in ["a", ""];
  }

  lemma {:induction false} TrailingClassCovers(path: string)
    requires AdmittedPath(path) && Matches("a[!x]", path)
    ensures CoversBroadly(Split("a[!x]", '/'), Split(path, '/'))
  {
    hide Matches, AdmittedPath;
    TrailingClassMatches(path);
    SplitOne("a[!x]");
    if path[1] == '/' {
      EmptySegment(path);
      assert false;
    }
    assert path == [path[0], path[1]];
    SplitOne(path);
    assert "a[!x]"[1] == '[' && !IsLiteral("a[!x]");
    assert CoversBroadly([], []);
    assert ["a[!x]"][1..] == [] && [path][1..] == [];
  }

  lemma {:induction false} DeepATokens()
    ensures Tokens("**a") == [Deep, Lit('a')]
  {
    hide ReadBracket;
    TokensUnfold("**a");
    assert "**a"[2..] == "a";
    TokensUnfold("a");
    assert "a"[1..] == "";
    NoTokens();
  }

  lemma {:induction false} DeepDeepATokens()
    ensures Tokens("**/**a") == [DeepSlash, Deep, Lit('a')]
  {
    hide Tokens, ReadBracket;
    TokensUnfold("**/**a");
    assert "**/**a"[3..] == "**a";
    DeepATokens();
  }

  /** `.*a` takes the texts that end in `a` and have no line terminator before it. */
  lemma {:induction false} DeepThenAAccepts(s: string)
    ensures Accepts([Deep, Lit('a')], s) <==> s != "" && s[|s| - 1] == 'a' && Clean(s[..|s| - 1])
  {
    hide Clean;
    var ts := [Deep, Lit('a')];
    assert ts[1..] == [Lit('a')] && [Lit('a')][1..] == [];
    if |s| == 1 {
      assert s[1..] == "" && s[..0] == "" && Clean("") by { CleanOne("", 'a'); }
      DeepThenAAccepts("");
      assert Accepts([], "") && (Accepts([Lit('a')], s) <==> s[0] == 'a');
      assert Accepts(ts, s) <==> Accepts([Lit('a')], s) || (!LineTerminator(s[0]) && Accepts(ts, s[1..]));
    } else if |s| > 1 {
      DeepThenAAccepts(s[1..]);
      CleanOne(s[1..|s| - 1], s[0]);
      assert s[1..] != "" && !Accepts([], s[1..]);
      assert !Accepts([Lit('a')], s);
      assert Accepts(ts, s) <==> Accepts([Lit('a')], s) || (!LineTerminator(s[0]) && Accepts(ts, s[1..]));
      assert s[1..][..|s| - 2] == s[1..|s| - 1] && s[..|s| - 1] == [s[0]] + s[1..|s| - 1];
    }
  }

  lemma {:induction false} CleanOne(s: string, c: char)
    ensures Clean([c] + s) <==> !LineTerminator(c) && Clean(s)
    ensures Clean("")
  {
    CleanConcat([c], s);
    assert Clean([c]) <==> !LineTerminator(c) by { assert [c][0] == c; }
  }

  lemma {:induction false} LastSegmentCovered(s: string)
    requires s != "" && s[|s| - 1] == 'a' && Clean(s[..|s| - 1])
    ensures CoversBroadly(["**", "**a"], Split(s, '/'))
  {
    hide Accepts, Fits;
    var pats, parts, rest := ["**", "**a"], Split(s, '/'), Split(s[1..], '/');
    assert pats[1..] == ["**a"] && ["**a"][1..] == [];
    if |parts| == 1 {
      LastSegmentFits(s);
      assert CoversBroadly([], parts[1..]);
      assert CoversBroadly(["**a"], parts);
    } else {
      assert s[1..][..|s[1..]| - 1] == s[..|s| - 1][1..];
      LastSegmentCovered(s[1..]);
      if s[0] == '/' {
        assert parts[1..] == rest;
      } else {
        assert parts[1..] == rest[1..];
        assert !CoversBroadly(["**a"], rest);
      }
    }
  }

  lemma {:induction false} LastSegmentFits(s: string)
    requires s != "" && s[|s| - 1] == 'a' && Clean(s[..|s| - 1])
    ensures Fits("**a", s)
  {
    hide Accepts;
    DeepATokens();
    DeepThenAAccepts(s);
    assert "**a"[0] == '*' && !IsLiteral("**a");
  }

  // `**/**a` is not aligned and yet safe: the first `**` covers what the glued one runs over.
  lemma {:induction false} UnalignedButSafe()
    ensures !Aligned("**/**a") && CoversOn("**/**a", AdmittedPath) && SafeOn("**/**a", AdmittedPath)
  {
    hide Accepts, CoversBroadly, SafeOn, AdmittedPath;
    var pats := ["**", "**a"];
    assert "**" + "/" + "**a" == "**/**a";
    SplitTwo("**", "**a");
    DeepATokens();
    assert "**a" in pats && [Deep, Lit('a')][0].Deep? && Deep in [Deep, Lit('a')] && "**a" != "**";
    forall path: string | Matches("**/**a", path) ensures CoversBroadly(Split("**/**a", '/'), Split(path, '/')) {
      EndsInA(path);
      LastSegmentCovered(path);
    }
    CoveringIsSafe("**/**a", AdmittedPath);
  }

  lemma {:induction false} EndsInA(path: string)
    requires Matches("**/**a", path)
    ensures path != "" && path[|path| - 1] == 'a' && Clean(path[..|path| - 1])
  {
    hide Accepts;
    var rest := [Deep, Lit('a')];
    DeepDeepATokens();
    assert [DeepSlash, Deep, Lit('a')] == [DeepSlash] + rest;
    DeepSlashMeans(rest, path);
    if Accepts(rest, path) {
      DeepThenAAccepts(path);
    } else {
      var k :| SlashAt(rest, path, k);
      var tail := path[k + 1..];
      DeepThenAAccepts(tail);
      assert path[..|path| - 1] == path[..k] + ("/" + tail[..|tail| - 1]);
      CleanConcat(path[..k], "/" + tail[..|tail| - 1]);
      CleanOne(tail[..|tail| - 1], '/');
    }
  }

  /** The search errs on a pattern and a literal rule exactly when the pattern matches that path without covering it. */
  lemma {:induction false} LiteralRuleExactly(pattern: string, path: string)
    requires IsLiteral(path)
    ensures (exists p: string :: Matches(pattern, p) && Matches(path, p) && !MayOverlap(pattern, path)) <==>
            Matches(pattern, path) && !Covers(Split(pattern, '/'), Split(path, '/'))
  {
    hide MayOverlap, Matches, Covers, IsLiteral;
    SearchOnLiteralRule(pattern, path);
    forall p: string ensures Matches(path, p) <==> p == path {
      LiteralMatchesItself(path, p);
    }
  }

  lemma {:induction false} SwappedMove(left: seq<string>, right: seq<string>, at: Position, p: Position)
    requires InRange(left, right, at) && Offers(left, right, at, p)
    ensures Offers(right, left, (at.1, at.0), (p.1, p.0))
  {
    hide Matches, IsLiteral;
  }

  lemma {:induction false} ReachedSwapped(left: seq<string>, right: seq<string>, at: Position)
    requires ReachesEnd(left, right, at)
    ensures ReachesEnd(right, left, (at.1, at.0))
    decreases |left| + |right| - at.0 - at.1
  {
    hide Offers, Transitions;
    if at != (|left|, |right|) {
      var p :| p in Transitions(left, right, at) && ReachesEnd(left, right, p);
      ReachedSwapped(left, right, p);
      TransitionTable(left, right, at);
      TransitionTable(right, left, (at.1, at.0));
      SwappedMove(left, right, at, p);
    }
  }

  /** The order of two rules does not matter to the search. */
  lemma {:induction false} SearchIsSymmetric(left: string, right: string)
    ensures MayOverlap(left, right) <==> MayOverlap(right, left)
  {
    hide ReachesEnd;
    var ls, rs := Split(left, '/'), Split(right, '/');
    if ReachesEnd(ls, rs, (0, 0)) { ReachedSwapped(ls, rs, (0, 0)); }
    if ReachesEnd(rs, ls, (0, 0)) { ReachedSwapped(rs, ls, (0, 0)); }
  }
}
