/**
 Can two globs match the same path?  A worklist search over pairs of segment
 positions answers "no" only when they cannot.
 */
module GlobOverlap {
  import opened Texts
  import opened Globs
  import opened GlobSegments

  type Position = (nat, nat)

  predicate SegmentsMayOverlap(left: string, right: string) {
    if left == right then true
    else if IsLiteral(left) && IsLiteral(right) then false
    else if IsLiteral(left) then Matches(right, left)
    else if IsLiteral(right) then Matches(left, right)
    else true
  }

  /** `globOverlapTransitions`: the pairs of positions to look at next, in order. */
  function Transitions(left: seq<string>, right: seq<string>, at: Position): (next: seq<Position>)
    requires InRange(left, right, at)
    ensures forall p <- next :: InRange(left, right, p) && at.0 + at.1 < p.0 + p.1
  {
    var (i, j) := at;
    var leftDeep, rightDeep := i < |left| && left[i] == "**", j < |right| && right[j] == "**";
    (if leftDeep then [(i + 1, j)] else []) +
    (if rightDeep then [(i, j + 1)] else []) +
    (if leftDeep && j < |right| then [(i, j + 1)]
     else if rightDeep && i < |left| then [(i + 1, j)]
     else if i < |left| && j < |right| && SegmentsMayOverlap(left[i], right[j]) then [(i + 1, j + 1)]
     else [])
  }

  /** The moves told one by one. */
  predicate Offers(left: seq<string>, right: seq<string>, at: Position, p: Position)
    requires InRange(left, right, at)
  {
    var (i, j) := at;
    var leftDeep, rightDeep := i < |left| && left[i] == "**", j < |right| && right[j] == "**";
    || (p == (i + 1, j) && (leftDeep || (rightDeep && i < |left|)))
    || (p == (i, j + 1) && (rightDeep || (leftDeep && j < |right|)))
    || (p == (i + 1, j + 1) && i < |left| && j < |right| && !leftDeep && !rightDeep && SegmentsMayOverlap(left[i], right[j]))
  }

  lemma {:induction false} TransitionTable(left: seq<string>, right: seq<string>, at: Position)
    requires InRange(left, right, at)
    ensures forall p :: p in Transitions(left, right, at) <==> Offers(left, right, at, p)
  {
    hide SegmentsMayOverlap;
  }

  predicate InRange(left: seq<string>, right: seq<string>, p: Position) {
    p.0 <= |left| && p.1 <= |right|
  }

  /** Some chain of transitions leads from `at` to the end of both patterns. */
  ghost predicate ReachesEnd(left: seq<string>, right: seq<string>, at: Position)
    decreases |left| + |right| - at.0 - at.1
  {
    && InRange(left, right, at)
    && (at == (|left|, |right|) || exists p <- Transitions(left, right, at) :: ReachesEnd(left, right, p))
  }

  /**
   What the worklist keeps: a visited position has its successors visited or
   waiting, and the start is among them.
   */
  ghost predicate Searching(left: seq<string>, right: seq<string>, visited: set<Position>, pending: seq<Position>) {
    && (forall v <- visited :: InRange(left, right, v) && v != (|left|, |right|))
    && (forall p <- pending :: InRange(left, right, p))
    && (forall v <- visited :: forall p <- Transitions(left, right, v) :: p in visited || p in pending)
    && ((0, 0) in visited || (0, 0) in pending)
  }

  /** Nothing is waiting that would reach the end although the start does not. */
  ghost predicate FromStart(left: seq<string>, right: seq<string>, pending: seq<Position>) {
    forall p <- pending :: ReachesEnd(left, right, p) ==> ReachesEnd(left, right, (0, 0))
  }

  /** Meeting a position for the first time. */
  lemma {:induction false} Visit(left: seq<string>, right: seq<string>, visited: set<Position>, rest: seq<Position>, at: Position)
    requires Searching(left, right, visited, rest + [at]) && at != (|left|, |right|)
    requires FromStart(left, right, rest + [at])
    ensures InRange(left, right, at)
    ensures Searching(left, right, visited + {at}, rest + Transitions(left, right, at))
    ensures FromStart(left, right, rest + Transitions(left, right, at))
  {
    hide Transitions;
    assert at in rest + [at];
    assert forall p <- rest :: p in rest + [at];
    assert forall p <- rest + [at] :: p in rest || p == at;
    var next := Transitions(left, right, at);
    assert forall p <- rest :: p in rest + next;
    assert forall p <- next :: p in rest + next;
    assert forall p <- rest + next :: p in rest || p in next;
    forall p | p in next && ReachesEnd(left, right, p)
      ensures ReachesEnd(left, right, (0, 0))
    {
      assert ReachesEnd(left, right, at);
    }
  }

  /** Meeting a position again. */
  lemma {:induction false} Drop(left: seq<string>, right: seq<string>, visited: set<Position>, rest: seq<Position>, at: Position)
    requires Searching(left, right, visited, rest + [at]) && FromStart(left, right, rest + [at])
    requires at in visited
    ensures Searching(left, right, visited, rest) && FromStart(left, right, rest)
  {
    hide Transitions, ReachesEnd;
    assert forall p <- rest :: p in rest + [at];
    assert forall p <- rest + [at] :: p in rest || p == at;
  }

  /** From a visited position the end can only be reached through a waiting one. */
  lemma {:induction false} EndBehindPending(left: seq<string>, right: seq<string>,
                                            visited: set<Position>, pending: seq<Position>, at: Position)
    requires Searching(left, right, visited, pending)
    requires at in visited && ReachesEnd(left, right, at)
    ensures exists p <- pending :: ReachesEnd(left, right, p)
    decreases |left| + |right| - at.0 - at.1
  {
    var p :| p in Transitions(left, right, at) && ReachesEnd(left, right, p);
    if p !in pending {
      EndBehindPending(left, right, visited, pending, p);
    }
  }

  /** An empty worklist leaves the end out of reach; meeting the end puts it in reach. */
  lemma {:induction false} SearchEnds(left: seq<string>, right: seq<string>, visited: set<Position>, rest: seq<Position>)
    ensures Searching(left, right, visited, []) ==> !ReachesEnd(left, right, (0, 0))
    ensures FromStart(left, right, rest + [(|left|, |right|)]) ==> ReachesEnd(left, right, (0, 0))
  {
    hide Transitions;
    if Searching(left, right, visited, []) && ReachesEnd(left, right, (0, 0)) {
      EndBehindPending(left, right, visited, [], (0, 0));
    }
    assert (|left|, |right|) in rest + [(|left|, |right|)];
    assert ReachesEnd(left, right, (|left|, |right|));
  }

  lemma {:induction false} SearchStarts(left: seq<string>, right: seq<string>)
    ensures Searching(left, right, {}, [(0, 0)]) && FromStart(left, right, [(0, 0)])
  {
  }

  function Positions(m: nat, n: nat): set<Position> {
    set i: nat, j: nat | i <= m && j <= n :: (i, j)
  }

  /** Both patterns can be walked to their ends together. */
  ghost predicate MayOverlap(left: string, right: string) {
    ReachesEnd(Split(left, '/'), Split(right, '/'), (0, 0))
  }

  /** `globPatternsMayOverlap`: true exactly when the end of both patterns is reachable. */
  method PatternsMayOverlap(leftPattern: string, rightPattern: string) returns (overlap: bool)
    ensures overlap <==> MayOverlap(leftPattern, rightPattern)
  {
    hide Transitions, Split, Searching, FromStart, ReachesEnd;
    var left, right := Split(leftPattern, '/'), Split(rightPattern, '/');
    var pending: seq<Position> := [(0, 0)];
    var visited: set<Position> := {};
    ghost var unvisited := Positions(|left|, |right|);
    SearchStarts(left, right);
    while pending != []
      invariant Searching(left, right, visited, pending) && FromStart(left, right, pending)
      invariant unvisited == Positions(|left|, |right|) - visited
      decreases |unvisited|, |pending|
    {
      var state := pending[|pending| - 1];
      ghost var before := pending;
      pending := pending[..|pending| - 1];
      assert before == pending + [state];
      if state in visited {
        Drop(left, right, visited, pending, state);
        continue;
      }
      if state.0 == |left| && state.1 == |right| {
        SearchEnds(left, right, visited, pending);
        return true;
      }
      Visit(left, right, visited, pending, state);
      visited := visited + {state};
      pending := pending + Transitions(left, right, state);
      unvisited := unvisited - {state};
    }
    SearchEnds(left, right, visited, []);
    overlap := false;
  }

  // ----- soundness --------------------------------------------------------

  /** Segment-wise acceptance, with `**` free to take any number of segments. */
  predicate Covers(pats: seq<string>, segs: seq<string>)
    decreases |pats| + |segs|
  {
    if pats == [] then segs == []
    else if pats[0] == "**" then Covers(pats[1..], segs) || (segs != [] && Covers(pats, segs[1..]))
    else segs != [] && Matches(pats[0], segs[0]) && Covers(pats[1..], segs[1..])
  }

  lemma {:induction false} DeepCoversAll(segs: seq<string>)
    ensures Covers(["**"], segs)
  {
    if segs != [] {
      DeepCoversAll(segs[1..]);
    }
  }

  lemma {:induction false} AcceptedIsCovered(pats: seq<string>, segs: seq<string>)
    requires SegmentsAccept(pats, segs)
    ensures Covers(pats, segs)
    decreases |pats| + |segs|
  {
    if pats[0] == "**" {
      if |pats| == 1 {
        assert pats == ["**"];
        DeepCoversAll(segs);
      } else if SegmentsAccept(pats[1..], segs) {
        AcceptedIsCovered(pats[1..], segs);
      } else {
        AcceptedIsCovered(pats, segs[1..]);
      }
    } else if |pats| > 1 {
      AcceptedIsCovered(pats[1..], segs[1..]);
    }
  }

  /**
   What the search takes two segments to have in common: it looks at the text of a literal
   one only, and lets any two with glob characters overlap.
   */
  predicate Fits(pat: string, segment: string) {
    if IsLiteral(segment) then Matches(pat, segment) else !IsLiteral(pat)
  }

  /** Segment-wise acceptance as the search has it. */
  predicate CoversBroadly(pats: seq<string>, segs: seq<string>)
    decreases |pats| + |segs|
  {
    if pats == [] then segs == []
    else if pats[0] == "**" then CoversBroadly(pats[1..], segs) || (segs != [] && CoversBroadly(pats, segs[1..]))
    else segs != [] && Fits(pats[0], segs[0]) && CoversBroadly(pats[1..], segs[1..])
  }

  /** The two differ only where a segment of the path itself has glob characters. */
  lemma {:induction false} CoveredBroadly(pats: seq<string>, segs: seq<string>)
    ensures Covers(pats, segs) ==> CoversBroadly(pats, segs)
    ensures (forall segment <- segs :: IsLiteral(segment)) ==> (Covers(pats, segs) <==> CoversBroadly(pats, segs))
    decreases |pats| + |segs|
  {
    hide Matches, IsLiteral;
    if pats != [] {
      if pats[0] == "**" { CoveredBroadly(pats[1..], segs); }
      if segs != [] {
        if IsLiteral(pats[0]) { LiteralMatchesItself(pats[0], segs[0]); }
        CoveredBroadly(if pats[0] == "**" then pats else pats[1..], segs[1..]);
      }
    }
  }

  lemma {:induction false} CommonSegment(left: string, right: string, segment: string)
    requires Fits(left, segment) && Fits(right, segment)
    ensures SegmentsMayOverlap(left, right)
  {
    hide Matches, IsLiteral;
    if IsLiteral(segment) && IsLiteral(left) { LiteralMatchesItself(left, segment); }
    if IsLiteral(segment) && IsLiteral(right) { LiteralMatchesItself(right, segment); }
  }

  /** A path covered by what is left of both patterns keeps the end reachable. */
  lemma {:induction false} CommonPathReachesEnd(left: seq<string>, right: seq<string>, at: Position, segs: seq<string>)
    requires InRange(left, right, at)
    requires CoversBroadly(left[at.0..], segs) && CoversBroadly(right[at.1..], segs)
    ensures ReachesEnd(left, right, at)
    decreases |left| + |right| - at.0 - at.1 + |segs|
  {
    hide Fits, SegmentsMayOverlap, Transitions;
    var (i, j) := at;
    var leftDeep, rightDeep := i < |left| && left[i] == "**", j < |right| && right[j] == "**";
    TransitionTable(left, right, at);
    if i < |left| { assert left[i..][1..] == left[i + 1..]; }
    if j < |right| { assert right[j..][1..] == right[j + 1..]; }
    if leftDeep && CoversBroadly(left[i + 1..], segs) {
      CommonPathReachesEnd(left, right, (i + 1, j), segs);
    } else if rightDeep && CoversBroadly(right[j + 1..], segs) {
      CommonPathReachesEnd(left, right, (i, j + 1), segs);
    } else if segs != [] {
      if leftDeep && rightDeep {
        CommonPathReachesEnd(left, right, at, segs[1..]);
      } else if leftDeep {
        CommonPathReachesEnd(left, right, (i, j + 1), segs[1..]);
      } else if rightDeep {
        CommonPathReachesEnd(left, right, (i + 1, j), segs[1..]);
      } else {
        CommonSegment(left[i], right[j], segs[0]);
        CommonPathReachesEnd(left, right, (i + 1, j + 1), segs[1..]);
      }
    }
  }

  /** Whatever the patterns: a path that both cover, segment by segment, is found. */
  lemma {:induction false} CoveredPathIsFound(left: string, right: string, path: string)
    requires CoversBroadly(Split(left, '/'), Split(path, '/')) && CoversBroadly(Split(right, '/'), Split(path, '/'))
    ensures MayOverlap(left, right)
  {
    hide CoversBroadly, ReachesEnd;
    var ls, rs := Split(left, '/'), Split(right, '/');
    assert ls[0..] == ls && rs[0..] == rs;
    CommonPathReachesEnd(ls, rs, (0, 0), Split(path, '/'));
  }

  /** An aligned pattern covers what it matches. */
  lemma {:induction false} AlignedCovers(pattern: string, path: string)
    requires Aligned(pattern) && Matches(pattern, path)
    ensures CoversBroadly(Split(pattern, '/'), Split(path, '/'))
  {
    AlignedMatchesBySegments(pattern, path);
    AcceptedIsCovered(Split(pattern, '/'), Split(path, '/'));
    CoveredBroadly(Split(pattern, '/'), Split(path, '/'));
  }

  /** No pattern in the aligned domain shares a path with one the search calls disjoint from it. */
  lemma {:induction false} OverlapSearchIsSound(left: string, right: string, path: string)
    requires Aligned(left) && Aligned(right)
    requires Matches(left, path) && Matches(right, path)
    ensures MayOverlap(left, right)
  {
    AlignedCovers(left, path);
    AlignedCovers(right, path);
    CoveredPathIsFound(left, right, path);
  }

  lemma {:induction false} GluedDeepTokens()
    ensures Tokens("a**b") == [Lit('a'), Deep, Lit('b')]
  {
    TokensUnfold("a**b");
    assert "a**b"[1..] == "**b";
    TokensUnfold("**b");
    assert "**b"[2..] == "b";
    TokensUnfold("b");
    assert "b"[1..] == "";
  }

  lemma {:induction false} DeepThenB(s: string)
    requires Clean(s)
    ensures Accepts([Deep, Lit('b')], s + "b")
    ensures 'b' !in s ==> !Accepts([Deep, Lit('b')], s)
  {
    var ts := [Deep, Lit('b')];
    assert ts[1..] == [Lit('b')] && [Lit('b')][1..] == [];
    if s == "" {
      assert s + "b" == "b" && "b"[1..] == "";
    } else {
      DeepThenB(s[1..]);
      assert (s + "b")[1..] == s[1..] + "b";
    }
  }

  lemma {:induction false} GluedDeepTakesSlash()
    ensures Matches("a**b", "ax/yb") && !Matches("a**b", "ax")
  {
    GluedDeepTokens();
    var ts := [Lit('a'), Deep, Lit('b')];
    assert ts[1..] == [Deep, Lit('b')];
    DeepThenB("x/y");
    DeepThenB("x");
    assert "ax/yb"[1..] == "x/y" + "b" && "ax"[1..] == "x";
  }

  lemma {:induction false} NegatedClassRead()
    ensures ReadToken("[!x]b") == (Class(true, [('x', 'x')]), 4)
  {
    var rest := "[!x]b";
    assert rest[3] == ']' && IndexOf(rest, ']', 3) == 3;
    assert IndexOf(rest, ']', 2) == 3;
    assert IndexOf(rest, ']', 1) == 3;
    assert rest[1..3] == "!x" && "!x"[1..] == "x" && "x"[1..] == "";
    assert Ranges("") == [];
    assert Ranges("x") == [('x', 'x')];
  }

  lemma {:induction false} NegatedClassTokens()
    ensures Tokens("a[!x]b") == [Lit('a'), Class(true, [('x', 'x')]), Lit('b')]
  {
    hide ReadBracket;
    TokensUnfold("a[!x]b");
    assert "a[!x]b"[1..] == "[!x]b";
    NegatedClassRead();
    TokensUnfold("[!x]b");
    assert "[!x]b"[4..] == "b";
    TokensUnfold("b");
    assert "b"[1..] == "";
  }

  lemma {:induction false} NegatedClassTakesSlash()
    ensures Matches("a[!x]b", "a/b") && !Matches("a[!x]b", "a")
  {
    NegatedClassTokens();
    var notX := Class(true, [('x', 'x')]);
    var ts := [Lit('a'), notX, Lit('b')];
    assert ts[1..] == [notX, Lit('b')] && [notX, Lit('b')][1..] == [Lit('b')] && [Lit('b')][1..] == [];
    assert "a/b"[1..] == "/b" && "/b"[1..] == "b" && "b"[1..] == "" && "a"[1..] == "";
    assert TakesOne(notX, '/');
    assert Accepts([Lit('b')], "b");
    assert Accepts([notX, Lit('b')], "/b");
    assert !Accepts([notX, Lit('b')], "");
  }

  /**
   Outside the domain the search is wrong: a glued `**` shares a path with a plain
   pattern the search calls disjoint from it.
   */
  lemma {:induction false} GluedDeepEscapes()
    ensures Matches("a**b", "ax/yb") && Matches("ax/yb", "ax/yb") && !MayOverlap("a**b", "ax/yb")
  {
    hide Matches, Split;
    LiteralMatchesItself("ax/yb", "ax/yb");
    GluedDeepTakesSlash();
    SplitTwo("ax", "yb");
    SplitOne("a**b");
    assert "ax" + "/" + "yb" == "ax/yb";
    assert Transitions(["a**b"], ["ax", "yb"], (0, 0)) == [];
  }

  /** So does a character class that takes `/`. */
  lemma {:induction false} SlashClassEscapes()
    ensures Matches("a[!x]b", "a/b") && Matches("a/b", "a/b") && !MayOverlap("a[!x]b", "a/b")
  {
    hide Matches, Split;
    LiteralMatchesItself("a/b", "a/b");
    NegatedClassTakesSlash();
    SplitTwo("a", "b");
    SplitOne("a[!x]b");
    assert "a" + "/" + "b" == "a/b";
    assert Transitions(["a[!x]b"], ["a", "b"], (0, 0)) == [];
  }

  lemma {:induction false} SplitOne(s: string)
    requires '/' !in s
    ensures Split(s, '/') == [s]
  {
    SplitJoin([s], '/');
  }

  lemma {:induction false} SplitTwo(a: string, b: string)
    requires '/' !in a && '/' !in b
    ensures Split(a + "/" + b, '/') == [a, b]
  {
    assert [a, b][1..] == [b];
    SplitJoin([a, b], '/');
  }

  lemma {:induction false} SelfReachesEnd(pats: seq<string>, i: nat)
    requires i <= |pats|
    ensures ReachesEnd(pats, pats, (i, i))
    decreases |pats| - i
  {
    hide Transitions;
    if i < |pats| {
      SelfReachesEnd(pats, i + 1);
      TransitionTable(pats, pats, (i, i));
      if pats[i] == "**" {
        TransitionTable(pats, pats, (i + 1, i));
        assert ReachesEnd(pats, pats, (i + 1, i));
      }
    }
  }

  /** A pattern overlaps itself, so an accepted policy has no glob twice. */
  lemma {:induction false} OverlapsItself(pattern: string)
    ensures MayOverlap(pattern, pattern)
  {
    SelfReachesEnd(Split(pattern, '/'), 0);
  }

  // ----- what the search finds ----------------------------------------------------------

  /** One segment can be meant by both: they are equal, one is the literal the other matches, or neither is literal. */
  predicate Alike(left: string, right: string) {
    || left == right || (!IsLiteral(left) && !IsLiteral(right))
    || (IsLiteral(left) && Matches(right, left)) || (IsLiteral(right) && Matches(left, right))
  }

  lemma {:induction false} AlikeExactly(left: string, right: string)
    ensures SegmentsMayOverlap(left, right) <==> Alike(left, right)
  {
    hide Matches, IsLiteral;
    if IsLiteral(left) && IsLiteral(right) {
      LiteralMatchesItself(left, right);
      LiteralMatchesItself(right, left);
    }
  }

  /** The patterns can be laid side by side, a `**` beside any number of segments and any other segment beside one alike. */
  predicate Together(left: seq<string>, right: seq<string>)
    decreases |left| + |right|
  {
    if left != [] && left[0] == "**" then Together(left[1..], right) || (right != [] && Together(left, right[1..]))
    else if right != [] && right[0] == "**" then Together(left, right[1..]) || (left != [] && Together(left[1..], right))
    else if left == [] || right == [] then left == right
    else Alike(left[0], right[0]) && Together(left[1..], right[1..])
  }

  /** One move of the search. */
  lemma {:induction false} OneMove(left: seq<string>, right: seq<string>, at: Position)
    requires InRange(left, right, at)
    ensures var (i, j) := at;
            var leftDeep, rightDeep := i < |left| && left[i] == "**", j < |right| && right[j] == "**";
            ReachesEnd(left, right, at) <==>
              || at == (|left|, |right|)
              || ((leftDeep || (rightDeep && i < |left|)) && ReachesEnd(left, right, (i + 1, j)))
              || ((rightDeep || (leftDeep && j < |right|)) && ReachesEnd(left, right, (i, j + 1)))
              || (!leftDeep && !rightDeep && i < |left| && j < |right| && Alike(left[i], right[j]) &&
                  ReachesEnd(left, right, (i + 1, j + 1)))
  {
    hide SegmentsMayOverlap, Transitions, Alike;
    var (i, j) := at;
    TransitionTable(left, right, at);
    if i < |left| && j < |right| { AlikeExactly(left[i], right[j]); }
    var next := Transitions(left, right, at);
    assert Offers(left, right, at, (i + 1, j)) <==> (i + 1, j) in next;
    assert Offers(left, right, at, (i, j + 1)) <==> (i, j + 1) in next;
    assert Offers(left, right, at, (i + 1, j + 1)) <==> (i + 1, j + 1) in next;
  }

  lemma {:induction false} ReachedTogether(left: seq<string>, right: seq<string>, at: Position)
    requires InRange(left, right, at)
    ensures ReachesEnd(left, right, at) <==> Together(left[at.0..], right[at.1..])
    decreases |left| + |right| - at.0 - at.1
  {
    hide ReachesEnd, Alike;
    var (i, j) := at;
    OneMove(left, right, at);
    if i < |left| {
      assert left[i..][1..] == left[i + 1..];
      ReachedTogether(left, right, (i + 1, j));
    }
    if j < |right| {
      assert right[j..][1..] == right[j + 1..];
      ReachedTogether(left, right, (i, j + 1));
    }
    if i < |left| && j < |right| { ReachedTogether(left, right, (i + 1, j + 1)); }
  }

  /** The search says that two patterns may overlap exactly when they can be laid side by side. */
  lemma {:induction false} SearchExactly(left: string, right: string)
    ensures MayOverlap(left, right) <==> Together(Split(left, '/'), Split(right, '/'))
  {
    hide ReachesEnd, Together;
    var ls, rs := Split(left, '/'), Split(right, '/');
    assert ls[0..] == ls && rs[0..] == rs;
    ReachedTogether(ls, rs, (0, 0));
  }
}
