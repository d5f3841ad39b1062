/**
 Reading a glob segment by segment.  The overlap search works on `/`-separated
 segments while the matcher works on characters; this module shows for which
 patterns the two readings agree.
 */
module GlobSegments {
  import opened Texts
  import opened Globs

  /** A token list that can only match text without a `/`. */
  predicate WithinSegment(ts: seq<Token>) {
    forall t <- ts :: !t.Deep? && !t.DeepSlash? && !TakesOne(t, '/')
  }

  predicate AlignedSegment(segment: string) {
    segment == "**" || WithinSegment(Tokens(segment))
  }

  /** `**` only as a whole segment, and no character class that takes `/`. */
  predicate Aligned(pattern: string) {
    forall segment <- Split(pattern, '/') :: AlignedSegment(segment)
  }

  /** The path-level meaning of a pattern, one segment at a time. */
  ghost predicate SegmentsAccept(pats: seq<string>, segs: seq<string>)
    decreases |pats| + |segs|
  {
    && |pats| > 0 && |segs| > 0
    && if pats[0] == "**" then
         if |pats| == 1 then forall s <- segs :: Clean(s)
         else
           || SegmentsAccept(pats[1..], segs)
           || (|segs| > 1 && Clean(segs[0]) && SegmentsAccept(pats, segs[1..]))
       else
         && Matches(pats[0], segs[0])
         && if |pats| == 1 then |segs| == 1 else SegmentsAccept(pats[1..], segs[1..])
  }

  // ----- tokenizing agrees ------------------------------------------------

  /** The token list of a pattern put together from its segments. */
  function Glue(pats: seq<string>): seq<Token>
    requires |pats| >= 1
  {
    if |pats| == 1 then Tokens(pats[0])
    else if pats[0] == "**" then [DeepSlash] + Glue(pats[1..])
    else Tokens(pats[0]) + [Lit('/')] + Glue(pats[1..])
  }

  lemma {:induction false} IndexOfBefore(s: string, tail: string, c: char, from: nat)
    requires from <= |s|
    ensures IndexOf(s, c, from) < |s| ==> IndexOf(s + tail, c, from) == IndexOf(s, c, from)
    ensures IndexOf(s, c, from) == |s| ==> IndexOf(s + tail, c, from) >= |s|
    decreases |s| - from
  {
    if from < |s| && s[from] != c {
      IndexOfBefore(s, tail, c, from + 1);
    }
  }

  /** A token inside a segment is the same token when more of the path follows the `/`. */
  lemma {:induction false} TokenBeforeSlash(s: string, rest: string)
    requires s != "" && '/' !in s && !ReadToken(s).0.Deep?
    ensures ReadToken(s + "/" + rest) == ReadToken(s)
  {
    var whole := s + "/" + rest;
    if s[0] == '[' {
      assert whole == s + ("/" + rest);
      IndexOfBefore(s, "/" + rest, ']', 1);
      var closing, closing' := IndexOf(s, ']', 1), IndexOf(whole, ']', 1);
      if closing < |s| {
        assert whole[1..closing] == s[1..closing];
      } else if closing' < |whole| {
        assert closing' > |s| >= 1;
        var contents := whole[1..closing'];
        assert contents[|s| - 1] == '/';
        if contents[0] == '!' && |s| > 1 {
          assert contents[1..][|s| - 2] == '/';
        }
      }
    }
  }

  lemma {:induction false} TokensBeforeSlash(s: string, rest: string)
    requires '/' !in s && WithinSegment(Tokens(s))
    ensures Tokens(s + "/" + rest) == Tokens(s) + [Lit('/')] + Tokens(rest)
  {
    var whole := s + "/" + rest;
    if s == "" {
      assert whole[1..] == rest;
    } else {
      var read := ReadToken(s);
      TokensUnfold(s);
      TokensUnfold(whole);
      assert read.0 in Tokens(s);
      TokenBeforeSlash(s, rest);
      var s' := s[read.1..];
      assert whole[read.1..] == s' + "/" + rest;
      assert forall t <- Tokens(s') :: t in Tokens(s);
      TokensBeforeSlash(s', rest);
    }
  }

  lemma {:induction false} TokensOfPattern(pats: seq<string>)
    requires |pats| >= 1 && forall p <- pats :: '/' !in p && AlignedSegment(p)
    ensures Tokens(Join(pats, '/')) == Glue(pats)
  {
    if |pats| > 1 {
      var rest := Join(pats[1..], '/');
      TokensOfPattern(pats[1..]);
      assert AlignedSegment(pats[0]);
      if pats[0] == "**" {
        var whole := "**" + "/" + rest;
        TokensUnfold(whole);
        assert ReadToken(whole) == (DeepSlash, 3) && whole[3..] == rest;
      } else {
        TokensBeforeSlash(pats[0], rest);
      }
    }
  }

  // ----- matching agrees --------------------------------------------------

  lemma {:induction false} WithinSegmentSplits(ts: seq<Token>, rest: seq<Token>, seg: string, tail: string)
    requires WithinSegment(ts) && '/' !in seg
    ensures Accepts(ts + [Lit('/')] + rest, seg + "/" + tail) <==> Accepts(ts, seg) && Accepts(rest, tail)
    decreases |ts|, |seg|
  {
    var whole, path := ts + [Lit('/')] + rest, seg + "/" + tail;
    if ts == [] {
      assert whole[1..] == rest;
      if seg == "" { assert path[1..] == tail; } else { assert path[0] == seg[0] && seg[0] in seg; }
    } else {
      assert ts[0] in ts && whole[1..] == ts[1..] + [Lit('/')] + rest;
      if ts[0].Star? { WithinSegmentSplits(ts[1..], rest, seg, tail); }
      if seg != "" {
        assert path[1..] == seg[1..] + "/" + tail;
        WithinSegmentSplits(if ts[0].Star? then ts else ts[1..], rest, seg[1..], tail);
      }
    }
  }

  lemma {:induction false} WithinSegmentStays(ts: seq<Token>, rest: seq<Token>, path: string)
    requires WithinSegment(ts)
    ensures '/' !in path ==> !Accepts(ts + [Lit('/')] + rest, path)
    ensures '/' in path ==> !Accepts(ts, path)
    decreases |ts|, |path|
  {
    var whole := ts + [Lit('/')] + rest;
    if ts != [] {
      assert ts[0] in ts && whole[1..] == ts[1..] + [Lit('/')] + rest;
      if ts[0].Star? { WithinSegmentStays(ts[1..], rest, path); }
      if path != "" {
        WithinSegmentStays(if ts[0].Star? then ts else ts[1..], rest, path[1..]);
      }
    }
  }

  lemma {:induction false} DeepRunsOverClean(s: string)
    ensures Accepts([Deep], s) <==> Clean(s)
  {
    if s != "" {
      DeepRunsOverClean(s[1..]);
      assert s == [s[0]] + s[1..];
    }
  }

  ghost predicate SlashAt(rest: seq<Token>, path: string, k: int) {
    0 <= k < |path| && path[k] == '/' && Clean(path[..k]) && Accepts(rest, path[k + 1..])
  }

  lemma {:induction false} DeepSlashMeans(rest: seq<Token>, path: string)
    ensures Accepts([DeepSlash] + rest, path) <==> Accepts(rest, path) || exists k :: SlashAt(rest, path, k)
  {
    assert ([DeepSlash] + rest)[1..] == rest;
    if exists k :: SlashAt(rest, path, k) {
      var k :| SlashAt(rest, path, k);
      assert path[k] == '/';
    }
    if Accepts([DeepSlash] + rest, path) && !Accepts(rest, path) {
      var k :| 0 <= k < |path| && path[k] == '/' && Clean(path[..k]) && Accepts(rest, path[k + 1..]);
      assert SlashAt(rest, path, k);
    }
  }

  lemma {:induction false} CleanConcat(a: string, b: string)
    ensures Clean(a + b) <==> Clean(a) && Clean(b)
  {
    assert forall c <- a :: c in a + b;
    assert forall c <- b :: c in a + b;
  }

  lemma {:induction false} SlashAtShift(rest: seq<Token>, seg: string, tail: string, k: int)
    requires '/' !in seg
    ensures SlashAt(rest, seg + "/" + tail, k) <==>
            Clean(seg) && if k == |seg| then Accepts(rest, tail) else SlashAt(rest, tail, k - |seg| - 1)
  {
    var path := seg + "/" + tail;
    if 0 <= k < |seg| {
      assert path[k] == seg[k] && seg[k] in seg;
    } else if k == |seg| {
      assert path[..k] == seg && path[k + 1..] == tail;
    } else if |seg| < k < |path| {
      var j := k - |seg| - 1;
      assert path[..k] == seg + ("/" + tail[..j]) && path[k + 1..] == tail[j + 1..];
      CleanConcat(seg, "/" + tail[..j]);
      CleanConcat("/", tail[..j]);
    }
  }

  /** `(?:.*\/)?` either stands aside or takes whole leading segments. */
  lemma {:induction false} DeepSlashStep(rest: seq<Token>, seg: string, tail: string)
    requires '/' !in seg
    ensures var ts, path := [DeepSlash] + rest, seg + "/" + tail;
            Accepts(ts, path) <==> Accepts(rest, path) || (Clean(seg) && Accepts(ts, tail))
  {
    var path := seg + "/" + tail;
    DeepSlashMeans(rest, path);
    DeepSlashMeans(rest, tail);
    if Clean(seg) && Accepts(rest, tail) {
      SlashAtShift(rest, seg, tail, |seg|);
    } else if Clean(seg) && exists j :: SlashAt(rest, tail, j) {
      var j :| SlashAt(rest, tail, j);
      SlashAtShift(rest, seg, tail, |seg| + 1 + j);
    }
    if exists k :: SlashAt(rest, path, k) {
      var k :| SlashAt(rest, path, k);
      SlashAtShift(rest, seg, tail, k);
    }
  }

  lemma {:induction false} CleanJoin(segs: seq<string>)
    requires |segs| >= 1
    ensures Clean(Join(segs, '/')) <==> forall s <- segs :: Clean(s)
  {
    assert segs == [segs[0]] + segs[1..];
    if |segs| > 1 {
      var rest := Join(segs[1..], '/');
      CleanJoin(segs[1..]);
      CleanConcat(segs[0] + "/", rest);
      CleanConcat(segs[0], "/");
    }
  }

  lemma {:induction false} SlashInJoin(segs: seq<string>)
    requires |segs| >= 1 && forall s <- segs :: '/' !in s
    ensures '/' in Join(segs, '/') <==> |segs| > 1
  {
  }

  /** The tokens of an aligned pattern accept exactly what its segments accept. */
  lemma {:induction false} GlueAccepts(pats: seq<string>, segs: seq<string>)
    requires |pats| >= 1 && |segs| >= 1
    requires forall p <- pats :: '/' !in p && AlignedSegment(p)
    requires forall s <- segs :: '/' !in s
    ensures Accepts(Glue(pats), Join(segs, '/')) <==> SegmentsAccept(pats, segs)
    decreases |pats| + |segs|
  {
    var path := Join(segs, '/');
    assert AlignedSegment(pats[0]);
    SlashInJoin(segs);
    if pats[0] == "**" {
      if |pats| == 1 {
        assert Tokens("**") == [Deep] by { TokensUnfold("**"); }
        DeepRunsOverClean(path);
        CleanJoin(segs);
      } else {
        var rest := Glue(pats[1..]);
        GlueAccepts(pats[1..], segs);
        if |segs| > 1 {
          DeepSlashStep(rest, segs[0], Join(segs[1..], '/'));
          GlueAccepts(pats, segs[1..]);
        } else {
          assert ([DeepSlash] + rest)[1..] == rest;
        }
      }
    } else if |pats| == 1 {
      WithinSegmentStays(Tokens(pats[0]), [], path);
    } else {
      var rest := Glue(pats[1..]);
      WithinSegmentStays(Tokens(pats[0]), rest, path);
      if |segs| > 1 {
        WithinSegmentSplits(Tokens(pats[0]), rest, segs[0], Join(segs[1..], '/'));
        GlueAccepts(pats[1..], segs[1..]);
      }
    }
  }

  /**
   On an aligned pattern the character-level matcher and the segment-level
   reading are the same relation, for every path.
   */
  lemma {:induction false} AlignedMatchesBySegments(pattern: string, path: string)
    requires Aligned(pattern)
    ensures Matches(pattern, path) <==> SegmentsAccept(Split(pattern, '/'), Split(path, '/'))
  {
    TokensOfPattern(Split(pattern, '/'));
    GlueAccepts(Split(pattern, '/'), Split(path, '/'));
  }
}
