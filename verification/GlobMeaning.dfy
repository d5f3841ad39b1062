/**
 What a glob matches, told on texts: a token list takes a text piece by piece, and a pattern can
 be read off its text without tokens.
 */
module GlobMeaning {
  import opened Texts
  import opened Globs

  // ----- token by token ---------------------------------------------------------

  /** No character that `.` leaves out. */
  predicate OneLine(s: string) {
    '\n' !in s && '\r' !in s && '\U{2028}' !in s && '\U{2029}' !in s
  }

  /** The piece of a text that one token takes. */
  predicate Piece(t: Token, p: string) {
    match t
    case Lit(c) => p == [c]
    case AnyOne => |p| == 1 && p[0] != '/'
    case Class(negated, ranges) =>
      |p| == 1 && if negated then forall r <- ranges :: p[0] < r.0 || r.1 < p[0] else exists r <- ranges :: r.0 <= p[0] <= r.1
    case Star => '/' !in p
    case Deep => OneLine(p)
    case DeepSlash => p == "" || (p[|p| - 1] == '/' && OneLine(p[..|p| - 1]))
  }

  function Concat(pieces: seq<string>): string {
    if pieces == [] then "" else pieces[0] + Concat(pieces[1..])
  }

  ghost predicate ArePieces(ts: seq<Token>, pieces: seq<string>, s: string) {
    |pieces| == |ts| && Concat(pieces) == s && forall i | 0 <= i < |ts| :: Piece(ts[i], pieces[i])
  }

  lemma {:induction false} CleanIsOneLine(s: string)
    ensures Clean(s) <==> OneLine(s)
  {
  }

  lemma {:induction false} OnePiece(t: Token, rest: seq<Token>, p: string, pieces: seq<string>, s: string)
    requires Piece(t, p) && ArePieces(rest, pieces, s)
    ensures ArePieces([t] + rest, [p] + pieces, p + s)
  {
    assert ([p] + pieces)[1..] == pieces;
  }

  /** A longer piece for a token that runs on. */
  lemma {:induction false} LongerPiece(ts: seq<Token>, pieces: seq<string>, c: char, s: string) returns (longer: seq<string>)
    requires ts != [] && ArePieces(ts, pieces, s) && Piece(ts[0], [c] + pieces[0])
    ensures ArePieces(ts, longer, [c] + s)
  {
    longer := [[c] + pieces[0]] + pieces[1..];
    assert longer[1..] == pieces[1..];
    assert ([c] + pieces[0]) + Concat(pieces[1..]) == [c] + (pieces[0] + Concat(pieces[1..]));
  }

  lemma {:induction false} NoPiece(ts: seq<Token>, pieces: seq<string>, s: string)
    requires ts != [] && Piece(ts[0], "") && ArePieces(ts[1..], pieces, s)
    ensures ArePieces(ts, [""] + pieces, s)
  {
    OnePiece(ts[0], ts[1..], "", pieces, s);
    assert ts == [ts[0]] + ts[1..] && "" + s == s;
  }

  lemma {:induction false} FirstPiece(ts: seq<Token>, k: nat, pieces: seq<string>, s: string)
    requires ts != [] && k <= |s| && Piece(ts[0], s[..k]) && ArePieces(ts[1..], pieces, s[k..])
    ensures ArePieces(ts, [s[..k]] + pieces, s)
  {
    OnePiece(ts[0], ts[1..], s[..k], pieces, s[k..]);
    assert ts == [ts[0]] + ts[1..] && s[..k] + s[k..] == s;
  }

  lemma {:induction false} SlashPiece(s: string, k: nat)
    requires k < |s| && s[k] == '/' && Clean(s[..k])
    ensures Piece(DeepSlash, s[..k + 1])
  {
    CleanIsOneLine(s[..k]);
    assert s[..k + 1][..k] == s[..k];
  }

  lemma {:induction false} AcceptedPieces(ts: seq<Token>, s: string) returns (pieces: seq<string>)
    requires Accepts(ts, s)
    ensures ArePieces(ts, pieces, s)
    decreases |ts|, |s|
  {
    if ts == [] {
      return [];
    }
    var t, rest := ts[0], ts[1..];
    if (t.Star? || t.Deep? || t.DeepSlash?) && Accepts(rest, s) {
      pieces := AcceptedPieces(rest, s);
      NoPiece(ts, pieces, s);
      pieces := [""] + pieces;
    } else if t.DeepSlash? {
      var k :| 0 <= k < |s| && s[k] == '/' && Clean(s[..k]) && Accepts(rest, s[k + 1..]);
      pieces := AcceptedPieces(rest, s[k + 1..]);
      SlashPiece(s, k);
      FirstPiece(ts, k + 1, pieces, s);
      pieces := [s[..k + 1]] + pieces;
    } else if t.Star? || t.Deep? {
      pieces := AcceptedPieces(ts, s[1..]);
      pieces := LongerPiece(ts, pieces, s[0], s[1..]);
      assert [s[0]] + s[1..] == s;
    } else {
      pieces := AcceptedPieces(rest, s[1..]);
      assert s[..1] == [s[0]];
      FirstPiece(ts, 1, pieces, s);
      pieces := [s[..1]] + pieces;
    }
  }

  lemma {:induction false} StarTakes(rest: seq<Token>, p: string, s: string)
    requires '/' !in p && Accepts(rest, s)
    ensures Accepts([Star] + rest, p + s)
  {
    var ts := [Star] + rest;
    assert ts[1..] == rest;
    if p == "" {
      assert p + s == s;
    } else {
      StarTakes(rest, p[1..], s);
      assert (p + s)[1..] == p[1..] + s && p[0] in p;
    }
  }

  lemma {:induction false} DeepTakes(rest: seq<Token>, p: string, s: string)
    requires OneLine(p) && Accepts(rest, s)
    ensures Accepts([Deep] + rest, p + s)
  {
    var ts := [Deep] + rest;
    assert ts[1..] == rest;
    if p == "" {
      assert p + s == s;
    } else {
      DeepTakes(rest, p[1..], s);
      assert (p + s)[1..] == p[1..] + s && p[0] in p;
    }
  }

  lemma {:induction false} DeepSlashTakes(rest: seq<Token>, p: string, s: string)
    requires Piece(DeepSlash, p) && Accepts(rest, s)
    ensures Accepts([DeepSlash] + rest, p + s)
  {
    assert ([DeepSlash] + rest)[1..] == rest;
    if p == "" {
      assert p + s == s;
    } else {
      var k := |p| - 1;
      CleanIsOneLine(p[..k]);
      assert (p + s)[k] == '/' && (p + s)[..k] == p[..k] && (p + s)[k + 1..] == s;
    }
  }

  lemma {:induction false} PiecesAccepted(ts: seq<Token>, pieces: seq<string>, s: string)
    requires ArePieces(ts, pieces, s)
    ensures Accepts(ts, s)
  {
    if ts != [] {
      var p, rest := pieces[0], Concat(pieces[1..]);
      assert ArePieces(ts[1..], pieces[1..], rest);
      PiecesAccepted(ts[1..], pieces[1..], rest);
      assert ts == [ts[0]] + ts[1..];
      match ts[0]
      case Star => StarTakes(ts[1..], p, rest);
      case Deep => DeepTakes(ts[1..], p, rest);
      case DeepSlash => DeepSlashTakes(ts[1..], p, rest);
      case _ => assert (p + rest)[1..] == rest && (p + rest)[0] == p[0];
    }
  }

  /** A token list accepts a text exactly when the text is one piece after the other, one for each token. */
  lemma {:induction false} AcceptsExactly(ts: seq<Token>, s: string)
    ensures Accepts(ts, s) <==> exists pieces :: ArePieces(ts, pieces, s)
  {
    if Accepts(ts, s) { var pieces := AcceptedPieces(ts, s); }
    if exists pieces :: ArePieces(ts, pieces, s) {
      var pieces :| ArePieces(ts, pieces, s);
      PiecesAccepted(ts, pieces, s);
    }
  }

  // ----- pattern by pattern --------------------------------------------------------

  lemma {:induction false} TokensThen(text: string, t: Token, rest: string)
    requires text != "" && ReadToken(text + rest) == (t, |text|)
    ensures Tokens(text + rest) == [t] + Tokens(rest) && ([t] + Tokens(rest))[1..] == Tokens(rest)
  {
    TokensUnfold(text + rest);
    assert (text + rest)[|text|..] == rest;
  }

  /** An ordinary character stands for itself. */
  lemma {:induction false} LiteralThen(c: char, rest: string, s: string)
    requires c != '*' && c != '?' && c != '['
    ensures Matches([c] + rest, s) <==> s != "" && s[0] == c && Matches(rest, s[1..])
  {
    TokensThen([c], Lit(c), rest);
  }

  /** `?` is any character but a `/`. */
  lemma {:induction false} AnyThen(rest: string, s: string)
    ensures Matches("?" + rest, s) <==> s != "" && s[0] != '/' && Matches(rest, s[1..])
  {
    TokensThen("?", AnyOne, rest);
  }

  /** `*` is any text without a `/`. */
  lemma {:induction false} StarThen(rest: string, s: string)
    requires rest == "" || rest[0] != '*'
    ensures Matches("*" + rest, s) <==> exists k | 0 <= k <= |s| :: '/' !in s[..k] && Matches(rest, s[k..])
  {
    TokensThen("*", Star, rest);
    if Matches("*" + rest, s) {
      var k := RunsUntil(Tokens(rest), s, Star);
    }
    if exists k | 0 <= k <= |s| :: '/' !in s[..k] && Matches(rest, s[k..]) {
      var k :| 0 <= k <= |s| && '/' !in s[..k] && Matches(rest, s[k..]);
      StarTakes(Tokens(rest), s[..k], s[k..]);
      assert s[..k] + s[k..] == s;
    }
  }

  /** `**` is any text of one line. */
  lemma {:induction false} DeepThen(rest: string, s: string)
    requires rest == "" || rest[0] != '/'
    ensures Matches("**" + rest, s) <==> exists k | 0 <= k <= |s| :: OneLine(s[..k]) && Matches(rest, s[k..])
  {
    TokensThen("**", Deep, rest);
    hide Tokens, Accepts;
    if Matches("**" + rest, s) {
      var k := RunsUntil(Tokens(rest), s, Deep);
    }
    if k :| 0 <= k <= |s| && OneLine(s[..k]) && Matches(rest, s[k..]) {
      DeepTakes(Tokens(rest), s[..k], s[k..]);
      assert s[..k] + s[k..] == s;
    }
  }

  lemma {:induction false} RunsUntil(rest: seq<Token>, s: string, t: Token) returns (k: nat)
    requires (t.Star? || t.Deep?) && Accepts([t] + rest, s)
    ensures k <= |s| && Piece(t, s[..k]) && Accepts(rest, s[k..])
  {
    var pieces := AcceptedPieces([t] + rest, s);
    k := |pieces[0]|;
    assert s[..k] == pieces[0] && s[k..] == Concat(pieces[1..]);
    assert ArePieces(rest, pieces[1..], s[k..]) by {
      assert forall i | 0 <= i < |rest| :: rest[i] == ([t] + rest)[i + 1];
    }
    PiecesAccepted(rest, pieces[1..], s[k..]);
  }

  /** `**` and a `/` are nothing at all, or any text of one line and a `/`. */
  lemma {:induction false} DeepSlashThen(rest: string, s: string)
    ensures Matches("**/" + rest, s) <==>
              Matches(rest, s) || exists k | 0 <= k < |s| :: s[k] == '/' && OneLine(s[..k]) && Matches(rest, s[k + 1..])
  {
    TokensThen("**/", DeepSlash, rest);
    forall k | 0 <= k < |s| ensures Clean(s[..k]) <==> OneLine(s[..k]) { CleanIsOneLine(s[..k]); }
  }

  /** The characters of a class, ends of ranges included. */
  predicate InClass(c: char, body: string) {
    if body == "" then false
    else if |body| > 2 && body[1] == '-' then body[0] <= c <= body[2] || InClass(c, body[3..])
    else c == body[0] || InClass(c, body[1..])
  }

  lemma {:induction false} RangesHold(c: char, body: string)
    ensures InClass(c, body) <==> exists r <- Ranges(body) :: r.0 <= c <= r.1
  {
    if body != "" {
      var n := if |body| > 2 && body[1] == '-' then 3 else 1;
      RangesHold(c, body[n..]);
      var first := if n == 3 then (body[0], body[2]) else (body[0], body[0]);
      assert Ranges(body) == [first] + Ranges(body[n..]);
      assert ([first] + Ranges(body[n..]))[0] == first;
    }
  }

  /** What may stand between the brackets of a class. */
  predicate IsBody(body: string) {
    body != "" && ']' !in body && '/' !in body
  }

  lemma {:induction false} ReadClass(body: string, negated: bool, rest: string)
    requires IsBody(body) && (!negated ==> body[0] != '!')
    ensures var text := "[" + (if negated then "!" else "") + body + "]";
            ReadToken(text + rest) == (ClassOf(negated, body), |text|)
  {
    var inside := (if negated then "!" else "") + body;
    var text := "[" + (if negated then "!" else "") + body + "]";
    assert text == "[" + inside + "]" && (inside[0] == '!' <==> negated);
    var whole := text + rest;
    assert forall k | 1 <= k < 1 + |inside| :: whole[k] == inside[k - 1];
    assert whole[1 + |inside|] == ']' && whole[0] == '[';
    FirstAt(whole, ']', 1, 1 + |inside|);
    assert whole[1..1 + |inside|] == inside;
    assert if negated then inside[1..] == body else inside == body;
  }

  lemma {:induction false} FirstAt(s: string, c: char, from: nat, at: nat)
    requires from <= at < |s| && s[at] == c && forall k | from <= k < at :: s[k] != c
    ensures IndexOf(s, c, from) == at
    decreases at - from
  {
    if from < at { FirstAt(s, c, from + 1, at); }
  }

  /** A class is one of its characters; after `!` or `^` it is any other. */
  lemma {:induction false} ClassThen(body: string, negated: bool, rest: string, s: string)
    requires IsBody(body) && (!negated ==> body[0] != '!')
    ensures Matches("[" + (if negated then "!" else "") + body + "]" + rest, s) <==>
              && s != "" && Matches(rest, s[1..])
              && if negated then !InClass(s[0], body)
                 else if body[0] == '^' then !InClass(s[0], body[1..])
                 else InClass(s[0], body)
  {
    var text := "[" + (if negated then "!" else "") + body + "]";
    ReadClass(body, negated, rest);
    TokensThen(text, ClassOf(negated, body), rest);
    if s != "" {
      RangesHold(s[0], body);
      RangesHold(s[0], body[1..]);
    }
  }

  /** What follows a bracket begins no class: nothing closes it, or what is inside may not be in one. */
  ghost predicate NoClass(rest: string) {
    ']' !in rest || exists inside, more: string :: ClosesBadly(rest, inside, more)
  }

  predicate ClosesBadly(rest: string, inside: string, more: string) {
    rest == inside + "]" + more && ']' !in inside && (inside == "" || inside == "!" || '/' in inside)
  }

  lemma {:induction false} NeverCloses(rest: string)
    requires ']' !in rest
    ensures ReadToken("[" + rest) == (Lit('['), 1)
  {
    var whole := "[" + rest;
    forall k | 1 <= k < |whole| ensures whole[k] != ']' {
      assert whole[k] == rest[k - 1] && rest[k - 1] in rest;
    }
    assert IndexOf(whole, ']', 1) == |whole|;
  }

  lemma {:induction false} ReadBadly(rest: string, inside: string, more: string)
    requires ClosesBadly(rest, inside, more)
    ensures ReadToken("[" + rest) == (Lit('['), 1)
  {
    var whole := "[" + rest;
    assert forall k | 1 <= k < 1 + |inside| :: whole[k] == inside[k - 1];
    assert whole[1 + |inside|] == ']';
    FirstAt(whole, ']', 1, 1 + |inside|);
    assert whole[1..1 + |inside|] == inside;
    if '/' in inside && inside[0] == '!' {
      var k :| 0 <= k < |inside| && inside[k] == '/';
      assert inside[1..][k - 1] == '/';
    }
  }

  /** A bracket that begins no class stands for itself. */
  lemma {:induction false} BracketThen(rest: string, s: string)
    requires NoClass(rest)
    ensures Matches("[" + rest, s) <==> s != "" && s[0] == '[' && Matches(rest, s[1..])
  {
    hide ReadToken;
    if ']' !in rest {
      NeverCloses(rest);
    } else {
      var inside, more: string :| ClosesBadly(rest, inside, more);
      ReadBadly(rest, inside, more);
    }
    TokensThen("[", Lit('['), rest);
  }

  /** The three wildcards by themselves. */
  lemma {:induction false} WildcardsMatch(s: string)
    ensures Matches("*", s) <==> '/' !in s
    ensures Matches("**", s) <==> OneLine(s)
    ensures Matches("?", s) <==> |s| == 1 && s[0] != '/'
  {
    assert "*" + "" == "*" && "**" + "" == "**" && "?" + "" == "?";
    NoTokens();
    StarThen("", s);
    DeepThen("", s);
    AnyThen("", s);
    assert s[..|s|] == s;
    assert forall k | 0 <= k <= |s| && Matches("", s[k..]) :: k == |s|;
  }

  /** A range compiles unless it runs backwards. */
  lemma {:induction false} RangeCompiles(a: char, b: char)
    requires a !in "!^/]" && b !in "/]"
    ensures Compiles(Tokens("[" + [a, '-', b] + "]")) <==> a <= b
  {
    var body, text := [a, '-', b], "[" + [a, '-', b] + "]";
    assert IsBody(body) && body[3..] == "";
    assert "[" + "" + body + "]" == text && text + "" == text;
    ReadClass(body, false, "");
    TokensThen(text, ClassOf(false, body), "");
    NoTokens();
    assert Ranges("") == [] && Ranges(body) == [(a, b)];
    hide ReadToken, Tokens;
    var t := ClassOf(false, body);
    assert Tokens(text) == [t] && t in [t] && (a, b) in [(a, b)];
  }
}
