/**
 Conflict-handler globs: how a pattern is read into tokens, and which paths the
 anchored regular expression built from those tokens accepts.
 */
module Globs {
  import opened Texts

  /** One token of a pattern; the comment gives the expression it becomes. */
  datatype Token =
    | Lit(c: char)                                             // the escaped character
    | AnyOne                                                   // [^/]
    | Class(negated: bool, ranges: seq<(char, char)>)          // [...] or [^...]
    | Star                                                     // [^/]*
    | Deep                                                     // .*
    | DeepSlash                                                // (?:.*/)?

  // ----- reading tokens ---------------------------------------------------

  function ReadStar(s: string): (Token, nat)
    requires s != "" && s[0] == '*'
  {
    if |s| < 2 || s[1] != '*' then (Star, 1)
    else if |s| > 2 && s[2] == '/' then (DeepSlash, 3)
    else (Deep, 2)
  }

  function ReadBracket(s: string): (Token, nat)
    requires s != "" && s[0] == '['
  {
    var closing := IndexOf(s, ']', 1);
    if closing == |s| || closing <= 1 then (Lit('['), 1)
    else
      var contents := s[1..closing];
      var negated := contents[0] == '!';
      var body := if negated then contents[1..] else contents;
      if body == "" || '/' in body then (Lit('['), 1)
      else (ClassOf(negated, body), closing + 1)
  }

  /** The class body as the regular-expression engine reads it: a leading `^` negates. */
  function ClassOf(negated: bool, body: string): Token
    requires body != ""
  {
    if !negated && body[0] == '^' then Class(true, Ranges(body[1..])) else Class(negated, Ranges(body))
  }

  function Ranges(body: string): seq<(char, char)> {
    if body == "" then []
    else if |body| > 2 && body[1] == '-' then [(body[0], body[2])] + Ranges(body[3..])
    else [(body[0], body[0])] + Ranges(body[1..])
  }

  /** The token at the start of `s` and the number of characters it takes. */
  function ReadToken(s: string): (r: (Token, nat))
    requires s != ""
    ensures 1 <= r.1 <= |s|
  {
    if s[0] == '*' then ReadStar(s)
    else if s[0] == '?' then (AnyOne, 1)
    else if s[0] == '[' then ReadBracket(s)
    else (Lit(s[0]), 1)
  }

  function Tokens(s: string): seq<Token> {
    if s == "" then [] else var read := ReadToken(s); [read.0] + Tokens(s[read.1..])
  }

  lemma {:induction false} TokensUnfold(s: string)
    requires s != ""
    ensures Tokens(s) == [ReadToken(s).0] + Tokens(s[ReadToken(s).1..])
  {
  }

  lemma {:induction false} NoTokens()
    ensures Tokens("") == []
  {
  }

  /** `globRegExp` without the regular-expression syntax: the loop over the pattern. */
  method ReadTokens(pattern: string) returns (tokens: seq<Token>)
    ensures tokens == Tokens(pattern)
  {
    hide Tokens, ReadToken;
    tokens := [];
    var index := 0;
    assert pattern[0..] == pattern;
    ghost var all := Tokens(pattern);
    while index < |pattern|
      invariant 0 <= index <= |pattern|
      invariant tokens + Tokens(pattern[index..]) == all
    {
      var rest := pattern[index..];
      var read := ReadToken(rest);
      TokensUnfold(rest);
      assert rest[read.1..] == pattern[index + read.1..];
      assert tokens + ([read.0] + Tokens(rest[read.1..])) == (tokens + [read.0]) + Tokens(rest[read.1..]);
      tokens, index := tokens + [read.0], index + read.1;
    }
    NoTokens();
    assert pattern[index..] == "";
  }

  /** The `RegExp` constructor throws when a range runs backwards. */
  predicate Compiles(tokens: seq<Token>) {
    forall t <- tokens :: t.Class? ==> forall r <- t.ranges :: r.0 <= r.1
  }

  // ----- matching ---------------------------------------------------------

  predicate LineTerminator(c: char) {
    c == '\n' || c == '\r' || c == '\U{2028}' || c == '\U{2029}'
  }

  /** What `.*` can run over. */
  predicate Clean(s: string) {
    forall c <- s :: !LineTerminator(c)
  }

  predicate TakesOne(t: Token, c: char) {
    match t
    case Lit(d) => c == d
    case AnyOne => c != '/'
    case Class(negated, ranges) => negated != exists r <- ranges :: r.0 <= c <= r.1
    case _ => false
  }

  predicate Accepts(ts: seq<Token>, s: string)
    decreases |ts|, |s|
  {
    if ts == [] then s == ""
    else match ts[0]
      case Star => Accepts(ts[1..], s) || (s != "" && s[0] != '/' && Accepts(ts, s[1..]))
      case Deep => Accepts(ts[1..], s) || (s != "" && !LineTerminator(s[0]) && Accepts(ts, s[1..]))
      case DeepSlash =>
        || Accepts(ts[1..], s)
        || exists k | 0 <= k < |s| :: s[k] == '/' && Clean(s[..k]) && Accepts(ts[1..], s[k + 1..])
      case t => s != "" && TakesOne(t, s[0]) && Accepts(ts[1..], s[1..])
  }

  /** `matchesGeneratedFileGlob`. */
  predicate Matches(pattern: string, path: string) {
    Accepts(Tokens(pattern), path)
  }

  /** A pattern with none of `?`, `*`, `[` is read literally. */
  predicate IsLiteral(segment: string) {
    '?' !in segment && '*' !in segment && '[' !in segment
  }

  lemma {:induction false} LiteralMatchesItself(segment: string, s: string)
    requires IsLiteral(segment)
    ensures Matches(segment, s) <==> s == segment
  {
    if segment != "" {
      assert segment[0] in segment;
      if s != "" {
        LiteralMatchesItself(segment[1..], s[1..]);
        assert s == [s[0]] + s[1..] && segment == [segment[0]] + segment[1..];
      }
    }
  }

  /**
   `matcherCache`: the module-level map from a pattern to its compiled matcher.
   */
  class MatcherCache {
    var matchers: map<string, seq<Token>>

    ghost predicate Valid()
      reads this
    {
      forall p <- matchers :: matchers[p] == Tokens(p)
    }

    constructor ()
      ensures Valid()
    {
      matchers := map[];
    }

    method Test(pattern: string, path: string) returns (matched: bool)
      requires Valid()
      modifies this
      ensures Valid() && matchers.Keys == old(matchers.Keys) + {pattern}
      ensures matched == Matches(pattern, path)
    {
      if pattern !in matchers {
        var tokens := ReadTokens(pattern);
        matchers := matchers[pattern := tokens];
      }
      matched := Accepts(matchers[pattern], path);
    }
  }
}
