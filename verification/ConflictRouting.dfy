/**
 The conflict-handler policy: which rule sets are accepted, and how an accepted
 rule set routes every conflict of a conflict set.
 */
module ConflictRouting {
  import opened Wrappers
  import opened Texts
  import opened Globs
  import opened GlobSchemas
  import opened GlobSegments
  import opened GlobOverlap

  datatype Rule = Rule(glob: string, outputs: seq<string>, handler: seq<string>)

  datatype PolicyError = BadGlob(glob: string) | LockfileOverridden | AmbiguousGlobs(first: string, second: string)

  const LOCKFILE := "pnpm-lock.yaml"

  // ----- accepting a policy -----------------------------------------------

  /** `matchingGeneratedFileRules`. */
  function MatchingRules(path: string, rules: seq<Rule>): seq<Rule> {
    if rules == [] then []
    else (if Matches(rules[0].glob, path) then [rules[0]] else []) + MatchingRules(path, rules[1..])
  }

  lemma {:induction false} MatchingRulesAreMatches(path: string, rules: seq<Rule>)
    ensures forall r :: r in MatchingRules(path, rules) <==> r in rules && Matches(r.glob, path)
    ensures |MatchingRules(path, rules)| > 1 ==>
              exists i, j :: 0 <= i < j < |rules| && Matches(rules[i].glob, path) && Matches(rules[j].glob, path)
  {
    hide Matches;
    if rules != [] {
      var tail := rules[1..];
      MatchingRulesAreMatches(path, tail);
      assert rules == [rules[0]] + tail;
      if |MatchingRules(path, tail)| > 1 {
        var i, j :| 0 <= i < j < |tail| && Matches(tail[i].glob, path) && Matches(tail[j].glob, path);
        assert rules[i + 1] == tail[i] && rules[j + 1] == tail[j];
      } else if |MatchingRules(path, rules)| > 1 {
        var r := MatchingRules(path, tail)[0];
        assert r in MatchingRules(path, tail);
        var j :| 0 <= j < |tail| && tail[j] == r;
        assert rules[j + 1] == r;
      }
    }
  }

  ghost predicate Disjoint(rules: seq<Rule>, i: nat, j: nat)
    requires i < |rules| && j < |rules|
  {
    !MayOverlap(rules[i].glob, rules[j].glob)
  }

  ghost predicate Accepted(rules: seq<Rule>) {
    && (forall r <- rules :: Compiles(Tokens(r.glob)))
    && (forall r <- rules :: !Matches(r.glob, LOCKFILE))
    && (forall i, j | 0 <= i < j < |rules| :: Disjoint(rules, i, j))
  }

  method FirstBadGlob(rules: seq<Rule>) returns (bad: Option<string>)
    ensures bad.None? <==> forall r <- rules :: Compiles(Tokens(r.glob))
    ensures bad.Some? ==> !Compiles(Tokens(bad.value)) && exists r <- rules :: bad.value == r.glob
  {
    hide Compiles, Tokens;
    for i := 0 to |rules|
      invariant forall k | 0 <= k < i :: Compiles(Tokens(rules[k].glob))
    {
      if !Compiles(Tokens(rules[i].glob)) {
        assert rules[i] in rules;
        return Some(rules[i].glob);
      }
    }
    bad := None;
  }

  /** The two globs are those of an earlier and a later rule that the search lets overlap. */
  ghost predicate Ambiguous(rules: seq<Rule>, first: string, second: string) {
    exists i, j | 0 <= i < j < |rules| :: first == rules[i].glob && second == rules[j].glob && !Disjoint(rules, i, j)
  }

  method FirstAmbiguity(rules: seq<Rule>) returns (pair: Option<(string, string)>)
    ensures pair.None? <==> forall i, j | 0 <= i < j < |rules| :: Disjoint(rules, i, j)
    ensures pair.Some? ==> Ambiguous(rules, pair.value.0, pair.value.1)
  {
    hide MayOverlap;
    for i := 0 to |rules|
      invariant forall k, m | 0 <= k < i && k < m < |rules| :: Disjoint(rules, k, m)
    {
      for j := i + 1 to |rules|
        invariant forall m | i < m < j :: Disjoint(rules, i, m)
      {
        var overlap := PatternsMayOverlap(rules[i].glob, rules[j].glob);
        if overlap {
          assert !Disjoint(rules, i, j);
          return Some((rules[i].glob, rules[j].glob));
        }
      }
    }
    pair := None;
  }

  /**
   `assertConflictHandlerPolicy`.  Compiling every glob comes first, because the
   lockfile test builds a matcher for every rule.
   */
  method AcceptPolicy(rules: seq<Rule>) returns (r: Result<seq<Rule>, PolicyError>)
    ensures r.Ok? <==> Accepted(rules)
    ensures r.Ok? ==> r.value == rules
    ensures r.Err? && r.error.BadGlob? ==> !Compiles(Tokens(r.error.glob)) && exists rule <- rules :: r.error.glob == rule.glob
    ensures r.Err? && r.error.AmbiguousGlobs? ==> Ambiguous(rules, r.error.first, r.error.second)
    ensures r == Err(LockfileOverridden) ==> exists rule <- rules :: Matches(rule.glob, LOCKFILE)
  {
    hide MayOverlap, Compiles, Tokens, Matches, Ambiguous;
    var bad := FirstBadGlob(rules);
    if bad.Some? { return Err(BadGlob(bad.value)); }
    MatchingRulesAreMatches(LOCKFILE, rules);
    var overriding := MatchingRules(LOCKFILE, rules);
    if |overriding| > 0 {
      assert overriding[0] in overriding;
      return Err(LockfileOverridden);
    }
    assert forall rule <- rules :: rule !in overriding;
    var pair := FirstAmbiguity(rules);
    r := if pair.Some? then Err(AmbiguousGlobs(pair.value.0, pair.value.1)) else Ok(rules);
  }

  // ----- routing conflicts ------------------------------------------------

  datatype Conflict = Conflict(path: string, stage: nat)

  datatype Group = Group(rule: Rule, conflicts: seq<Conflict>)

  datatype Classified = Classified(agent: seq<Conflict>, generated: seq<Group>, lockfile: seq<Conflict>)

  datatype RoutingError = LockfileRuled | MultipleHandlers(path: string)

  datatype Route = ToLockfile | ToAgent | ToHandler(rule: Rule) | Refused(error: RoutingError)

  /** Where one conflict goes. */
  function RouteOf(path: string, rules: seq<Rule>): Route {
    var matching := MatchingRules(path, rules);
    if path == LOCKFILE then if |matching| > 0 then Refused(LockfileRuled) else ToLockfile
    else if |matching| > 1 then Refused(MultipleHandlers(path))
    else if |matching| == 1 then ToHandler(matching[0])
    else ToAgent
  }

  /** The conflicts sent one way, in their original order. */
  function Sent(conflicts: seq<Conflict>, rules: seq<Rule>, way: Route): seq<Conflict> {
    if conflicts == [] then []
    else
      var last := conflicts[|conflicts| - 1];
      Sent(conflicts[..|conflicts| - 1], rules, way) + (if RouteOf(last.path, rules) == way then [last] else [])
  }

  /** The rules conflicts are sent to, each once, in order of first use. */
  function HandlerOrder(conflicts: seq<Conflict>, rules: seq<Rule>): seq<Rule> {
    if conflicts == [] then []
    else
      var before := HandlerOrder(conflicts[..|conflicts| - 1], rules);
      var way := RouteOf(conflicts[|conflicts| - 1].path, rules);
      if way.ToHandler? then AddRule(before, way.rule) else before
  }

  /** At the end, unless it is there already. */
  function AddRule(order: seq<Rule>, rule: Rule): seq<Rule> {
    if order == [] then [rule] else if order[0] == rule then order else [order[0]] + AddRule(order[1..], rule)
  }

  /** One group for each rule, holding the conflicts sent to it. */
  function GroupsFor(order: seq<Rule>, conflicts: seq<Conflict>, rules: seq<Rule>): seq<Group> {
    if order == [] then []
    else [Group(order[0], Sent(conflicts, rules, ToHandler(order[0])))] + GroupsFor(order[1..], conflicts, rules)
  }

  /** The classification a conflict set must get: every list filtered from the input. */
  function Classification(conflicts: seq<Conflict>, rules: seq<Rule>): Classified {
    Classified(Sent(conflicts, rules, ToAgent),
               GroupsFor(HandlerOrder(conflicts, rules), conflicts, rules),
               Sent(conflicts, rules, ToLockfile))
  }

  /** `generated.set(rule.match, ...)` on the insertion-ordered map. */
  function AddToGroup(groups: seq<Group>, rule: Rule, conflict: Conflict): seq<Group> {
    if groups == [] then [Group(rule, [conflict])]
    else if groups[0].rule.glob == rule.glob then [Group(rule, groups[0].conflicts + [conflict])] + groups[1..]
    else [groups[0]] + AddToGroup(groups[1..], rule, conflict)
  }

  function Flatten(groups: seq<Group>): seq<Conflict> {
    if groups == [] then [] else groups[0].conflicts + Flatten(groups[1..])
  }

  /** `classifyConflicts` on a parsed conflict set; the first refused conflict ends it. */
  method ClassifyConflicts(conflicts: seq<Conflict>, rules: seq<Rule>) returns (r: Result<Classified, RoutingError>)
    ensures r.Ok? <==> forall c <- conflicts :: !RouteOf(c.path, rules).Refused?
    ensures r.Ok? ==> r.value == Classification(conflicts, rules)
    ensures r.Err? ==> exists c <- conflicts :: RouteOf(c.path, rules) == Refused(r.error)
  {
    hide MatchingRules, Sent, HandlerOrder, GroupsFor, AddToGroup;
    var agent, lockfile, generated := [], [], [];
    ClassifiedEmpty(rules);
    for i := 0 to |conflicts|
      invariant forall k | 0 <= k < i :: !RouteOf(conflicts[k].path, rules).Refused?
      invariant Classified(agent, generated, lockfile) == Classification(conflicts[..i], rules)
    {
      var conflict := conflicts[i];
      assert conflict in conflicts && conflicts[..i + 1] == conflicts[..i] + [conflict];
      var matching := MatchingRules(conflict.path, rules);
      if conflict.path == LOCKFILE {
        if |matching| > 0 { return Err(LockfileRuled); }
        lockfile := lockfile + [conflict];
      } else if |matching| > 1 {
        return Err(MultipleHandlers(conflict.path));
      } else if |matching| == 0 {
        agent := agent + [conflict];
      } else {
        generated := AddToGroup(generated, matching[0], conflict);
      }
      ClassificationStep(conflicts[..i], conflict, rules);
    }
    assert conflicts[..|conflicts|] == conflicts;
    r := Ok(Classified(agent, generated, lockfile));
  }

  lemma {:induction false} MatchingRuleIsUnique(path: string, rules: seq<Rule>, rule: Rule)
    requires RouteOf(path, rules).ToHandler?
    requires rule in rules && rule.glob == RouteOf(path, rules).rule.glob
    ensures rule == RouteOf(path, rules).rule
  {
    MatchingRulesAreMatches(path, rules);
    var matching := MatchingRules(path, rules);
    assert matching == [matching[0]] && matching[0] in matching && rule in matching;
  }

  lemma {:induction false} AddedRule(order: seq<Rule>, rule: Rule)
    requires forall i, j | 0 <= i < j < |order| :: order[i] != order[j]
    ensures var after := AddRule(order, rule);
            && (forall r :: r in after <==> r in order || r == rule)
            && (forall i, j | 0 <= i < j < |after| :: after[i] != after[j])
  {
    if order != [] && order[0] != rule {
      var first, tail := order[0], order[1..];
      AddedRule(tail, rule);
      assert order == [first] + tail && first !in tail;
    }
  }

  lemma {:induction false} HandlersUsed(conflicts: seq<Conflict>, rules: seq<Rule>)
    ensures var order := HandlerOrder(conflicts, rules);
            && (forall r <- order :: r in rules)
            && (forall i, j | 0 <= i < j < |order| :: order[i] != order[j])
            && (forall r :: r !in order ==> Sent(conflicts, rules, ToHandler(r)) == [])
  {
    if conflicts != [] {
      var last := conflicts[|conflicts| - 1];
      HandlersUsed(conflicts[..|conflicts| - 1], rules);
      MatchingRulesAreMatches(last.path, rules);
      var matching := MatchingRules(last.path, rules);
      if |matching| == 1 {
        assert matching[0] in matching;
        AddedRule(HandlerOrder(conflicts[..|conflicts| - 1], rules), matching[0]);
      }
    }
  }

  lemma {:induction false} SentAfter(before: seq<Conflict>, c: Conflict, rules: seq<Rule>, way: Route)
    ensures Sent(before + [c], rules, way) ==
            if RouteOf(c.path, rules) == way then Sent(before, rules, way) + [c] else Sent(before, rules, way)
  {
    assert (before + [c])[..|before|] == before;
  }

  lemma {:induction false} GroupsAfter(order: seq<Rule>, before: seq<Conflict>, c: Conflict, rule: Rule, rules: seq<Rule>)
    requires RouteOf(c.path, rules) == ToHandler(rule)
    requires forall i, j | 0 <= i < j < |order| :: order[i] != order[j]
    requires forall r <- order :: r.glob == rule.glob ==> r == rule
    requires rule !in order ==> Sent(before, rules, ToHandler(rule)) == []
    ensures AddToGroup(GroupsFor(order, before, rules), rule, c) == GroupsFor(AddRule(order, rule), before + [c], rules)
  {
    hide Sent, RouteOf;
    if order == [] {
      SentAfter(before, c, rules, ToHandler(rule));
      assert Sent(before, rules, ToHandler(rule)) + [c] == [c] && [rule][1..] == [];
      return;
    }
    var first, tail := order[0], order[1..];
    SentAfter(before, c, rules, ToHandler(first));
    assert GroupsFor(order, before, rules)[1..] == GroupsFor(tail, before, rules);
    if rule == first {
      GroupsUntouched(tail, before, c, rules);
    } else {
      GroupsAfter(tail, before, c, rule, rules);
      assert ([first] + AddRule(tail, rule))[1..] == AddRule(tail, rule);
    }
  }

  lemma {:induction false} GroupsUntouched(order: seq<Rule>, before: seq<Conflict>, c: Conflict, rules: seq<Rule>)
    requires forall r <- order :: RouteOf(c.path, rules) != ToHandler(r)
    ensures GroupsFor(order, before + [c], rules) == GroupsFor(order, before, rules)
  {
    if order != [] {
      assert order[0] in order;
      SentAfter(before, c, rules, ToHandler(order[0]));
      GroupsUntouched(order[1..], before, c, rules);
    }
  }

  lemma {:induction false} ClassificationStep(before: seq<Conflict>, c: Conflict, rules: seq<Rule>)
    requires !RouteOf(c.path, rules).Refused?
    ensures var old', new', way := Classification(before, rules), Classification(before + [c], rules), RouteOf(c.path, rules);
            && new'.agent == old'.agent + (if way.ToAgent? then [c] else [])
            && new'.lockfile == old'.lockfile + (if way.ToLockfile? then [c] else [])
            && new'.generated == if way.ToHandler? then AddToGroup(old'.generated, way.rule, c) else old'.generated
  {
    assert (before + [c])[..|before|] == before;
    HandlersUsed(before, rules);
    SentAfter(before, c, rules, ToAgent);
    SentAfter(before, c, rules, ToLockfile);
    var way, order := RouteOf(c.path, rules), HandlerOrder(before, rules);
    if way.ToHandler? {
      forall r | r in order && r.glob == way.rule.glob ensures r == way.rule {
        MatchingRuleIsUnique(c.path, rules, r);
      }
      GroupsAfter(order, before, c, way.rule, rules);
    } else {
      GroupsUntouched(order, before, c, rules);
    }
  }

  lemma {:induction false} AddedOnce(groups: seq<Group>, rule: Rule, c: Conflict)
    ensures multiset(Flatten(AddToGroup(groups, rule, c))) == multiset(Flatten(groups)) + multiset{c}
  {
    var after := AddToGroup(groups, rule, c);
    if groups == [] {
      assert after[1..] == [];
    } else if groups[0].rule.glob == rule.glob {
      assert after[1..] == groups[1..];
    } else {
      AddedOnce(groups[1..], rule, c);
      assert after[1..] == AddToGroup(groups[1..], rule, c);
    }
  }

  lemma {:induction false} ClassifiedEmpty(rules: seq<Rule>)
    ensures Classification([], rules) == Classified([], [], [])
  {
  }

  /** Agent, lockfile and generated groups together hold every conflict as often as the input does. */
  lemma {:induction false} NothingLostOrRepeated(conflicts: seq<Conflict>, rules: seq<Rule>)
    requires forall c <- conflicts :: !RouteOf(c.path, rules).Refused?
    ensures var c := Classification(conflicts, rules);
            multiset(c.agent) + multiset(c.lockfile) + multiset(Flatten(c.generated)) == multiset(conflicts)
  {
    hide Sent, HandlerOrder, GroupsFor, RouteOf, AddToGroup;
    if conflicts == [] {
      ClassifiedEmpty(rules);
    } else {
      var before, last := conflicts[..|conflicts| - 1], conflicts[|conflicts| - 1];
      assert conflicts == before + [last];
      NothingLostOrRepeated(before, rules);
      ClassificationStep(before, last, rules);
      var way := RouteOf(last.path, rules);
      if way.ToHandler? {
        AddedOnce(Classification(before, rules).generated, way.rule, last);
      }
    }
  }

  // ----- an accepted policy routes everything -----------------------------

  /**
   Under an accepted policy a path is refused by none, and goes to a rule's handler exactly
   when the rule's glob matches it, unless some glob matches the path without covering it.
   */
  lemma {:induction false} CoveredPathIsRouted(rules: seq<Rule>, path: string)
    requires Accepted(rules)
    requires forall r <- rules :: Matches(r.glob, path) ==> CoversBroadly(Split(r.glob, '/'), Split(path, '/'))
    ensures !RouteOf(path, rules).Refused?
    ensures forall r <- rules :: RouteOf(path, rules) == ToHandler(r) <==> Matches(r.glob, path)
    ensures RouteOf(path, rules) == ToLockfile <==> path == LOCKFILE
  {
    hide MayOverlap, CoversBroadly, Matches;
    MatchingRulesAreMatches(path, rules);
    var matching := MatchingRules(path, rules);
    if |matching| > 1 {
      var i, j :| 0 <= i < j < |rules| && Matches(rules[i].glob, path) && Matches(rules[j].glob, path);
      assert Disjoint(rules, i, j);
      CoveredPathIsFound(rules[i].glob, rules[j].glob, path);
      assert false;
    }
    if |matching| == 1 {
      assert matching == [matching[0]] && matching[0] in matching;
    }
    assert forall r <- matching :: r in rules;
  }

  /** So an accepted policy of aligned globs refuses nothing. */
  lemma {:induction false} AcceptedPolicyRoutesEverything(rules: seq<Rule>, path: string)
    requires Accepted(rules) && forall r <- rules :: Aligned(r.glob)
    ensures !RouteOf(path, rules).Refused?
    ensures forall r <- rules :: RouteOf(path, rules) == ToHandler(r) <==> Matches(r.glob, path)
    ensures RouteOf(path, rules) == ToLockfile <==> path == LOCKFILE
  {
    hide Accepted, Aligned, CoversBroadly, Matches, RouteOf;
    forall r <- rules | Matches(r.glob, path) ensures CoversBroadly(Split(r.glob, '/'), Split(path, '/')) {
      AlignedCovers(r.glob, path);
    }
    CoveredPathIsRouted(rules, path);
  }

  lemma {:induction false} LiteralGlob(glob: string)
    requires IsLiteral(glob)
    ensures Compiles(Tokens(glob)) && (glob != LOCKFILE ==> !Matches(glob, LOCKFILE))
  {
    LiteralMatchesItself(glob, LOCKFILE);
    LiteralTokens(glob);
  }

  lemma {:induction false} LiteralTokens(glob: string)
    requires IsLiteral(glob)
    ensures forall t <- Tokens(glob) :: t.Lit?
  {
    if glob != "" {
      assert glob[0] in glob;
      TokensUnfold(glob);
      LiteralTokens(glob[1..]);
    }
  }

  /** Two globs on the name of a file starting with `a`, one of them literal, that the search calls disjoint. */
  lemma {:induction false} TwoRulesAccepted(setup: Rule, other: Rule)
    requires !MayOverlap(setup.glob, other.glob) && IsLiteral(other.glob) && other.glob != LOCKFILE
    requires Compiles(Tokens(setup.glob)) && |Tokens(setup.glob)| > 0 && Tokens(setup.glob)[0] == Lit('a')
    ensures Accepted([setup, other])
  {
    hide Compiles, Tokens, MayOverlap;
    LiteralGlob(other.glob);
    assert !Matches(setup.glob, LOCKFILE);
    assert Disjoint([setup, other], 0, 1);
  }

  lemma {:induction false} BothRefuse(setup: Rule, other: Rule, path: string)
    requires Matches(setup.glob, path) && Matches(other.glob, path) && path != LOCKFILE
    ensures RouteOf(path, [setup, other]) == Refused(MultipleHandlers(path))
  {
    hide Matches;
    assert [setup, other][1..] == [other] && [other][1..] == [];
    assert MatchingRules(path, [other]) == [other];
  }

  predicate Simple(segment: string) {
    segment != "" && forall c <- segment :: c !in "/.\\\0"
  }

  lemma {:induction false} OneSimple(a: string)
    requires Simple(a) && |a| <= MAX_LENGTH
    ensures AdmittedPath(a)
  {
    hide Split, AdmittedPath;
    SplitOne(a);
    SimplePath(a);
  }

  lemma {:induction false} TwoSimple(a: string, b: string)
    requires Simple(a) && Simple(b) && |a| + 1 + |b| <= MAX_LENGTH
    ensures AdmittedPath(a + "/" + b)
  {
    hide Split, AdmittedPath;
    SplitTwo(a, b);
    SimplePath(a + "/" + b);
  }

  lemma {:induction false} GluedDeepAdmitted()
    ensures AdmittedGlob("a**b") && AdmittedGlob("ax/yb")
  {
    hide AdmittedPath;
    OneSimple("a**b");
    TwoSimple("ax", "yb");
    assert "ax" + "/" + "yb" == "ax/yb";
    hide BalancedFrom, Simple;
    NoBrackets("a**b", 0);
    NoBrackets("ax/yb", 0);
  }

  lemma {:induction false} SlashClassAdmitted()
    ensures AdmittedGlob("a[!x]b") && AdmittedGlob("a/b")
  {
    hide AdmittedPath;
    OneSimple("a[!x]b");
    TwoSimple("a", "b");
    assert "a" + "/" + "b" == "a/b";
    SlashClassBalanced();
    hide BalancedFrom, Simple;
    NoBrackets("a/b", 0);
  }

  lemma {:induction false} SlashClassBalanced()
    ensures Balanced("a[!x]b")
  {
    assert "a[!x]b"[1..] == "[!x]b" && "[!x]b"[1..] == "!x]b" && "!x]b"[1..] == "x]b" && "x]b"[1..] == "]b" && "]b"[1..] == "b";
    assert BalancedFrom("b", 0) by { assert "b"[1..] == ""; }
    assert BalancedFrom("]b", 1) == BalancedFrom("b", 0);
    assert BalancedFrom("!x]b", 1) == BalancedFrom("x]b", 1) == BalancedFrom("]b", 1);
    assert BalancedFrom("a[!x]b", 0) == BalancedFrom("[!x]b", 0) == BalancedFrom("!x]b", 1);
  }

  lemma {:induction false} NoBrackets(s: string, depth: nat)
    requires '[' !in s && ']' !in s
    ensures BalancedFrom(s, depth) <==> depth == 0
  {
    if s != "" { NoBrackets(s[1..], depth); }
  }

  /** A glob that glues `**` to other characters: the policy is accepted, and refuses a conflict. */
  lemma {:induction false} UnalignedPolicyRefuses(setup: Rule, other: Rule)
    requires setup.glob == "a**b" && other.glob == "ax/yb"
    ensures AdmittedGlob(setup.glob) && AdmittedGlob(other.glob) && AdmittedPath("ax/yb")
    ensures Accepted([setup, other]) && RouteOf("ax/yb", [setup, other]) == Refused(MultipleHandlers("ax/yb"))
  {
    hide Matches, MayOverlap, Tokens, AdmittedPath, Balanced;
    GluedDeepAdmitted();
    GluedDeepEscapes();
    GluedDeepTokens();
    assert other.glob != LOCKFILE by { assert "ax/yb"[0] != LOCKFILE[0]; }
    TwoRulesAccepted(setup, other);
    BothRefuse(setup, other, "ax/yb");
  }

  /** So does one with a class that takes `/`. */
  lemma {:induction false} SlashClassPolicyRefuses(setup: Rule, other: Rule)
    requires setup.glob == "a[!x]b" && other.glob == "a/b"
    ensures AdmittedGlob(setup.glob) && AdmittedGlob(other.glob) && AdmittedPath("a/b")
    ensures Accepted([setup, other]) && RouteOf("a/b", [setup, other]) == Refused(MultipleHandlers("a/b"))
  {
    hide Matches, MayOverlap, Tokens, AdmittedPath, Balanced;
    SlashClassAdmitted();
    SlashClassEscapes();
    NegatedClassTokens();
    assert other.glob != LOCKFILE by { assert "a/b"[0] != LOCKFILE[0]; }
    TwoRulesAccepted(setup, other);
    BothRefuse(setup, other, "a/b");
  }
}
