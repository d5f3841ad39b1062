/**
 Where conflicts go, told by paths and matching globs alone.
 */
module RoutingMeaning {
  import opened Globs
  import opened ConflictRouting

  predicate MatchedBy(rule: Rule, c: Conflict) {
    c.path != "pnpm-lock.yaml" && Matches(rule.glob, c.path)
  }

  predicate ForAgent(c: Conflict, rules: seq<Rule>) {
    c.path != "pnpm-lock.yaml" && forall r <- rules :: !Matches(r.glob, c.path)
  }

  ghost predicate TwoMatch(path: string, rules: seq<Rule>) {
    exists i, j :: 0 <= i < j < |rules| && Matches(rules[i].glob, path) && Matches(rules[j].glob, path)
  }

  lemma {:induction false} OnlyMatch(path: string, rules: seq<Rule>)
    ensures |MatchingRules(path, rules)| > 1 <==> TwoMatch(path, rules)
  {
    hide Matches;
    MatchingRulesAreMatches(path, rules);
    if TwoMatch(path, rules) {
      var i, j :| 0 <= i < j < |rules| && Matches(rules[i].glob, path) && Matches(rules[j].glob, path);
      TwoAreListed(path, rules, i, j);
    }
  }

  lemma {:induction false} TwoAreListed(path: string, rules: seq<Rule>, i: nat, j: nat)
    requires i < j < |rules| && Matches(rules[i].glob, path) && Matches(rules[j].glob, path)
    ensures |MatchingRules(path, rules)| > 1
  {
    hide Matches;
    if i > 0 {
      TwoAreListed(path, rules[1..], i - 1, j - 1);
    } else {
      MatchingRulesAreMatches(path, rules[1..]);
      assert rules[1..][j - 1] == rules[j] && rules[j] in rules[1..];
      assert rules[j] in MatchingRules(path, rules[1..]);
    }
  }

  /** The lockfile goes to its own handler unless a rule takes it, and any other path to the one rule that takes it, or to the agent. */
  lemma {:induction false} RouteExactly(path: string, rules: seq<Rule>)
    ensures RouteOf(path, rules) == ToLockfile <==> path == "pnpm-lock.yaml" && forall r <- rules :: !Matches(r.glob, path)
    ensures RouteOf(path, rules) == Refused(LockfileRuled) <==> path == "pnpm-lock.yaml" && exists r <- rules :: Matches(r.glob, path)
    ensures RouteOf(path, rules) == ToAgent <==> path != "pnpm-lock.yaml" && forall r <- rules :: !Matches(r.glob, path)
    ensures RouteOf(path, rules) == Refused(MultipleHandlers(path)) <==> path != "pnpm-lock.yaml" && TwoMatch(path, rules)
    ensures forall rule :: RouteOf(path, rules) == ToHandler(rule) <==>
              path != "pnpm-lock.yaml" && rule in rules && Matches(rule.glob, path) && !TwoMatch(path, rules)
    ensures RouteOf(path, rules).Refused? ==>
              RouteOf(path, rules) == Refused(LockfileRuled) || RouteOf(path, rules) == Refused(MultipleHandlers(path))
  {
    hide Matches, TwoMatch;
    MatchingRulesAreMatches(path, rules);
    OnlyMatch(path, rules);
    var matching := MatchingRules(path, rules);
    if |matching| > 0 { assert matching[0] in matching; }
    if |matching| == 1 { assert matching == [matching[0]]; }
  }

  // ----- filtered from the input ----------------------------------------------------

  /** Who conflicts are for. */
  datatype Taker = AgentUnder(rules: seq<Rule>) | HandlerOf(rule: Rule) | LockfileHandler

  predicate IsFor(taker: Taker, c: Conflict) {
    match taker
    case AgentUnder(rules) => ForAgent(c, rules)
    case HandlerOf(rule) => MatchedBy(rule, c)
    case LockfileHandler => c.path == "pnpm-lock.yaml"
  }

  function Filter(conflicts: seq<Conflict>, taker: Taker): seq<Conflict> {
    if conflicts == [] then []
    else (if IsFor(taker, conflicts[0]) then [conflicts[0]] else []) + Filter(conflicts[1..], taker)
  }

  lemma {:induction false} FilterAppend(conflicts: seq<Conflict>, c: Conflict, taker: Taker)
    ensures Filter(conflicts + [c], taker) == Filter(conflicts, taker) + if IsFor(taker, c) then [c] else []
  {
    if conflicts == [] {
      assert conflicts + [c] == [c] && [c][1..] == [];
    } else {
      FilterAppend(conflicts[1..], c, taker);
      assert (conflicts + [c])[1..] == conflicts[1..] + [c];
    }
  }

  lemma {:induction false} FilterHolds(conflicts: seq<Conflict>, taker: Taker)
    ensures forall c :: c in Filter(conflicts, taker) <==> c in conflicts && IsFor(taker, c)
  {
    if conflicts != [] {
      FilterHolds(conflicts[1..], taker);
      assert conflicts == [conflicts[0]] + conflicts[1..];
    }
  }

  lemma {:induction false} SentIsFiltered(conflicts: seq<Conflict>, rules: seq<Rule>, way: Route, taker: Taker)
    requires forall c <- conflicts :: IsFor(taker, c) <==> RouteOf(c.path, rules) == way
    ensures Sent(conflicts, rules, way) == Filter(conflicts, taker)
  {
    hide RouteOf;
    if conflicts != [] {
      var before, last := conflicts[..|conflicts| - 1], conflicts[|conflicts| - 1];
      assert conflicts == before + [last];
      SentIsFiltered(before, rules, way, taker);
      FilterAppend(before, last, taker);
    }
  }

  lemma {:induction false} GroupsAre(order: seq<Rule>, conflicts: seq<Conflict>, rules: seq<Rule>)
    ensures var groups := GroupsFor(order, conflicts, rules);
            |groups| == |order| && forall k | 0 <= k < |order| ::
              groups[k] == Group(order[k], Sent(conflicts, rules, ToHandler(order[k])))
  {
    hide Sent;
    if order != [] { GroupsAre(order[1..], conflicts, rules); }
  }

  lemma {:induction false} HandlersAreUsed(conflicts: seq<Conflict>, rules: seq<Rule>)
    ensures forall r <- HandlerOrder(conflicts, rules) :: exists c <- conflicts :: RouteOf(c.path, rules) == ToHandler(r)
  {
    hide RouteOf;
    if conflicts != [] {
      var before, last := conflicts[..|conflicts| - 1], conflicts[|conflicts| - 1];
      assert conflicts == before + [last];
      HandlersAreUsed(before, rules);
      HandlersUsed(before, rules);
      var way := RouteOf(last.path, rules);
      if way.ToHandler? { AddedRule(HandlerOrder(before, rules), way.rule); }
    }
  }

  /** One group for each rule that matches something, with the conflicts it matches in their order. */
  ghost predicate Grouped(groups: seq<Group>, conflicts: seq<Conflict>, rules: seq<Rule>) {
    && (forall g <- groups :: g.rule in rules && g.conflicts == Filter(conflicts, HandlerOf(g.rule)) != [])
    && (forall k, m | 0 <= k < m < |groups| :: groups[k].rule != groups[m].rule)
    && (forall rule <- rules :: (exists c <- conflicts :: MatchedBy(rule, c)) ==> exists g <- groups :: g.rule == rule)
  }

  lemma {:induction false} HandlerRoute(conflicts: seq<Conflict>, rules: seq<Rule>, rule: Rule)
    requires rule in rules && forall c <- conflicts :: !RouteOf(c.path, rules).Refused?
    ensures forall c <- conflicts :: MatchedBy(rule, c) <==> RouteOf(c.path, rules) == ToHandler(rule)
  {
    hide RouteOf, Matches, TwoMatch;
    forall c | c in conflicts ensures MatchedBy(rule, c) <==> RouteOf(c.path, rules) == ToHandler(rule) {
      RouteExactly(c.path, rules);
    }
  }

  /** The three lists of a classification, told by paths and globs. */
  lemma {:induction false} ClassifiedExactly(conflicts: seq<Conflict>, rules: seq<Rule>)
    requires forall c <- conflicts :: !RouteOf(c.path, rules).Refused?
    ensures var c := Classification(conflicts, rules);
            && c.agent == Filter(conflicts, AgentUnder(rules))
            && c.lockfile == Filter(conflicts, LockfileHandler)
            && Grouped(c.generated, conflicts, rules)
  {
    hide Matches, RouteOf, HandlerOrder, GroupsFor, Sent, TwoMatch, MatchedBy, Filter;
    forall c | c in conflicts
      ensures ForAgent(c, rules) <==> RouteOf(c.path, rules) == ToAgent
      ensures c.path == "pnpm-lock.yaml" <==> RouteOf(c.path, rules) == ToLockfile
    {
      RouteExactly(c.path, rules);
    }
    SentIsFiltered(conflicts, rules, ToAgent, AgentUnder(rules));
    SentIsFiltered(conflicts, rules, ToLockfile, LockfileHandler);
    GroupedExactly(conflicts, rules);
  }

  lemma {:induction false} OneGroup(conflicts: seq<Conflict>, rules: seq<Rule>, rule: Rule)
    requires rule in rules && forall c <- conflicts :: !RouteOf(c.path, rules).Refused?
    ensures Sent(conflicts, rules, ToHandler(rule)) == Filter(conflicts, HandlerOf(rule))
    ensures (exists c <- conflicts :: MatchedBy(rule, c)) <==> rule in HandlerOrder(conflicts, rules)
    ensures rule in HandlerOrder(conflicts, rules) ==> Filter(conflicts, HandlerOf(rule)) != []
  {
    hide RouteOf, MatchedBy, Filter, HandlerOrder, Sent;
    var taker := HandlerOf(rule);
    HandlerRoute(conflicts, rules, rule);
    SentIsFiltered(conflicts, rules, ToHandler(rule), taker);
    FilterHolds(conflicts, taker);
    HandlersUsed(conflicts, rules);
    HandlersAreUsed(conflicts, rules);
    if c :| c in conflicts && MatchedBy(rule, c) { assert c in Filter(conflicts, taker); }
  }

  lemma {:induction false} GroupedExactly(conflicts: seq<Conflict>, rules: seq<Rule>)
    requires forall c <- conflicts :: !RouteOf(c.path, rules).Refused?
    ensures Grouped(Classification(conflicts, rules).generated, conflicts, rules)
  {
    hide RouteOf, MatchedBy, Filter, HandlerOrder, Sent, GroupsFor;
    var order := HandlerOrder(conflicts, rules);
    var groups := GroupsFor(order, conflicts, rules);
    GroupsAre(order, conflicts, rules);
    HandlersUsed(conflicts, rules);
    forall g | g in groups ensures g.rule in rules && g.conflicts == Filter(conflicts, HandlerOf(g.rule)) != [] {
      var k :| 0 <= k < |groups| && groups[k] == g;
      assert order[k] in order;
      OneGroup(conflicts, rules, g.rule);
    }
    forall rule | rule in rules && exists c <- conflicts :: MatchedBy(rule, c) ensures exists g <- groups :: g.rule == rule {
      OneGroup(conflicts, rules, rule);
      var k :| 0 <= k < |order| && order[k] == rule;
      assert groups[k] in groups;
    }
  }
}
