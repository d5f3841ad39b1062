/**
 What comes before anything is staged, told call by call.
 */
module AttemptOrder {
  import opened ConflictRouting
  import opened RoutingMeaning
  import opened ResolutionTrace

  /** Every `a` comes before every `b`. */
  predicate Precedes(calls: seq<Call>, a: Call, b: Call) {
    forall k, m | 0 <= k < |calls| && 0 <= m < |calls| && calls[k] == a && calls[m] == b :: k < m
  }

  predicate AgentNeeded(conflicts: seq<Conflict>, rules: seq<Rule>) {
    exists c <- conflicts :: ForAgent(c, rules)
  }

  predicate LockfileNeeded(conflicts: seq<Conflict>) {
    exists c <- conflicts :: c.path == "pnpm-lock.yaml"
  }

  predicate HandlerNeeded(rule: Rule, conflicts: seq<Conflict>, rules: seq<Rule>) {
    rule in rules && exists c <- conflicts :: MatchedBy(rule, c)
  }

  function Once(needed: bool): nat {
    if needed then 1 else 0
  }

  /** What is called, and how often. */
  ghost predicate CalledOften(calls: seq<Call>, conflicts: seq<Conflict>, rules: seq<Rule>) {
    var agent, all := AgentNeeded(conflicts, rules), multiset(calls);
    && all[PrepareAgent] == Once(agent) && all[ResolveAgent] == Once(agent) && all[CopyEdits] == Once(agent)
    && all[StartAgent] <= Once(agent) && all[Diagnostics] == Once(agent)
    && all[Regenerate] == Once(LockfileNeeded(conflicts)) && all[ValidateTarget] == 1
    && forall rule :: all[RunHandler(rule)] == Once(HandlerNeeded(rule, conflicts, rules))
  }

  /**
   The handlers of the rules come first, then the agent is started if need be, prepared and
   asked, then its edits are copied, then the lockfile is made anew; and then all is validated.
   */
  ghost predicate CalledInOrder(calls: seq<Call>) {
    && Precedes(calls, StartAgent, PrepareAgent) && Precedes(calls, PrepareAgent, ResolveAgent)
    && Precedes(calls, ResolveAgent, CopyEdits) && Precedes(calls, CopyEdits, Regenerate)
    && Precedes(calls, CopyEdits, ValidateTarget) && Precedes(calls, Regenerate, ValidateTarget)
    && Precedes(calls, ResolveAgent, Diagnostics)
    && (forall rule :: Precedes(calls, RunHandler(rule), StartAgent) && Precedes(calls, RunHandler(rule), PrepareAgent) &&
                       Precedes(calls, RunHandler(rule), Regenerate) && Precedes(calls, RunHandler(rule), ValidateTarget))
    && calls != [] && calls[|calls| - 1] == ValidateTarget
  }

  // ----- proof -------------------------------------------------------------------------

  /** Calls of an attempt by their turn; 0 for those without one. */
  function Turn(c: Call): nat {
    match c
    case RunHandler(_) => 1
    case StartAgent => 2
    case PrepareAgent => 3
    case ResolveAgent => 4
    case CopyEdits => 5
    case Regenerate => 6
    case Diagnostics => 7
    case ValidateTarget => 8
    case _ => 0
  }

  /** The turns are within bounds and do not go back. */
  ghost predicate TakeTurns(calls: seq<Call>, low: nat, high: nat) {
    && (forall k | 0 <= k < |calls| && Turn(calls[k]) > 0 :: low <= Turn(calls[k]) <= high)
    && (forall k, m | 0 <= k < m < |calls| && Turn(calls[k]) > 0 && Turn(calls[m]) > 0 :: Turn(calls[k]) <= Turn(calls[m]))
  }

  lemma {:induction false} TurnsConcat(a: seq<Call>, b: seq<Call>, low: nat, mid: nat, next: nat, high: nat)
    requires TakeTurns(a, low, mid) && TakeTurns(b, next, high) && low <= mid <= next <= high
    ensures TakeTurns(a + b, low, high)
  {
    hide Turn;
    var all := a + b;
    assert forall k | 0 <= k < |all| :: all[k] == if k < |a| then a[k] else b[k - |a|];
  }

  lemma {:induction false} TurnsPrecede(calls: seq<Call>, a: Call, b: Call)
    requires TakeTurns(calls, 0, 8) && 0 < Turn(a) < Turn(b)
    ensures Precedes(calls, a, b)
  {
    forall k, m | 0 <= k < |calls| && 0 <= m < |calls| && calls[k] == a && calls[m] == b ensures k < m {
      assert !(m < k);
      assert m != k;
    }
  }

  lemma {:induction false} HandlersTakeTurns(groups: seq<Group>)
    ensures TakeTurns(HandlerCalls(groups), 1, 1) && forall c <- HandlerCalls(groups) :: c.RunHandler?
    ensures forall rule :: RunHandler(rule) in HandlerCalls(groups) <==> exists g <- groups :: g.rule == rule
  {
    if groups != [] {
      var before, last := groups[..|groups| - 1], groups[|groups| - 1];
      assert groups == before + [last];
      HandlersTakeTurns(before);
    }
  }

  lemma {:induction false} OneMoreCall(calls: seq<Call>, last: Call, c: Call)
    ensures multiset(calls + [last])[c] == multiset(calls)[c] + if last == c then 1 else 0
  {
  }

  lemma {:induction false} HandlersOnce(groups: seq<Group>, rule: Rule)
    requires forall k, m | 0 <= k < m < |groups| :: groups[k].rule != groups[m].rule
    ensures multiset(HandlerCalls(groups))[RunHandler(rule)] == Once(exists g <- groups :: g.rule == rule)
  {
    if groups != [] {
      var before, last := groups[..|groups| - 1], groups[|groups| - 1];
      assert groups == before + [last];
      HandlersOnce(before, rule);
      OneMoreCall(HandlerCalls(before), RunHandler(last.rule), RunHandler(rule));
      hide HandlerCalls;
      if exists g <- before :: g.rule == rule {
        var k :| 0 <= k < |before| && before[k].rule == rule;
        assert groups[k] == before[k] && groups[k].rule != last.rule;
      }
    }
  }

  /** A call that does not occur. */
  lemma {:induction false} NotCalled(calls: seq<Call>, c: Call)
    requires c !in calls
    ensures multiset(calls)[c] == 0
  {
  }

  lemma {:induction false} CountSum(a: seq<Call>, b: seq<Call>, c: Call)
    ensures multiset(a + b)[c] == multiset(a)[c] + multiset(b)[c]
  {
  }

  lemma {:induction false} OutOfTurn(calls: seq<Call>, low: nat, high: nat, c: Call)
    requires TakeTurns(calls, low, high) && Turn(c) > 0 && !(low <= Turn(c) <= high)
    ensures multiset(calls)[c] == 0
  {
    hide Turn;
    assert forall k | 0 <= k < |calls| :: calls[k] != c;
    NotCalled(calls, c);
  }

  lemma {:induction false} SingleTurn(needed: bool, c: Call)
    ensures TakeTurns(OnlyIf(needed, [c]), Turn(c), Turn(c)) && multiset(OnlyIf(needed, [c]))[c] == Once(needed)
  {
  }

  lemma {:induction false} AgentCallsAre(started: bool)
    ensures AgentCalls(started) == OnlyIf(!started, [StartAgent]) + [PrepareAgent] + [ResolveAgent] + [CopyEdits]
  {
  }

  lemma {:induction false} AgentCount(first: seq<Call>, c: Call)
    ensures multiset(first + [PrepareAgent] + [ResolveAgent] + [CopyEdits])[c] ==
            multiset(first)[c] + Once(c == PrepareAgent) + Once(c == ResolveAgent) + Once(c == CopyEdits)
  {
    OneMoreCall(first, PrepareAgent, c);
    OneMoreCall(first + [PrepareAgent], ResolveAgent, c);
    OneMoreCall(first + [PrepareAgent] + [ResolveAgent], CopyEdits, c);
  }

  lemma {:induction false} AgentTurns(started: bool)
    ensures TakeTurns(AgentCalls(started), 2, 5)
    ensures multiset(AgentCalls(started))[PrepareAgent] == 1 && multiset(AgentCalls(started))[ResolveAgent] == 1
    ensures multiset(AgentCalls(started))[CopyEdits] == 1 && multiset(AgentCalls(started))[StartAgent] <= 1
  {
    hide TakeTurns, AgentCalls, OnlyIf;
    var first := OnlyIf(!started, [StartAgent]);
    AgentCallsAre(started);
    SingleTurn(!started, StartAgent);
    SingleTurn(true, PrepareAgent);
    SingleTurn(true, ResolveAgent);
    SingleTurn(true, CopyEdits);
    assert OnlyIf(true, [PrepareAgent]) == [PrepareAgent] && OnlyIf(true, [ResolveAgent]) == [ResolveAgent] by { OnlyThese(); }
    assert OnlyIf(true, [CopyEdits]) == [CopyEdits] by { OnlyThese(); }
    TurnsConcat(first, [PrepareAgent], 2, 2, 3, 3);
    TurnsConcat(first + [PrepareAgent], [ResolveAgent], 2, 3, 4, 4);
    TurnsConcat(first + [PrepareAgent] + [ResolveAgent], [CopyEdits], 2, 4, 5, 5);
    OutOfTurn(first, 2, 2, PrepareAgent);
    OutOfTurn(first, 2, 2, ResolveAgent);
    OutOfTurn(first, 2, 2, CopyEdits);
    AgentCount(first, StartAgent);
    AgentCount(first, PrepareAgent);
    AgentCount(first, ResolveAgent);
    AgentCount(first, CopyEdits);
  }

  lemma {:induction false} OnlyThese()
    ensures forall c: Call :: OnlyIf(true, [c]) == [c]
  {
  }

  lemma {:induction false} IdleTurns(calls: seq<Call>)
    requires forall c <- calls :: Turn(c) == 0
    ensures TakeTurns(calls, 0, 0)
  {
    assert forall k | 0 <= k < |calls| :: calls[k] in calls;
  }

  /** The parts an attempt is made of. */
  function Parts(idle: seq<Call>, handled: seq<Call>, asked: seq<Call>, locked: seq<Call>, diagnosed: seq<Call>): seq<Call> {
    idle + handled + asked + locked + diagnosed + [ValidateTarget]
  }

  ghost predicate AreParts(idle: seq<Call>, handled: seq<Call>, asked: seq<Call>, locked: seq<Call>, diagnosed: seq<Call>) {
    TakeTurns(idle, 0, 0) && TakeTurns(handled, 1, 1) && TakeTurns(asked, 2, 5) && TakeTurns(locked, 6, 6) && TakeTurns(diagnosed, 7, 7)
  }

  lemma {:induction false} PartsInOrder(idle: seq<Call>, handled: seq<Call>, asked: seq<Call>, locked: seq<Call>, diagnosed: seq<Call>)
    requires AreParts(idle, handled, asked, locked, diagnosed)
    ensures TakeTurns(Parts(idle, handled, asked, locked, diagnosed), 0, 8)
  {
    TurnsConcat(idle, handled, 0, 0, 1, 1);
    TurnsConcat(idle + handled, asked, 0, 1, 2, 5);
    TurnsConcat(idle + handled + asked, locked, 0, 5, 6, 6);
    TurnsConcat(idle + handled + asked + locked, diagnosed, 0, 6, 7, 7);
    SingleTurn(true, ValidateTarget);
    TurnsConcat(idle + handled + asked + locked + diagnosed, [ValidateTarget], 0, 7, 8, 8);
  }

  /** A call is made as often as in the part of its turn. */
  lemma {:induction false} PartsCount(idle: seq<Call>, handled: seq<Call>, asked: seq<Call>, locked: seq<Call>, diagnosed: seq<Call>, c: Call)
    requires AreParts(idle, handled, asked, locked, diagnosed) && Turn(c) > 0
    ensures multiset(Parts(idle, handled, asked, locked, diagnosed))[c] ==
            if Turn(c) == 1 then multiset(handled)[c]
            else if Turn(c) <= 5 then multiset(asked)[c]
            else if Turn(c) == 6 then multiset(locked)[c]
            else if Turn(c) == 7 then multiset(diagnosed)[c]
            else 1
  {
    hide TakeTurns;
    CountSum(idle, handled, c);
    CountSum(idle + handled, asked, c);
    CountSum(idle + handled + asked, locked, c);
    CountSum(idle + handled + asked + locked, diagnosed, c);
    CountSum(idle + handled + asked + locked + diagnosed, [ValidateTarget], c);
    OutOfTurn(idle, 0, 0, c);
    if Turn(c) != 1 { OutOfTurn(handled, 1, 1, c); }
    if !(2 <= Turn(c) <= 5) { OutOfTurn(asked, 2, 5, c); }
    if Turn(c) != 6 { OutOfTurn(locked, 6, 6, c); }
    if Turn(c) != 7 { OutOfTurn(diagnosed, 7, 7, c); }
    assert Turn(c) == 8 <==> c == ValidateTarget;
  }

  lemma {:induction false} AllPrecede(calls: seq<Call>)
    requires TakeTurns(calls, 0, 8) && calls != [] && calls[|calls| - 1] == ValidateTarget
    ensures CalledInOrder(calls)
  {
    hide TakeTurns, Precedes;
    TurnsPrecede(calls, StartAgent, PrepareAgent);
    TurnsPrecede(calls, PrepareAgent, ResolveAgent);
    TurnsPrecede(calls, ResolveAgent, CopyEdits);
    TurnsPrecede(calls, CopyEdits, Regenerate);
    TurnsPrecede(calls, CopyEdits, ValidateTarget);
    TurnsPrecede(calls, Regenerate, ValidateTarget);
    TurnsPrecede(calls, ResolveAgent, Diagnostics);
    forall rule ensures Precedes(calls, RunHandler(rule), StartAgent) && Precedes(calls, RunHandler(rule), PrepareAgent) &&
                        Precedes(calls, RunHandler(rule), Regenerate) && Precedes(calls, RunHandler(rule), ValidateTarget)
    {
      TurnsPrecede(calls, RunHandler(rule), StartAgent);
      TurnsPrecede(calls, RunHandler(rule), PrepareAgent);
      TurnsPrecede(calls, RunHandler(rule), Regenerate);
      TurnsPrecede(calls, RunHandler(rule), ValidateTarget);
    }
  }

  lemma {:induction false} AskedTurns(needed: bool, started: bool)
    ensures var asked := OnlyIf(needed, AgentCalls(started));
            && TakeTurns(asked, 2, 5)
            && multiset(asked)[PrepareAgent] == Once(needed) && multiset(asked)[ResolveAgent] == Once(needed)
            && multiset(asked)[CopyEdits] == Once(needed) && multiset(asked)[StartAgent] <= Once(needed)
  {
    hide AgentCalls;
    AgentTurns(started);
  }

  lemma {:induction false} NeededParts(conflicts: seq<Conflict>, rules: seq<Rule>)
    requires forall c <- conflicts :: !RouteOf(c.path, rules).Refused?
    ensures var c := Classification(conflicts, rules);
            && (c.agent != [] <==> AgentNeeded(conflicts, rules)) && (c.lockfile != [] <==> LockfileNeeded(conflicts))
            && (forall k, m | 0 <= k < m < |c.generated| :: c.generated[k].rule != c.generated[m].rule)
            && (forall rule :: (exists g <- c.generated :: g.rule == rule) <==> HandlerNeeded(rule, conflicts, rules))
  {
    hide RouteOf, Classification, Filter, ForAgent, MatchedBy;
    var c := Classification(conflicts, rules);
    ClassifiedExactly(conflicts, rules);
    FilterHolds(conflicts, AgentUnder(rules));
    FilterHolds(conflicts, LockfileHandler);
    if AgentNeeded(conflicts, rules) {
      var x :| x in conflicts && ForAgent(x, rules);
      assert x in c.agent;
    }
    if c.agent != [] { assert c.agent[0] in c.agent; }
    if LockfileNeeded(conflicts) {
      var x :| x in conflicts && x.path == "pnpm-lock.yaml";
      assert x in c.lockfile;
    }
    if c.lockfile != [] { assert c.lockfile[0] in c.lockfile; }
    forall g | g in c.generated ensures HandlerNeeded(g.rule, conflicts, rules) {
      FilterHolds(conflicts, HandlerOf(g.rule));
      assert g.conflicts[0] in g.conflicts;
    }
  }

  /** The part of an attempt after some idle calls that has no turn. */
  function IdlePart(idle: seq<Call>, request: Request): seq<Call> {
    idle + OnlyIf(request.strategy == Rebase, [ReadCommit]) + [Progress]
  }

  function AllParts(idle: seq<Call>, c: Classified, request: Request, started: bool): seq<Call> {
    Parts(IdlePart(idle, request), HandlerCalls(c.generated), OnlyIf(c.agent != [], AgentCalls(started)),
          OnlyIf(c.lockfile != [], [Regenerate]), OnlyIf(c.agent != [], [Diagnostics]))
  }

  lemma {:induction false} PreparedIsParts(idle: seq<Call>, c: Classified, request: Request, started: bool)
    ensures idle + PrepareCalls(request, c, started) == AllParts(idle, c, request, started)
  {
    hide HandlerCalls, AgentCalls, OnlyIf;
  }

  lemma {:induction false} TheseAreParts(idle: seq<Call>, c: Classified, request: Request, started: bool)
    requires forall c <- idle :: Idle(c)
    ensures AreParts(IdlePart(idle, request), HandlerCalls(c.generated), OnlyIf(c.agent != [], AgentCalls(started)),
                     OnlyIf(c.lockfile != [], [Regenerate]), OnlyIf(c.agent != [], [Diagnostics]))
  {
    hide TakeTurns, HandlerCalls, AgentCalls;
    IdleTurns(IdlePart(idle, request));
    HandlersTakeTurns(c.generated);
    AskedTurns(c.agent != [], started);
    SingleTurn(c.lockfile != [], Regenerate);
    SingleTurn(c.agent != [], Diagnostics);
  }

  lemma {:induction false} PartsCalledOften(idle: seq<Call>, conflicts: seq<Conflict>, request: Request, started: bool)
    requires (forall c <- idle :: Idle(c)) && forall c <- conflicts :: !RouteOf(c.path, request.rules).Refused?
    ensures CalledOften(AllParts(idle, Classification(conflicts, request.rules), request, started), conflicts, request.rules)
  {
    hide RouteOf, Classification, HandlerCalls, AgentCalls, OnlyIf, AreParts, Parts, IdlePart;
    var c := Classification(conflicts, request.rules);
    var rest, handled, asked := IdlePart(idle, request), HandlerCalls(c.generated), OnlyIf(c.agent != [], AgentCalls(started));
    var locked, diagnosed := OnlyIf(c.lockfile != [], [Regenerate]), OnlyIf(c.agent != [], [Diagnostics]);
    TheseAreParts(idle, c, request, started);
    AskedTurns(c.agent != [], started);
    SingleTurn(c.lockfile != [], Regenerate);
    SingleTurn(c.agent != [], Diagnostics);
    NeededParts(conflicts, request.rules);
    CountedParts(rest, handled, asked, locked, diagnosed);
    forall rule
      ensures multiset(AllParts(idle, c, request, started))[RunHandler(rule)] == Once(HandlerNeeded(rule, conflicts, request.rules))
    {
      PartsCount(rest, handled, asked, locked, diagnosed, RunHandler(rule));
      HandlersOnce(c.generated, rule);
    }
  }

  /** The calls of an attempt after some idle ones. */
  lemma {:induction false} PreparedInOrder(idle: seq<Call>, conflicts: seq<Conflict>, request: Request, started: bool)
    requires (forall c <- idle :: Idle(c)) && forall c <- conflicts :: !RouteOf(c.path, request.rules).Refused?
    ensures var calls := idle + PrepareCalls(request, Classification(conflicts, request.rules), started);
            CalledInOrder(calls) && CalledOften(calls, conflicts, request.rules)
  {
    hide RouteOf, Classification, HandlerCalls, AgentCalls, TakeTurns, CalledInOrder, CalledOften, AreParts, OnlyIf, PrepareCalls;
    var c := Classification(conflicts, request.rules);
    PreparedIsParts(idle, c, request, started);
    TheseAreParts(idle, c, request, started);
    PartsInOrder(IdlePart(idle, request), HandlerCalls(c.generated), OnlyIf(c.agent != [], AgentCalls(started)),
                 OnlyIf(c.lockfile != [], [Regenerate]), OnlyIf(c.agent != [], [Diagnostics]));
    AllPrecede(AllParts(idle, c, request, started));
    PartsCalledOften(idle, conflicts, request, started);
  }

  lemma {:induction false} CountedParts(idle: seq<Call>, handled: seq<Call>, asked: seq<Call>, locked: seq<Call>, diagnosed: seq<Call>)
    requires AreParts(idle, handled, asked, locked, diagnosed)
    ensures var all := multiset(Parts(idle, handled, asked, locked, diagnosed));
            && all[StartAgent] == multiset(asked)[StartAgent] && all[PrepareAgent] == multiset(asked)[PrepareAgent]
            && all[ResolveAgent] == multiset(asked)[ResolveAgent] && all[CopyEdits] == multiset(asked)[CopyEdits]
            && all[Regenerate] == multiset(locked)[Regenerate] && all[Diagnostics] == multiset(diagnosed)[Diagnostics]
            && all[ValidateTarget] == 1
  {
    hide AreParts, Parts;
    PartsCount(idle, handled, asked, locked, diagnosed, StartAgent);
    PartsCount(idle, handled, asked, locked, diagnosed, PrepareAgent);
    PartsCount(idle, handled, asked, locked, diagnosed, ResolveAgent);
    PartsCount(idle, handled, asked, locked, diagnosed, CopyEdits);
    PartsCount(idle, handled, asked, locked, diagnosed, Regenerate);
    PartsCount(idle, handled, asked, locked, diagnosed, Diagnostics);
    PartsCount(idle, handled, asked, locked, diagnosed, ValidateTarget);
  }

  // ----- on traces -----------------------------------------------------------------------

  /** The calls between two places, themselves excluded. */
  function Between(trace: Trace, j: nat, i: nat): seq<Call>
    requires j < i <= |trace|
  {
    seq(i - j - 1, k requires 0 <= k < i - j - 1 => trace[j + 1 + k].call)
  }

  lemma {:induction false} PreparesQuietly(request: Request, c: Classified, started: bool)
    ensures forall call <- PrepareCalls(request, c, started) :: call != ReadConflicts && !Changes(call)
  {
    HandlersTakeTurns(c.generated);
    hide HandlerCalls, TakeTurns;
  }

  lemma {:induction false} BetweenJoins(trace: Trace, j: nat, n: nat, i: nat)
    requires j < n <= i <= |trace|
    ensures Between(trace, j, i) == Between(trace, j, n) + seq(i - n, k requires 0 <= k < i - n => trace[n + k].call)
  {
  }

  lemma {:induction false} RestedPrepared(trace: Trace, j: nat, n: nat, i: nat, started: bool, conflicts: seq<Conflict>, request: Request)
    requires j < n <= i <= |trace| && RestedSince(trace[..n], j)
    requires forall c <- conflicts :: !RouteOf(c.path, request.rules).Refused?
    requires trace[n..i] == AllReturned(PrepareCalls(request, Classification(conflicts, request.rules), started))
    ensures forall k | j < k < i :: trace[k].returned && trace[k].call != ReadConflicts && !Changes(trace[k].call)
    ensures CalledInOrder(Between(trace, j, i)) && CalledOften(Between(trace, j, i), conflicts, request.rules)
  {
    hide RouteOf, Classification, PrepareCalls, CalledInOrder, CalledOften;
    var calls := PrepareCalls(request, Classification(conflicts, request.rules), started);
    PreparesQuietly(request, Classification(conflicts, request.rules), started);
    forall k | j < k < n ensures trace[k].returned && Idle(trace[k].call) { assert trace[k] == trace[..n][k]; }
    forall k | n <= k < i ensures trace[k] == Event(calls[k - n], true) && calls[k - n] in calls { assert trace[k] == trace[n..i][k - n]; }
    BetweenJoins(trace, j, n, i);
    assert seq(i - n, k requires 0 <= k < i - n => trace[n + k].call) == calls;
    PreparedInOrder(Between(trace, j, n), conflicts, request, started);
  }

  /**
   Before anything is staged, in any run: since the index was last read, and found to have
   conflicts, all calls returned; and they are those of one attempt at these conflicts, each as
   often as it has to be and in order.
   */
  lemma {:induction false} StagedInOrder(trace: Trace, request: Request, ports: Ports, i: nat)
    returns (j: nat, conflicts: seq<Conflict>)
    requires !Watched(trace, request, ports).broken && i < |trace| && trace[i].call == Stage
    ensures j < i && FoundConflicts(trace, ports, j, conflicts) && conflicts != []
    ensures forall k | j < k < i :: trace[k].returned && trace[k].call != ReadConflicts && !Changes(trace[k].call)
    ensures CalledInOrder(Between(trace, j, i)) && CalledOften(Between(trace, j, i), conflicts, request.rules)
  {
    hide Watched, RouteOf, Classification, PrepareCalls, CalledInOrder, CalledOften;
    WatchAt(trace, request, ports, i);
    conflicts := Watched(trace[..i], request, ports).tree.conflicts;
    var n: nat, started: bool :| PreparedFrom(trace[..i], n, started, conflicts, request);
    assert trace[..i][..n] == trace[..n] && trace[..i][n..] == trace[n..i];
    j :| RestedSince(trace[..n], j);
    RestedPrepared(trace, j, n, i, started, conflicts, request);
    assert trace[..i][j] == trace[j] == trace[..n][j] && forall k | j < k < i :: trace[..i][k] == trace[k];
    LastRead(trace[..i], request, ports, j);
    assert trace[..i][..j] == trace[..j];
  }
}
