/**
 Runs of the merge-conflict resolution, seen as the calls they make on their ports, and
 the rules every run has to keep.
 */
module ResolutionTrace {
  import opened Wrappers
  import opened ConflictRouting

  datatype Strategy = MergeBase | Rebase

  datatype Request = Request(strategy: Strategy, commit: bool, push: bool, maxAttempts: nat, rules: seq<Rule>)

  datatype Call = ReadPullRequest | ReadBase | CountCommits | Progress | Integrate | CaptureBaseline | ReadConflicts
                | ReadCommit | RunHandler(rule: Rule) | StartAgent | PrepareAgent | ResolveAgent | CopyEdits | Regenerate
                | Diagnostics | ValidateTarget | Stage | ValidateMarkers | ContinueRebase | InspectState | SkipRebase
                | Commit | StopAgent | BeforePush | Push | WriteSummary

  /** One call, and whether it returned or threw. */
  datatype Event = Event(call: Call, returned: bool)

  type Trace = seq<Event>

  datatype Integration = Clean(operation: Strategy, before: string, after: string) | Conflicted(before: string)
                       | Broken(before: string)

  /**
   The ports: whether a call throws and what it answers may depend on everything that happened.
   An optional port that is absent is one that does nothing.
   */
  datatype Ports = Ports(throws: (Trace, Call) -> bool, head: Trace -> Option<string>, integration: Trace -> Integration,
                         conflicts: Trace -> seq<Conflict>, exitsCleanly: Trace -> bool, rebasing: Trace -> bool,
                         worktreeClean: Trace -> bool, hasLockfile: bool)

  datatype Problem = InvalidRequest | Preflight | RemoteHeadChanged | IntegrationFailed | ConflictSetRequired
                   | AttemptLimit | LockfileUnavailable | HandlersInvalid | RebaseStuck | PortThrew

  datatype Outcome = NoChange(attempts: nat, pushed: bool) | Updated(attempts: nat, pushed: bool)
                   | Error(attempts: nat, problem: Problem)

  // ----- the calls of an attempt --------------------------------------------

  function AllReturned(calls: seq<Call>): Trace {
    seq(|calls|, i requires 0 <= i < |calls| => Event(calls[i], true))
  }

  /** The last calls were these, and all returned. */
  predicate EndsWith(trace: Trace, calls: seq<Call>) {
    |calls| <= |trace| && trace[|trace| - |calls|..] == AllReturned(calls)
  }

  function HandlerCalls(groups: seq<Group>): seq<Call> {
    if groups == [] then [] else HandlerCalls(groups[..|groups| - 1]) + [RunHandler(groups[|groups| - 1].rule)]
  }

  function AgentCalls(started: bool): seq<Call> {
    (if started then [] else [StartAgent]) + [PrepareAgent, ResolveAgent, CopyEdits]
  }

  function OnlyIf(needed: bool, calls: seq<Call>): seq<Call> {
    if needed then calls else []
  }

  /** Before anything is integrated. */
  function OpeningCalls(request: Request): seq<Call> {
    [ReadPullRequest, ReadBase] + OnlyIf(request.strategy == Rebase, [CountCommits]) + [Progress]
  }

  /**
   How an attempt begins: with the handlers of the generated files, and the agent on the
   conflicts no rule covers.
   */
  function BeginCalls(request: Request, c: Classified, started: bool): seq<Call> {
    OnlyIf(request.strategy == Rebase, [ReadCommit]) + [Progress] + HandlerCalls(c.generated)
    + OnlyIf(c.agent != [], AgentCalls(started))
  }

  /** What an attempt does before it stages anything: then also the lockfile's handler, and the validation of the files. */
  function PrepareCalls(request: Request, c: Classified, started: bool): seq<Call> {
    BeginCalls(request, c, started) + OnlyIf(c.lockfile != [], [Regenerate]) + OnlyIf(c.agent != [], [Diagnostics])
    + [ValidateTarget]
  }

  /** Calls that may come between reading the index and an attempt. */
  predicate Idle(call: Call) {
    call == Progress || call == CaptureBaseline || call == InspectState
  }

  /** Since the index was read nothing but idle calls were made, and all returned. */
  ghost predicate Rested(trace: Trace) {
    exists m: nat :: RestedSince(trace, m)
  }

  predicate RestedSince(trace: Trace, m: nat) {
    m < |trace| && trace[m] == Event(ReadConflicts, true) && forall k | m < k < |trace| :: trace[k].returned && Idle(trace[k].call)
  }

  /** From place `n` on the calls were those of an attempt at these conflicts; before that the trace rested. */
  ghost predicate PreparedFrom(trace: Trace, n: nat, started: bool, conflicts: seq<Conflict>, request: Request) {
    && n <= |trace| && Rested(trace[..n])
    && trace[n..] == AllReturned(PrepareCalls(request, Classification(conflicts, request.rules), started))
  }

  /** Since the index was read an attempt at these conflicts, all of which can be routed, was prepared. */
  ghost predicate Prepared(trace: Trace, conflicts: seq<Conflict>, request: Request) {
    && (forall c <- conflicts :: !RouteOf(c.path, request.rules).Refused?)
    && exists n: nat, started: bool :: PreparedFrom(trace, n, started, conflicts, request)
  }

  // ----- the rules, as a monitor ------------------------------------------

  /** What git said when its state was inspected. */
  datatype GitState = GitState(rebasing: bool, clean: bool)

  /**
   What is known of the working tree: how the integration ended, whether the files were captured
   since git stopped at conflicts, how often something was staged, whether the index has changed
   since it was read, its conflicts then, whether staged files still have to be checked, and the
   state inspected since the index last changed.
   */
  datatype Tree = Tree(integration: Option<Integration>, captured: bool, staged: nat, unread: bool, conflicts: seq<Conflict>,
                       unchecked: bool, state: Option<GitState>)

  /** What matters about the calls so far; `asking` since the agent was asked in this attempt, `broken` once a rule was broken. */
  datatype Watch = Watch(head: Option<string>, agreed: bool, tree: Tree, asking: bool, started: bool, stopTried: bool,
                         stopped: bool, committed: bool, pushed: bool, threw: bool, summarised: bool, broken: bool)

  predicate WasConflicted(t: Tree) {
    t.integration.Some? && t.integration.value.Conflicted?
  }

  /** Conflicts were staged and checked, and the index, read since then, has none left. */
  predicate Settled(t: Tree) {
    WasConflicted(t) && t.staged > 0 && !t.unread && t.conflicts == [] && !t.unchecked
  }

  /**
   There is something to keep: a clean rebase that moved the head, or an integration whose
   conflicts are settled and, for a rebase, that is no longer in progress.
   */
  predicate Resolved(t: Tree, strategy: Strategy) {
    && t.conflicts == [] && !t.unchecked
    && match t.integration
       case None => false
       case Some(Clean(operation, before, after)) => operation == Rebase && after != before
       case Some(Conflicted(_)) => Settled(t) && (strategy == Rebase ==> t.state.Some? && !t.state.value.rebasing)
       case Some(Broken(_)) => false
  }

  /** The base is integrated once, after what the opening reads. */
  predicate MayIntegrate(w: Watch, before: Trace, request: Request) {
    w.tree.integration.None? && before == AllReturned(OpeningCalls(request))
  }

  /** The agent is started once, on an integration of the pull request's head, and before any stop. */
  predicate MayStart(w: Watch) {
    w.agreed && !w.started && !w.stopTried && !w.pushed && !w.summarised
  }

  /** The agent is asked while it runs, once in each attempt, and attempts are limited. */
  predicate MayAsk(w: Watch, request: Request) {
    w.started && !w.stopTried && !w.asking && WasConflicted(w.tree) && w.tree.staged < request.maxAttempts
  }

  /** What is staged is an attempt at the conflicts the index has, on captured files, and attempts are limited. */
  ghost predicate MayStage(w: Watch, before: Trace, request: Request) {
    && w.agreed && !w.committed && !w.pushed && WasConflicted(w.tree) && w.tree.staged < request.maxAttempts
    && w.tree.captured && !w.tree.unread && w.tree.conflicts != [] && Prepared(before, w.tree.conflicts, request)
  }

  /** A rebase is continued once its conflicts are settled. */
  predicate MayContinue(w: Watch, request: Request) {
    request.strategy == Rebase && w.agreed && Settled(w.tree) && !w.threw
  }

  /** A commit of a rebase is skipped when nothing is left of it. */
  predicate MaySkip(w: Watch, request: Request) {
    MayContinue(w, request) && w.tree.state == Some(GitState(true, true))
  }

  /**
   A push needs the request's permission, an integration of the pull request's head that is
   resolved, a commit when merging, an agent that has stopped if it was started, and its hook to
   have been called just before; it happens once, and not after a failure.
   */
  predicate MayPush(w: Watch, before: Trace, request: Request) {
    && EndsWith(before, [BeforePush]) && request.push && w.agreed
    && (request.strategy == MergeBase ==> w.committed) && (w.started ==> w.stopped)
    && Resolved(w.tree, request.strategy) && !w.pushed && !w.threw && !w.summarised
  }

  /** A commit concludes a resolved merge the request lets be committed. */
  predicate MayCommit(w: Watch, request: Request) {
    && request.strategy == MergeBase && request.commit && w.agreed && !w.committed && !w.pushed
    && Resolved(w.tree, request.strategy) && !w.threw && !w.summarised
  }

  /** The summary comes last, and a started agent was told to stop. */
  predicate MaySummarise(w: Watch) {
    w.started ==> w.stopTried
  }

  predicate Agrees(integration: Integration, head: Option<string>) {
    !integration.Broken? && Some(integration.before) == head
  }

  /** The rule for the next call: nothing follows the summary, and nine calls have a rule of their own. */
  ghost predicate Allowed(w: Watch, call: Call, before: Trace, request: Request) {
    && !w.summarised && (call == Integrate ==> MayIntegrate(w, before, request))
    && (call == StartAgent ==> MayStart(w)) && (call == ResolveAgent ==> MayAsk(w, request))
    && (call == Stage ==> MayStage(w, before, request))
    && (call == ContinueRebase ==> MayContinue(w, request)) && (call == SkipRebase ==> MaySkip(w, request))
    && (call == Commit ==> MayCommit(w, request)) && (call == Push ==> MayPush(w, before, request))
    && (call == WriteSummary ==> MaySummarise(w))
  }

  /** Calls that change the index, whether they return or not. */
  predicate Changes(call: Call) {
    call == Integrate || call == Stage || call == ContinueRebase || call == SkipRebase
  }

  /** Calls that may stop at other conflicts. */
  predicate Stops(call: Call) {
    call == Integrate || call == ContinueRebase || call == SkipRebase
  }

  /** `before` is the trace the event ends. */
  function AdvanceTree(t: Tree, e: Event, before: Trace, ports: Ports): Tree {
    Tree(integration := if e == Event(Integrate, true) then Some(ports.integration(before)) else t.integration,
         captured := e == Event(CaptureBaseline, true) || (t.captured && !Stops(e.call)),
         staged := t.staged + if e.call == Stage then 1 else 0,
         unread := Changes(e.call) || (t.unread && e != Event(ReadConflicts, true)),
         conflicts := if e == Event(ReadConflicts, true) then ports.conflicts(before) else t.conflicts,
         unchecked := e.call == Stage || (t.unchecked && e != Event(ValidateMarkers, true)),
         state := if Changes(e.call) then None
                  else if e == Event(InspectState, true) then Some(GitState(ports.rebasing(before), ports.worktreeClean(before)))
                  else t.state)
  }

  ghost function Advance(w: Watch, e: Event, before: Trace, request: Request, ports: Ports): Watch {
    Watch(head := if e == Event(ReadPullRequest, true) then ports.head(before) else w.head,
          agreed := if e == Event(Integrate, true) then Agrees(ports.integration(before), w.head) else w.agreed,
          tree := AdvanceTree(w.tree, e, before, ports),
          asking := e.call == ResolveAgent || (w.asking && e.call != Stage),
          started := w.started || e.call == StartAgent,
          stopTried := w.stopTried || e.call == StopAgent,
          stopped := w.stopped || e == Event(StopAgent, true),
          committed := w.committed || e == Event(Commit, true),
          pushed := w.pushed || e.call == Push,
          threw := w.threw || !e.returned,
          summarised := w.summarised || e.call == WriteSummary,
          broken := w.broken || !Allowed(w, e.call, before, request))
  }

  const UNTOUCHED := Tree(None, false, 0, false, [], false, None)
  const UNWATCHED := Watch(None, false, UNTOUCHED, false, false, false, false, false, false, false, false, false)

  ghost function Watched(trace: Trace, request: Request, ports: Ports): Watch {
    if trace == [] then UNWATCHED
    else
      var before := trace[..|trace| - 1];
      Advance(Watched(before, request, ports), trace[|trace| - 1], before, request, ports)
  }

  // ----- what a run that breaks no rule looks like ---------------------------

  ghost predicate Occurred(trace: Trace, call: Call, upTo: nat) {
    exists i | 0 <= i < upTo && i < |trace| :: trace[i].call == call
  }

  ghost predicate Returned(trace: Trace, call: Call, upTo: nat) {
    exists i | 0 <= i < upTo && i < |trace| :: trace[i] == Event(call, true)
  }

  lemma {:induction false} OneMoreWatched(trace: Trace, request: Request, ports: Ports)
    requires trace != []
    ensures var n := |trace| - 1;
            Watched(trace, request, ports) ==
            Advance(Watched(trace[..n], request, ports), trace[n], trace[..n], request, ports)
  {
  }

  lemma {:induction false} WatchPrefix(trace: Trace, request: Request, ports: Ports, i: nat)
    requires i <= |trace| && !Watched(trace, request, ports).broken
    ensures !Watched(trace[..i], request, ports).broken
    decreases |trace|
  {
    hide Watched, Allowed;
    if i == |trace| {
      assert trace[..i] == trace;
    } else {
      OneMoreWatched(trace, request, ports);
      WatchPrefix(trace[..|trace| - 1], request, ports, i);
      assert trace[..|trace| - 1][..i] == trace[..i];
    }
  }

  /** What the monitor has recorded did happen, and what it has not did not. */
  lemma {:induction false} WatchMeans(trace: Trace, request: Request, ports: Ports)
    ensures var w, n := Watched(trace, request, ports), |trace|;
            && (w.started <==> Occurred(trace, StartAgent, n)) && (w.stopTried <==> Occurred(trace, StopAgent, n))
            && (w.stopped <==> Returned(trace, StopAgent, n)) && (w.committed <==> Returned(trace, Commit, n))
            && (w.pushed <==> Occurred(trace, Push, n)) && (w.summarised <==> Occurred(trace, WriteSummary, n))
            && (w.threw <==> exists i | 0 <= i < n :: !trace[i].returned)
  {
    hide Watched, Allowed, Occurred, Returned;
    if trace == [] {
      NothingWatched(request, ports);
    } else {
      var n := |trace| - 1;
      WatchMeans(trace[..n], request, ports);
      assert trace == trace[..n] + [trace[n]];
      OneMoreEvent(trace[..n], trace[n]);
      OneMoreThrow(trace[..n], trace[n]);
      OneMoreWatched(trace, request, ports);
    }
  }

  lemma {:induction false} NothingWatched(request: Request, ports: Ports)
    ensures Watched([], request, ports) == UNWATCHED
    ensures forall call :: !Occurred([], call, 0) && !Returned([], call, 0)
  {
  }

  lemma {:induction false} OneMoreThrow(trace: Trace, e: Event)
    ensures (exists i | 0 <= i < |trace + [e]| :: !(trace + [e])[i].returned) <==>
            (exists i | 0 <= i < |trace| :: !trace[i].returned) || !e.returned
  {
    if i :| 0 <= i < |trace| && !trace[i].returned { assert !(trace + [e])[i].returned; }
    if !e.returned { assert !(trace + [e])[|trace|].returned; }
  }

  lemma {:induction false} OneMoreEvent(trace: Trace, e: Event)
    ensures forall call :: Occurred(trace + [e], call, |trace| + 1) <==> Occurred(trace, call, |trace|) || e.call == call
    ensures forall call :: Returned(trace + [e], call, |trace| + 1) <==> Returned(trace, call, |trace|) || e == Event(call, true)
  {
    var all := trace + [e];
    forall call ensures Occurred(all, call, |all|) <==> Occurred(trace, call, |trace|) || e.call == call {
      if Occurred(trace, call, |trace|) {
        var i :| 0 <= i < |trace| && trace[i].call == call;
        assert all[i].call == call;
      }
      if e.call == call { assert all[|trace|].call == call; }
    }
    forall call ensures Returned(all, call, |all|) <==> Returned(trace, call, |trace|) || e == Event(call, true) {
      if Returned(trace, call, |trace|) {
        var i :| 0 <= i < |trace| && trace[i] == Event(call, true);
        assert all[i] == Event(call, true);
      }
      if e == Event(call, true) { assert all[|trace|] == Event(call, true); }
    }
  }

  lemma {:induction false} WatchAt(trace: Trace, request: Request, ports: Ports, i: nat)
    requires i < |trace| && !Watched(trace, request, ports).broken
    ensures Allowed(Watched(trace[..i], request, ports), trace[i].call, trace[..i], request)
  {
    hide Watched, Allowed;
    WatchPrefix(trace, request, ports, i + 1);
    assert trace[..i + 1][..i] == trace[..i];
    OneMoreWatched(trace[..i + 1], request, ports);
  }

  /**
   A push was asked for, follows a commit when merging, comes after the agent has stopped if it
   was started, is the only one, and nothing had thrown before it.
   */
  lemma {:induction false} PushIsSafe(trace: Trace, request: Request, ports: Ports, i: nat)
    requires !Watched(trace, request, ports).broken && i < |trace| && trace[i].call == Push
    ensures request.push && (request.strategy == MergeBase ==> request.commit && Returned(trace, Commit, i))
    ensures Occurred(trace, StartAgent, |trace|) ==> Occurred(trace, StartAgent, i) && Returned(trace, StopAgent, i)
    ensures forall j | 0 <= j < i :: trace[j].returned
    ensures forall j | 0 <= j < |trace| && trace[j].call == Push :: j == i
    ensures i > 0 && trace[i - 1] == Event(BeforePush, true)
  {
    hide Watched;
    WatchAt(trace, request, ports, i);
    WatchMeans(trace[..i], request, ports);
    assert forall j | 0 <= j < i :: trace[j] == trace[..i][j];
    if request.strategy == MergeBase { CommitIsAllowed(trace, request, ports, i); }
    forall j | 0 <= j < |trace| && trace[j].call == Push ensures j == i { PushIsOnly(trace, request, ports, i, j); }
    forall j | i < j < |trace| ensures trace[j].call != StartAgent { NoStartAfter(trace, request, ports, i, j); }
  }

  lemma {:induction false} CommitIsAllowed(trace: Trace, request: Request, ports: Ports, i: nat)
    requires !Watched(trace, request, ports).broken && i <= |trace| && Returned(trace, Commit, i)
    ensures request.commit && request.strategy == MergeBase
  {
    hide Watched;
    var j :| 0 <= j < i && j < |trace| && trace[j] == Event(Commit, true);
    WatchAt(trace, request, ports, j);
  }

  lemma {:induction false} PushIsOnly(trace: Trace, request: Request, ports: Ports, i: nat, j: nat)
    requires !Watched(trace, request, ports).broken && i < |trace| && j < |trace|
    requires trace[i].call == Push && trace[j].call == Push
    ensures i == j
  {
    hide Watched, Resolved, EndsWith, MayIntegrate, MayStart, MayAsk, MayStage, MayContinue, MaySkip, MayCommit, MaySummarise;
    var first, second := if i < j then i else j, if i < j then j else i;
    WatchAt(trace, request, ports, second);
    if first < second { WatchNotes(trace, request, ports, first, second); }
  }

  lemma {:induction false} WatchNotes(trace: Trace, request: Request, ports: Ports, i: nat, j: nat)
    requires i < j <= |trace|
    ensures trace[i].call == Push ==> Watched(trace[..j], request, ports).pushed
    ensures trace[i].call == WriteSummary ==> Watched(trace[..j], request, ports).summarised
  {
    hide Watched, Returned;
    WatchMeans(trace[..j], request, ports);
    assert trace[..j][i] == trace[i];
  }

  lemma {:induction false} NoStartAfter(trace: Trace, request: Request, ports: Ports, i: nat, j: nat)
    requires !Watched(trace, request, ports).broken && i < j < |trace| && trace[i].call == Push
    ensures trace[j].call != StartAgent
  {
    hide Watched;
    WatchAt(trace, request, ports, j);
    WatchMeans(trace[..j], request, ports);
  }

  /** Whatever happened, an agent that was started is told to stop before the summary, which comes last. */
  lemma {:induction false} SummaryIsLast(trace: Trace, request: Request, ports: Ports, i: nat)
    requires !Watched(trace, request, ports).broken && i < |trace| && trace[i].call == WriteSummary
    ensures i == |trace| - 1
    ensures Occurred(trace, StartAgent, |trace|) ==> Occurred(trace, StopAgent, i)
  {
    hide Watched;
    SummaryEnds(trace, request, ports, i, |trace| - 1);
    StoppedBySummary(trace, request, ports, i);
    if Occurred(trace, StartAgent, |trace|) {
      var k :| 0 <= k < |trace| && trace[k].call == StartAgent;
      assert trace[..i][k].call == StartAgent;
      assert Occurred(trace[..i], StartAgent, i);
    }
  }

  lemma {:induction false} StoppedBySummary(trace: Trace, request: Request, ports: Ports, i: nat)
    requires !Watched(trace, request, ports).broken && i < |trace| && trace[i].call == WriteSummary
    ensures Occurred(trace[..i], StartAgent, i) ==> Occurred(trace, StopAgent, i)
  {
    hide Watched, MayIntegrate, MayStart, MayAsk, MayStage, MayContinue, MaySkip, MayCommit, MayPush, Returned;
    WatchAt(trace, request, ports, i);
    WatchMeans(trace[..i], request, ports);
    assert forall k | 0 <= k < i :: trace[..i][k] == trace[k];
  }

  lemma {:induction false} SummaryEnds(trace: Trace, request: Request, ports: Ports, i: nat, j: nat)
    requires !Watched(trace, request, ports).broken && i < |trace| && trace[i].call == WriteSummary && j < |trace|
    ensures j <= i
  {
    hide Watched, MayIntegrate, MayStart, MayAsk, MayStage, MayContinue, MaySkip, MayCommit, MayPush, MaySummarise;
    WatchAt(trace, request, ports, j);
    if i < j { WatchNotes(trace, request, ports, i, j); }
  }

  // ----- what is kept was resolved -------------------------------------------

  function Count(trace: Trace, call: Call): nat {
    if trace == [] then 0 else Count(trace[..|trace| - 1], call) + if trace[|trace| - 1].call == call then 1 else 0
  }

  /** No call between the two places changes the index. */
  ghost predicate Unchanged(trace: Trace, from: nat, to: nat) {
    forall k | from < k < to && k < |trace| :: !Changes(trace[k].call)
  }

  /** At place `j` the index was read and had these conflicts. */
  ghost predicate FoundConflicts(trace: Trace, ports: Ports, j: nat, conflicts: seq<Conflict>) {
    j < |trace| && trace[j] == Event(ReadConflicts, true) && ports.conflicts(trace[..j]) == conflicts
  }

  /** At place `j` git was inspected and said this. */
  ghost predicate FoundState(trace: Trace, ports: Ports, j: nat, state: GitState) {
    && j < |trace| && trace[j] == Event(InspectState, true)
    && GitState(ports.rebasing(trace[..j]), ports.worktreeClean(trace[..j])) == state
  }

  /** At place `k` git integrated the base, with this answer. */
  ghost predicate Integrated(trace: Trace, ports: Ports, k: nat, integration: Integration) {
    k < |trace| && trace[k] == Event(Integrate, true) && ports.integration(trace[..k]) == integration
  }

  /** Before place `i` something was staged and checked, and the index, read since it last changed, was empty. */
  ghost predicate SettledBefore(trace: Trace, ports: Ports, i: nat) {
    && i <= |trace| && Count(trace[..i], Stage) > 0
    && (exists j: nat | j < i :: FoundConflicts(trace, ports, j, []) && Unchanged(trace, j, i))
    && (forall j | 0 <= j < i && trace[j].call == Stage :: exists k | j < k < i :: trace[k] == Event(ValidateMarkers, true))
  }

  lemma {:induction false} StagedIsCounted(trace: Trace, request: Request, ports: Ports)
    ensures Watched(trace, request, ports).tree.staged == Count(trace, Stage)
  {
    hide Allowed;
    if trace != [] { StagedIsCounted(trace[..|trace| - 1], request, ports); }
  }

  lemma {:induction false} UnchangedMore(trace: Trace, from: nat, n: nat)
    requires n < |trace| && Unchanged(trace[..n], from, n) && !Changes(trace[n].call)
    ensures Unchanged(trace, from, n + 1)
  {
    forall k | from < k < n + 1 ensures !Changes(trace[k].call) {
      assert k < n ==> trace[k] == trace[..n][k];
    }
  }

  lemma {:induction false} FoundEarlier(trace: Trace, ports: Ports, n: nat, j: nat)
    requires j < n <= |trace|
    ensures trace[..n][j] == trace[j] && trace[..n][..j] == trace[..j]
    ensures forall conflicts :: FoundConflicts(trace[..n], ports, j, conflicts) <==> FoundConflicts(trace, ports, j, conflicts)
    ensures forall state :: FoundState(trace[..n], ports, j, state) <==> FoundState(trace, ports, j, state)
    ensures forall integration :: Integrated(trace[..n], ports, j, integration) <==> Integrated(trace, ports, j, integration)
  {
    assert trace[..n][..j] == trace[..j];
  }

  /** The index as it is known was read since it changed; and nothing has been read since. */
  lemma {:induction false} ReadSince(trace: Trace, request: Request, ports: Ports) returns (j: nat)
    requires var t := Watched(trace, request, ports).tree; t.integration.Some? && !t.unread
    ensures j < |trace| && FoundConflicts(trace, ports, j, Watched(trace, request, ports).tree.conflicts)
    ensures Unchanged(trace, j, |trace|) && forall k | j < k < |trace| :: trace[k] != Event(ReadConflicts, true)
  {
    hide Watched, Allowed;
    if trace == [] { NothingWatched(request, ports); }
    var n := |trace| - 1;
    OneMoreWatched(trace, request, ports);
    if trace[n] == Event(ReadConflicts, true) {
      j := n;
    } else {
      j := ReadSince(trace[..n], request, ports);
      FoundEarlier(trace, ports, n, j);
      UnchangedMore(trace, j, n);
      forall k | j < k < n ensures trace[k] != Event(ReadConflicts, true) { assert trace[k] == trace[..n][k]; }
    }
  }

  lemma {:induction false} StateSince(trace: Trace, request: Request, ports: Ports) returns (j: nat)
    requires Watched(trace, request, ports).tree.state.Some?
    ensures j < |trace| && FoundState(trace, ports, j, Watched(trace, request, ports).tree.state.value)
    ensures Unchanged(trace, j, |trace|)
  {
    hide Watched, Allowed;
    if trace == [] { NothingWatched(request, ports); }
    var n := |trace| - 1;
    OneMoreWatched(trace, request, ports);
    if trace[n] == Event(InspectState, true) {
      j := n;
    } else {
      j := StateSince(trace[..n], request, ports);
      FoundEarlier(trace, ports, n, j);
      UnchangedMore(trace, j, n);
    }
  }

  lemma {:induction false} IntegratedAt(trace: Trace, request: Request, ports: Ports) returns (k: nat)
    requires Watched(trace, request, ports).tree.integration.Some?
    ensures k < |trace| && Integrated(trace, ports, k, Watched(trace, request, ports).tree.integration.value)
  {
    hide Watched, Allowed;
    if trace == [] { NothingWatched(request, ports); }
    var n := |trace| - 1;
    OneMoreWatched(trace, request, ports);
    if trace[n] == Event(Integrate, true) {
      k := n;
    } else {
      k := IntegratedAt(trace[..n], request, ports);
      FoundEarlier(trace, ports, n, k);
    }
  }

  lemma {:induction false} CheckedAfter(trace: Trace, request: Request, ports: Ports, j: nat) returns (k: nat)
    requires j < |trace| && trace[j].call == Stage && !Watched(trace, request, ports).tree.unchecked
    ensures j < k < |trace| && trace[k] == Event(ValidateMarkers, true)
  {
    hide Watched, Allowed;
    var n := |trace| - 1;
    OneMoreWatched(trace, request, ports);
    if j < n && trace[n] != Event(ValidateMarkers, true) {
      k := CheckedAfter(trace[..n], request, ports, j);
    } else {
      k := n;
    }
  }

  /** When something is committed or pushed, or a rebase goes on, the last read of the index had found no conflict. */
  lemma {:induction false} NothingConflictedIsKept(trace: Trace, request: Request, ports: Ports, i: nat, j: nat)
    requires !Watched(trace, request, ports).broken && j < i < |trace|
    requires trace[i].call in {Commit, Push, ContinueRebase, SkipRebase} && trace[j] == Event(ReadConflicts, true)
    requires forall k | j < k < i :: trace[k] != Event(ReadConflicts, true)
    ensures ports.conflicts(trace[..j]) == []
  {
    hide Watched;
    WatchAt(trace, request, ports, i);
    LastRead(trace[..i], request, ports, j);
    assert trace[..i][..j] == trace[..j];
  }

  lemma {:induction false} LastRead(trace: Trace, request: Request, ports: Ports, j: nat)
    requires j < |trace| && trace[j] == Event(ReadConflicts, true)
    requires forall k | j < k < |trace| :: trace[k] != Event(ReadConflicts, true)
    ensures Watched(trace, request, ports).tree.conflicts == ports.conflicts(trace[..j])
  {
    hide Watched, Allowed;
    var n := |trace| - 1;
    OneMoreWatched(trace, request, ports);
    if j < n {
      LastRead(trace[..n], request, ports, j);
      assert trace[..n][..j] == trace[..j];
    }
  }

  /** When something is committed or pushed, or a rebase goes on, everything staged was checked for markers afterwards. */
  lemma {:induction false} NothingUncheckedIsKept(trace: Trace, request: Request, ports: Ports, i: nat, j: nat)
    requires !Watched(trace, request, ports).broken && j < i < |trace|
    requires trace[i].call in {Commit, Push, ContinueRebase, SkipRebase} && trace[j].call == Stage
    ensures exists k | j < k < i :: trace[k] == Event(ValidateMarkers, true)
  {
    hide Watched;
    WatchAt(trace, request, ports, i);
    var k := CheckedAfter(trace[..i], request, ports, j);
    assert trace[k] == Event(ValidateMarkers, true);
  }

  lemma {:induction false} SettledMeans(trace: Trace, request: Request, ports: Ports, i: nat)
    requires i <= |trace| && Settled(Watched(trace[..i], request, ports).tree)
    ensures SettledBefore(trace, ports, i)
  {
    hide Watched;
    StagedIsCounted(trace[..i], request, ports);
    var j := ReadSince(trace[..i], request, ports);
    FoundEarlier(trace, ports, i, j);
    UnchangedWithin(trace, i, j);
    forall m | 0 <= m < i && trace[m].call == Stage ensures exists k | m < k < i :: trace[k] == Event(ValidateMarkers, true) {
      assert trace[..i][m] == trace[m];
      var k := CheckedAfter(trace[..i], request, ports, m);
      assert trace[k] == Event(ValidateMarkers, true);
    }
  }

  /**
   What is committed or pushed was resolved: the integration was a rebase without conflicts that
   moved the head; or it had conflicts, and something was staged and checked and the index then
   found empty, and git said that no rebase was in progress any more.
   */
  lemma {:induction false} OnlyResolvedIsKept(trace: Trace, request: Request, ports: Ports, i: nat)
    returns (k: nat, integration: Integration)
    requires !Watched(trace, request, ports).broken && i < |trace| && trace[i].call in {Commit, Push}
    ensures k < i && Integrated(trace, ports, k, integration) && !integration.Broken?
    ensures forall m | 0 <= m < |trace| && trace[m] == Event(Integrate, true) :: m == k
    ensures integration.Clean? ==> integration.operation == Rebase && integration.after != integration.before
    ensures integration.Conflicted? ==> SettledBefore(trace, ports, i)
    ensures integration.Conflicted? && request.strategy == Rebase ==>
              exists j: nat, clean: bool | j < i :: FoundState(trace, ports, j, GitState(false, clean)) && Unchanged(trace, j, i)
  {
    hide Watched, Settled;
    WatchAt(trace, request, ports, i);
    var t := Watched(trace[..i], request, ports).tree;
    k := IntegratedAt(trace[..i], request, ports);
    FoundEarlier(trace, ports, i, k);
    integration := t.integration.value;
    forall m | 0 <= m < |trace| && trace[m] == Event(Integrate, true) ensures m == k {
      OneIntegration(trace, request, ports, m, k);
    }
    if integration.Conflicted? {
      SettledMeans(trace, request, ports, i);
      if request.strategy == Rebase {
        var j := StateSince(trace[..i], request, ports);
        FoundEarlier(trace, ports, i, j);
        UnchangedWithin(trace, i, j);
        assert FoundState(trace, ports, j, GitState(false, t.state.value.clean));
      }
    }
  }

  lemma {:induction false} UnchangedWithin(trace: Trace, i: nat, j: nat)
    requires i <= |trace| && Unchanged(trace[..i], j, i)
    ensures Unchanged(trace, j, i)
  {
    forall k | j < k < i ensures !Changes(trace[k].call) { assert trace[k] == trace[..i][k]; }
  }

  lemma {:induction false} IntegrationStays(trace: Trace, request: Request, ports: Ports, m: nat)
    requires m < |trace| && trace[m] == Event(Integrate, true)
    ensures Watched(trace, request, ports).tree.integration.Some?
  {
    hide Watched, Allowed;
    var n := |trace| - 1;
    OneMoreWatched(trace, request, ports);
    if m < n { IntegrationStays(trace[..n], request, ports, m); }
  }

  /** The base is integrated once. */
  lemma {:induction false} OneIntegration(trace: Trace, request: Request, ports: Ports, m: nat, k: nat)
    requires !Watched(trace, request, ports).broken && m < |trace| && k < |trace|
    requires trace[m] == trace[k] == Event(Integrate, true)
    ensures m == k
  {
    hide Watched;
    if m != k {
      var first, second := if m < k then m else k, if m < k then k else m;
      WatchAt(trace, request, ports, second);
      IntegrationStays(trace[..second], request, ports, first);
      assert false;
    }
  }

  /** A rebase is continued, and a commit of it skipped, only when its conflicts are settled. */
  lemma {:induction false} RebaseGoesOnSettled(trace: Trace, request: Request, ports: Ports, i: nat)
    requires !Watched(trace, request, ports).broken && i < |trace| && trace[i].call in {ContinueRebase, SkipRebase}
    ensures request.strategy == Rebase && SettledBefore(trace, ports, i)
    ensures trace[i].call == SkipRebase ==>
              exists j: nat | j < i :: FoundState(trace, ports, j, GitState(true, true)) && Unchanged(trace, j, i)
  {
    hide Watched, Settled;
    WatchAt(trace, request, ports, i);
    SettledMeans(trace, request, ports, i);
    if trace[i].call == SkipRebase {
      var j := StateSince(trace[..i], request, ports);
      FoundEarlier(trace, ports, i, j);
      UnchangedWithin(trace, i, j);
    }
  }

  lemma {:induction false} CapturedByLast(trace: Trace, request: Request, ports: Ports)
    requires Watched(trace, request, ports).tree.captured
    ensures trace != []
    ensures trace[|trace| - 1] == Event(CaptureBaseline, true) ||
            (Watched(trace[..|trace| - 1], request, ports).tree.captured && !Stops(trace[|trace| - 1].call))
  {
    hide Watched, Allowed, Stops;
    if trace == [] {
      NothingWatched(request, ports);
    } else {
      OneMoreWatched(trace, request, ports);
    }
  }

  lemma {:induction false} CapturedSince(trace: Trace, request: Request, ports: Ports) returns (k: nat)
    requires Watched(trace, request, ports).tree.captured
    ensures k < |trace| && trace[k] == Event(CaptureBaseline, true) && forall m | k < m < |trace| :: !Stops(trace[m].call)
  {
    CapturedByLast(trace, request, ports);
    hide Watched, Stops;
    var n := |trace| - 1;
    if trace[n] == Event(CaptureBaseline, true) {
      k := n;
    } else {
      k := CapturedSince(trace[..n], request, ports);
      forall m | k < m < n ensures !Stops(trace[m].call) { assert trace[m] == trace[..n][m]; }
    }
  }

  lemma {:induction false} CapturedAt(trace: Trace, request: Request, ports: Ports, i: nat) returns (k: nat)
    requires !Watched(trace, request, ports).broken && i < |trace| && trace[i].call == Stage
    ensures k < i && trace[k] == Event(CaptureBaseline, true) && forall m | k < m < i :: !Stops(trace[m].call)
  {
    hide Watched, Prepared;
    WatchAt(trace, request, ports, i);
    k := CapturedSince(trace[..i], request, ports);
    forall m | k < m < i ensures !Stops(trace[m].call) { assert trace[m] == trace[..i][m]; }
  }

  /**
   Whatever is staged is a whole attempt at what the index had last: the index was read, nothing
   changed it, and the calls just before are those of an attempt at its conflicts, in order; and
   the files were captured since git stopped at these conflicts.
   */
  lemma {:induction false} EveryStagingIsAnAttempt(trace: Trace, request: Request, ports: Ports, i: nat)
    returns (j: nat, conflicts: seq<Conflict>, k: nat)
    requires !Watched(trace, request, ports).broken && i < |trace| && trace[i].call == Stage
    ensures j < i && FoundConflicts(trace, ports, j, conflicts) && Unchanged(trace, j, i) && conflicts != []
    ensures Prepared(trace[..i], conflicts, request)
    ensures k < i && trace[k] == Event(CaptureBaseline, true) && forall m | k < m < i :: !Stops(trace[m].call)
  {
    hide Watched, Prepared;
    k := CapturedAt(trace, request, ports, i);
    WatchAt(trace, request, ports, i);
    conflicts := Watched(trace[..i], request, ports).tree.conflicts;
    j := ReadSince(trace[..i], request, ports);
    FoundEarlier(trace, ports, i, j);
    UnchangedWithin(trace, i, j);
  }

  /** Things are staged at most `maxAttempts` times, and the agent is asked at most once before each staging. */
  lemma {:induction false} AttemptsAreLimited(trace: Trace, request: Request, ports: Ports)
    requires !Watched(trace, request, ports).broken
    ensures Count(trace, Stage) <= request.maxAttempts && Count(trace, ResolveAgent) <= request.maxAttempts
    ensures var w := Watched(trace, request, ports);
            Count(trace, ResolveAgent) <= Count(trace, Stage) + if w.asking then 1 else 0
    ensures Watched(trace, request, ports).asking ==> Count(trace, Stage) < request.maxAttempts
  {
    hide Watched;
    StagedIsCounted(trace, request, ports);
    if trace == [] {
      NothingWatched(request, ports);
    } else {
      var n := |trace| - 1;
      WatchPrefix(trace, request, ports, n);
      AttemptsAreLimited(trace[..n], request, ports);
      StagedIsCounted(trace[..n], request, ports);
      OneMoreWatched(trace, request, ports);
    }
  }

  /** The head a pull request was read with is the one its integration started from, or nothing is kept of it. */
  lemma {:induction false} OnlyTheHeadIsIntegrated(trace: Trace, request: Request, ports: Ports, i: nat)
    requires !Watched(trace, request, ports).broken && i < |trace| && trace[i].call in {StartAgent, Commit, Push}
    ensures exists j, k | 0 <= j < k < i && trace[j] == Event(ReadPullRequest, true) && trace[k] == Event(Integrate, true) ::
              !ports.integration(trace[..k]).Broken? && Some(ports.integration(trace[..k]).before) == ports.head(trace[..j])
  {
    hide Watched;
    WatchAt(trace, request, ports, i);
    var j, k := AgreedOn(trace[..i], request, ports);
    assert trace[..i][..j] == trace[..j] && trace[..i][..k] == trace[..k];
    assert trace[..i][j] == trace[j] && trace[..i][k] == trace[k];
  }

  lemma {:induction false} HeadRead(trace: Trace, request: Request, ports: Ports) returns (j: nat)
    requires Watched(trace, request, ports).head.Some?
    ensures j < |trace| && trace[j] == Event(ReadPullRequest, true)
    ensures ports.head(trace[..j]) == Watched(trace, request, ports).head
  {
    hide Watched, Allowed;
    if trace == [] { NothingWatched(request, ports); }
    var n := |trace| - 1;
    OneMoreWatched(trace, request, ports);
    if trace[n] == Event(ReadPullRequest, true) {
      j := n;
    } else {
      j := HeadRead(trace[..n], request, ports);
      assert trace[..n][..j] == trace[..j];
    }
  }

  lemma {:induction false} AgreedOn(trace: Trace, request: Request, ports: Ports) returns (j: nat, k: nat)
    requires Watched(trace, request, ports).agreed
    ensures j < k < |trace| && trace[j] == Event(ReadPullRequest, true) && trace[k] == Event(Integrate, true)
    ensures Agrees(ports.integration(trace[..k]), ports.head(trace[..j]))
  {
    hide Watched, Allowed;
    if trace == [] { NothingWatched(request, ports); }
    var n := |trace| - 1;
    OneMoreWatched(trace, request, ports);
    if trace[n] == Event(Integrate, true) {
      k := n;
      j := HeadRead(trace[..n], request, ports);
      assert trace[..n][..j] == trace[..j];
    } else {
      j, k := AgreedOn(trace[..n], request, ports);
      assert trace[..n][..j] == trace[..j] && trace[..n][..k] == trace[..k];
    }
  }

  /** The base is integrated right after the pull request, its base and for a rebase its commits were read, and nothing threw. */
  lemma {:induction false} IntegrationIsOpened(trace: Trace, request: Request, ports: Ports, i: nat)
    requires !Watched(trace, request, ports).broken && i < |trace| && trace[i].call == Integrate
    ensures i == if request.strategy == Rebase then 4 else 3
    ensures trace[0].call == ReadPullRequest && trace[1].call == ReadBase && trace[i - 1].call == Progress
    ensures request.strategy == Rebase ==> trace[2].call == CountCommits
    ensures forall k | 0 <= k < i :: trace[k].returned
  {
    hide Watched;
    WatchAt(trace, request, ports, i);
    assert trace[..i] == AllReturned(OpeningCalls(request));
    assert forall k | 0 <= k < i :: trace[k] == trace[..i][k];
  }
}
