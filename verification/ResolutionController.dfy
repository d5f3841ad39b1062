/**
 The merge-conflict resolution: integration, attempts under a limit, commit, push and the
 agent's lifecycle, over ports that may answer anything and may throw at any call.
 */
module ResolutionController {
  import opened Wrappers
  import opened ConflictRouting
  import opened ResolutionTrace

  /** How a step ended; a thrown problem ends its callers too. */
  datatype Status = Done | Thrown(problem: Problem) {
    predicate IsFailure() { Thrown? }
    function PropagateFailure(): Status requires IsFailure() { this }
  }

  /**
   What an attempt does, in order: prepare the files, stage them, and read the index.
   */
  function AttemptCalls(request: Request, conflicts: seq<Conflict>, started: bool): seq<Call> {
    PrepareCalls(request, Classification(conflicts, request.rules), started) + [Stage, ReadConflicts]
  }

  /** The report of an attempt carries its number. */
  predicate Numbered(reports: seq<nat>) {
    forall i | 0 <= i < |reports| :: reports[i] == i + 1
  }

  /** The tree once something more is staged. */
  function Staged(t: Tree): Tree {
    t.(staged := t.staged + 1, unread := true, unchecked := true, state := None)
  }

  predicate Quiet(c: Call) {
    c !in {ReadPullRequest, ResolutionTrace.Integrate, CaptureBaseline, ReadConflicts, StartAgent, ResolveAgent, Stage, ValidateMarkers,
           ContinueRebase, InspectState, SkipRebase, StopAgent, Commit, Push, WriteSummary}
  }

  /** From one trace to another, exactly these calls were made, and all returned. */
  ghost predicate Did(before: Trace, calls: seq<Call>, after: Trace) {
    after == before + AllReturned(calls)
  }

  lemma {:induction false} DidMore(before: Trace, calls: seq<Call>, between: Trace, more: seq<Call>, after: Trace)
    requires Did(before, calls, between) && Did(between, more, after)
    ensures Did(before, calls + more, after)
  {
  }

  lemma {:induction false} RestsOn(trace: Trace, c: Call, returned: bool)
    ensures Rested(trace) && Idle(c) && returned ==> Rested(trace + [Event(c, returned)])
  {
    if Rested(trace) && Idle(c) && returned {
      var m: nat :| RestedSince(trace, m);
      assert RestedSince(trace + [Event(c, returned)], m);
    }
  }

  /** An attempt made after the trace rested is prepared. */
  lemma {:induction false} DidPrepare(before: Trace, conflicts: seq<Conflict>, request: Request, started: bool, after: Trace)
    requires Rested(before) && forall c <- conflicts :: !RouteOf(c.path, request.rules).Refused?
    requires Did(before, PrepareCalls(request, Classification(conflicts, request.rules), started), after)
    ensures Prepared(after, conflicts, request)
  {
    hide PrepareCalls, Classification, Rested, RouteOf;
    assert after[..|before|] == before;
    assert PreparedFrom(after, |before|, started, conflicts, request);
  }

  lemma {:induction false} DidFromStart(calls: seq<Call>, after: Trace)
    requires Did([], calls, after)
    ensures after == AllReturned(calls)
  {
  }

  lemma {:induction false} DidNothing(trace: Trace)
    ensures Did(trace, [], trace)
  {
  }

  class Run {
    const request: Request
    const ports: Ports
    var trace: Trace
    var attempts: nat
    var reports: seq<nat>
    var started: bool
    var stopped: bool

    ghost function W(): Watch reads this`trace {
      Watched(trace, request, ports)
    }

    constructor (request: Request, ports: Ports)
      ensures this.request == request && this.ports == ports
      ensures Fine() && trace == [] && attempts == 0 && reports == [] && !started && W() == UNWATCHED
    {
      this.request, this.ports := request, ports;
      trace, attempts, reports, started, stopped := [], 0, [], false, false;
    }

    /** Holds however the run goes. */
    ghost predicate Sound() reads this {
      && !W().broken && !W().summarised && W().started == started && W().stopped == stopped
      && (W().stopped ==> W().stopTried)
      && Numbered(reports) && |reports| <= W().tree.staged <= attempts <= |reports| + 1 && attempts <= request.maxAttempts
    }

    /** Nothing that ends a run has been done. */
    ghost predicate Open() reads this {
      Sound() && !W().pushed && !W().committed && !W().stopTried
    }

    /** Nothing has thrown either. */
    ghost predicate Fine() reads this {
      Open() && !W().threw
    }

    /** The pull request's head has been integrated. */
    ghost predicate Going() reads this {
      Fine() && W().agreed
    }

    /** The integration has conflicts, and the agent has not been asked since something was staged. */
    ghost predicate Working() reads this {
      Going() && WasConflicted(W().tree) && !W().asking
    }

    /** A problem other than that of a port is found while nothing has thrown; the limit is reported when it is reached. */
    ghost predicate Ended(s: Status) reads this {
      s.Thrown? ==> (s.problem.PortThrew? <==> W().threw) && (s.problem.AttemptLimit? ==> attempts == request.maxAttempts)
    }

    method Invoke(c: Call) returns (s: Status)
      modifies this`trace
      ensures trace == old(trace) + [Event(c, s.Done?)]
      ensures s == if ports.throws(old(trace), c) then Thrown(PortThrew) else Done
      ensures W() == Advance(old(W()), Event(c, s.Done?), old(trace), request, ports)
    {
      s := if ports.throws(trace, c) then Thrown(PortThrew) else Done;
      trace := trace + [Event(c, s.Done?)];
      assert trace[..|trace| - 1] == old(trace);
    }

    /** A call without a rule of its own. */
    method Do(c: Call) returns (s: Status)
      requires Going() && Quiet(c)
      modifies this`trace
      ensures Open() && Ended(s) && W().tree == old(W()).tree && W().asking == old(W()).asking
      ensures s.Done? ==> Going() && Did(old(trace), [c], trace) && (Idle(c) && Rested(old(trace)) ==> Rested(trace))
    {
      hide Watched;
      s := Invoke(c);
      assert W() == old(W()).(threw := !s.Done?);
      RestsOn(old(trace), c, s.Done?);
    }

    method Read() returns (s: Status, conflicts: seq<Conflict>)
      requires Going()
      modifies this`trace
      ensures Open() && Ended(s) && conflicts == ports.conflicts(old(trace))
      ensures s.Done? ==> Going() && Did(old(trace), [ReadConflicts], trace) && W().asking == old(W()).asking && Rested(trace)
      ensures s.Done? ==> W().tree == old(W()).tree.(unread := false, conflicts := conflicts)
    {
      hide Watched;
      conflicts := ports.conflicts(trace);
      s := Invoke(ReadConflicts);
      assert s.Done? ==> RestedSince(trace, |trace| - 1);
    }

    method Capture() returns (s: Status)
      requires Going()
      modifies this`trace
      ensures Open() && Ended(s)
      ensures s.Done? ==> Going() && W().asking == old(W()).asking && W().tree == old(W()).tree.(captured := true)
      ensures s.Done? && Rested(old(trace)) ==> Rested(trace)
    {
      hide Watched;
      s := Invoke(CaptureBaseline);
      RestsOn(old(trace), CaptureBaseline, s.Done?);
    }

    method Inspect() returns (s: Status, state: GitState)
      requires Going()
      modifies this`trace
      ensures Open() && Ended(s)
      ensures s.Done? ==> Going() && W().asking == old(W()).asking && W().tree == old(W()).tree.(state := Some(state))
      ensures s.Done? && Rested(old(trace)) ==> Rested(trace)
    {
      hide Watched;
      state := GitState(ports.rebasing(trace), ports.worktreeClean(trace));
      s := Invoke(InspectState);
      RestsOn(old(trace), InspectState, s.Done?);
    }

    /** Moves the rebase on; `clean` is whether git exits without an error. */
    method Move(c: Call) returns (s: Status, clean: bool)
      requires Going() && (if c == ContinueRebase then MayContinue(W(), request) else c == SkipRebase && MaySkip(W(), request))
      modifies this`trace
      ensures Open() && Ended(s)
      ensures s.Done? ==> Going() && W().asking == old(W()).asking
      ensures s.Done? ==> W().tree == old(W()).tree.(captured := false, unread := true, state := None)
    {
      hide Watched;
      clean := ports.exitsCleanly(trace);
      s := Invoke(c);
    }

    method StageSet() returns (s: Status)
      requires Going() && WasConflicted(W().tree) && W().tree.staged < attempts
      requires W().tree.captured && !W().tree.unread && W().tree.conflicts != [] && Prepared(trace, W().tree.conflicts, request)
      modifies this`trace
      ensures Open() && Ended(s)
      ensures s.Done? ==> Working() && Did(old(trace), [Stage], trace)
      ensures s.Done? ==> W().tree == Staged(old(W()).tree)
    {
      hide Watched, Prepared;
      s := Invoke(Stage);
    }

    method Check() returns (s: Status)
      requires Going()
      modifies this`trace
      ensures Open() && Ended(s)
      ensures s.Done? ==> Going() && W().asking == old(W()).asking && W().tree == old(W()).tree.(unchecked := false)
    {
      hide Watched;
      s := Invoke(ValidateMarkers);
    }

    method StartOnce() returns (s: Status)
      requires Going()
      modifies this`trace, this`started
      ensures Open() && Ended(s) && started && W().tree == old(W()).tree && W().asking == old(W()).asking
      ensures s.Done? ==> Going() && Did(old(trace), if old(started) then [] else [StartAgent], trace)
    {
      hide Watched;
      s := Done;
      if !started {
        started := true;
        s := Invoke(StartAgent);
      }
    }

    method AskOnce() returns (s: Status)
      requires Working() && started && W().tree.staged < request.maxAttempts
      modifies this`trace
      ensures Open() && Ended(s) && W().tree == old(W()).tree
      ensures s.Done? ==> Going() && Did(old(trace), [ResolveAgent], trace)
    {
      hide Watched;
      s := Invoke(ResolveAgent);
    }

    method StopOnce() returns (s: Status)
      requires Sound()
      modifies this`trace, this`stopped
      ensures Sound() && (s.Done? && started ==> stopped)
      ensures W() == if !started || old(stopped) then old(W()) else
                       old(W()).(stopTried := true, stopped := s.Done?, threw := old(W()).threw || !s.Done?)
      ensures !started || old(stopped) ==> s.Done?
      ensures s.Thrown? ==> s.problem.PortThrew?
    {
      hide Watched;
      s := Done;
      if started && !stopped {
        s := Invoke(StopAgent);
        stopped := s.Done?;
      }
    }

    method RunHandlers(groups: seq<Group>) returns (s: Status)
      requires Going()
      modifies this`trace
      ensures Open() && Ended(s) && W().tree == old(W()).tree && W().asking == old(W()).asking
      ensures s.Done? ==> Going() && Did(old(trace), HandlerCalls(groups), trace)
    {
      hide Run.Open, Run.Going, Run.W, Did;
      assert Open() by { GoingIsOpen(); }
      DidNothing(trace);
      for i := 0 to |groups|
        invariant Going() && Open() && Did(old(trace), HandlerCalls(groups[..i]), trace)
        invariant W().tree == old(W()).tree && W().asking == old(W()).asking
      {
        assert groups[..i + 1][..i] == groups[..i];
        ghost var before := trace;
        :- Do(RunHandler(groups[i].rule));
        DidMore(old(trace), HandlerCalls(groups[..i]), before, [RunHandler(groups[i].rule)], trace);
      }
      assert groups[..|groups|] == groups;
      return Done;
    }

    lemma GoingIsOpen()
      requires Going()
      ensures Open() && Ended(Done) && W().agreed && !W().threw && attempts <= request.maxAttempts
    {
    }

    lemma GoingEnds(problem: Problem)
      requires Going() && !problem.PortThrew? && (problem.AttemptLimit? ==> attempts >= request.maxAttempts)
      ensures Open() && Ended(Thrown(problem))
    {
    }

    method AskAgent() returns (s: Status)
      requires Working() && W().tree.staged < request.maxAttempts
      modifies this`trace, this`started
      ensures Open() && Ended(s) && W().tree == old(W()).tree
      ensures s.Done? ==> Going() && Did(old(trace), AgentCalls(old(started)), trace)
    {
      hide Run.Open, Run.Going, Run.W, Did;
      ghost var first := if started then [] else [StartAgent];
      :- StartOnce();
      ghost var t1 := trace;
      :- Do(PrepareAgent);
      ghost var t2 := trace;
      :- AskOnce();
      ghost var t3 := trace;
      s := Do(CopyEdits);
      if s.Done? {
        DidMore(old(trace), first, t1, [PrepareAgent], t2);
        DidMore(old(trace), first + [PrepareAgent], t2, [ResolveAgent], t3);
        DidMore(old(trace), first + [PrepareAgent] + [ResolveAgent], t3, [CopyEdits], trace);
        assert first + [PrepareAgent] + [ResolveAgent] + [CopyEdits] == AgentCalls(old(started));
      }
    }

    /** A call made only when it is needed. */
    method DoIf(needed: bool, c: Call) returns (s: Status)
      requires Going() && Quiet(c)
      modifies this`trace
      ensures Open() && Ended(s) && W().tree == old(W()).tree && W().asking == old(W()).asking
      ensures s.Done? ==> Going() && Did(old(trace), OnlyIf(needed, [c]), trace)
    {
      hide Run.Open, Run.Going, Run.W, Did;
      GoingIsOpen();
      DidNothing(trace);
      s := Done;
      if needed {
        s := Do(c);
      }
    }

    method AskIf(needed: bool) returns (s: Status)
      requires Working() && W().tree.staged < request.maxAttempts
      modifies this`trace, this`started
      ensures Open() && Ended(s) && W().tree == old(W()).tree
      ensures s.Done? ==> Going() && Did(old(trace), OnlyIf(needed, AgentCalls(old(started))), trace)
    {
      hide Run.Open, Run.Going, Did, AgentCalls;
      GoingIsOpen();
      DidNothing(trace);
      s := Done;
      if needed {
        s := AskAgent();
      }
    }

    method RegenerateIf(needed: bool) returns (s: Status)
      requires Going()
      modifies this`trace
      ensures Open() && Ended(s) && W().tree == old(W()).tree
      ensures s.Done? ==> Going() && Did(old(trace), OnlyIf(needed, [Regenerate]), trace)
    {
      hide Run.Open, Run.Going, Run.W, Did;
      if needed && !ports.hasLockfile {
        GoingIsOpen();
        return Thrown(LockfileUnavailable);
      }
      s := DoIf(needed, Regenerate);
    }

    lemma WorkingIsGoing()
      ensures Working() <==> Going() && WasConflicted(W().tree) && !W().asking
    {
    }

    /** The part of an attempt up to the agent. */
    method Begin(c: Classified) returns (s: Status)
      requires Working() && W().tree.staged < request.maxAttempts
      modifies this`trace, this`started
      ensures Open() && Ended(s) && W().tree == old(W()).tree
      ensures s.Done? ==> Going() && Did(old(trace), BeginCalls(request, c, old(started)), trace)
    {
      hide Run.Open, Run.Going, Run.Working, Run.W, Run.Ended, Did, HandlerCalls, AgentCalls, OnlyIf;
      WorkingIsGoing();
      :- DoIf(request.strategy == Rebase, ReadCommit);
      ghost var done, t1 := OnlyIf(request.strategy == Rebase, [ReadCommit]), trace;
      :- Do(Progress);
      DidMore(old(trace), done, t1, [Progress], trace);
      ghost var t2 := trace;
      :- RunHandlers(c.generated);
      DidMore(old(trace), done + [Progress], t2, HandlerCalls(c.generated), trace);
      ghost var handled, t3 := done + [Progress] + HandlerCalls(c.generated), trace;
      WorkingIsGoing();
      s := AskIf(c.agent != []);
      if s.Done? {
        DidMore(old(trace), handled, t3, OnlyIf(c.agent != [], AgentCalls(old(started))), trace);
      }
    }

    /** The part of an attempt before anything is staged. */
    method Prepare(c: Classified) returns (s: Status)
      requires Working() && W().tree.staged < request.maxAttempts
      modifies this`trace, this`started
      ensures Open() && Ended(s) && W().tree == old(W()).tree
      ensures s.Done? ==> Going() && Did(old(trace), PrepareCalls(request, c, old(started)), trace)
    {
      hide Run.Open, Run.Going, Run.Working, Run.W, Run.Ended, Did, BeginCalls, OnlyIf;
      :- Begin(c);
      ghost var asked, t1 := BeginCalls(request, c, old(started)), trace;
      :- RegenerateIf(c.lockfile != []);
      DidMore(old(trace), asked, t1, OnlyIf(c.lockfile != [], [Regenerate]), trace);
      ghost var locked, t2 := asked + OnlyIf(c.lockfile != [], [Regenerate]), trace;
      :- DoIf(c.agent != [], Diagnostics);
      DidMore(old(trace), locked, t2, OnlyIf(c.agent != [], [Diagnostics]), trace);
      ghost var t3 := trace;
      s := Do(ValidateTarget);
      if s.Done? {
        DidMore(old(trace), locked + OnlyIf(c.agent != [], [Diagnostics]), t3, [ValidateTarget], trace);
      }
    }

    /** One attempt at the conflict set of the index; what the index has then is `remaining`. */
    method Attempt(conflicts: seq<Conflict>) returns (s: Status, remaining: seq<Conflict>)
      requires Working() && W().tree.staged < attempts
      requires Rested(trace) && W().tree.captured && !W().tree.unread && W().tree.conflicts == conflicts != []
      modifies this`trace, this`started
      ensures Open() && Ended(s)
      ensures s.Done? ==> Rested(trace) && Did(old(trace), AttemptCalls(request, conflicts, old(started)), trace)
      ensures s.Done? ==> Working() && W().tree == Staged(old(W()).tree).(unread := false, conflicts := remaining)
    {
      hide Run.Open, Run.Going, Did, PrepareCalls, Classification, Watched;
      remaining := [];
      GoingIsOpen();
      var classified := ClassifyConflicts(conflicts, request.rules);
      if classified.Err? {
        return Thrown(HandlersInvalid), [];
      }
      ghost var done := PrepareCalls(request, classified.value, started);
      :- Prepare(classified.value);
      ghost var t1 := trace;
      DidPrepare(old(trace), conflicts, request, old(started), trace);
      :- StageSet();
      ghost var t2 := trace;
      s, remaining := Read();
      if s.Done? {
        DidMore(old(trace), done, t1, [Stage], t2);
        DidMore(old(trace), done + [Stage], t2, [ReadConflicts], trace);
        assert done + [Stage] + [ReadConflicts] == done + [Stage, ReadConflicts];
      }
    }

    /** The next conflict set of a rebase, or none when it is no longer in progress. */
    method ContinueTheRebase() returns (s: Status, next: seq<Conflict>)
      requires Working() && request.strategy == Rebase && Settled(W().tree)
      modifies this`trace
      ensures Open() && Ended(s)
      ensures s.Done? ==> Rested(trace) && Working() && !W().tree.unread && !W().tree.unchecked && W().tree.conflicts == next
      ensures s.Done? ==> W().tree.staged == old(W()).tree.staged && W().tree.integration == old(W()).tree.integration
      ensures s.Done? && next == [] ==> Resolved(W().tree, Rebase)
    {
      hide Watched, Run.Open, Run.Going, Run.Ended;
      GoingIsOpen();
      next := [];
      var continued;
      continued, next :- ContinueAndRead();
      if |next| > 0 {
        return Done, next;
      }
      var state :- Inspect();
      if continued && !state.rebasing {
        return Done, [];
      }
      if state.rebasing && state.clean {
        GoingIsOpen();
        var skipped;
        skipped, next, state :- SkipAndRead();
        if skipped && (|next| > 0) == state.rebasing {
          return Done, next;
        }
      }
      GoingEnds(RebaseStuck);
      return Thrown(RebaseStuck), [];
    }

    /** Continues the rebase, and reads the index it leaves. */
    method ContinueAndRead() returns (s: Status, clean: bool, next: seq<Conflict>)
      requires Going() && MayContinue(W(), request)
      modifies this`trace
      ensures Open() && Ended(s)
      ensures s.Done? ==> Going() && W().asking == old(W()).asking
      ensures s.Done? ==> W().tree == old(W()).tree.(captured := false, unread := false, conflicts := next, state := None)
      ensures s.Done? ==> Rested(trace)
    {
      hide Watched, Run.Open, Run.Going, Run.Ended, MayContinue;
      next := [];
      clean :- Move(ContinueRebase);
      next :- Read();
      return Done, clean, next;
    }

    /** Skips a commit of which nothing is left; only when git does so are the index and its state read. */
    method SkipAndRead() returns (s: Status, skipped: bool, next: seq<Conflict>, state: GitState)
      requires Going() && MaySkip(W(), request)
      modifies this`trace
      ensures Open() && Ended(s)
      ensures s.Done? ==> Going() && W().asking == old(W()).asking
      ensures s.Done? && skipped ==>
                W().tree == old(W()).tree.(captured := false, unread := false, conflicts := next, state := Some(state)) && Rested(trace)
    {
      hide Watched, Run.Open, Run.Going, Run.Ended;
      next, state := [], GitState(false, false);
      skipped :- Move(SkipRebase);
      if skipped {
        next :- Read();
        state :- Inspect();
      } else {
        GoingIsOpen();
      }
      return Done, skipped, next, state;
    }

    method BeginAttempt()
      requires Working() && attempts == |reports| < request.maxAttempts
      modifies this`attempts
      ensures Working() && attempts == old(attempts) + 1
    {
      attempts := attempts + 1;
    }

    method Report()
      requires Working() && attempts == |reports| + 1 == W().tree.staged
      modifies this`reports
      ensures Working() && attempts == |reports|
    {
      reports := reports + [attempts];
    }

    /** Attempts until the conflicts are settled and a rebase is over; true when there is something to keep. */
    method ResolveIntegration(integration: Integration) returns (s: Status, resolved: bool)
      requires Going() && attempts == 0 && reports == [] && !integration.Broken? && !started && !W().asking
      requires W().tree == UNTOUCHED.(integration := Some(integration), unread := true)
      modifies this
      ensures Open() && Ended(s)
      ensures s.Done? ==> Going() && attempts == |reports| && (resolved <==> Resolved(W().tree, request.strategy))
      ensures s.Done? && !resolved ==> integration.Clean? && attempts == 0 && !started
    {
      hide Watched, Run.Going, Run.Open, Run.Ended, Did, AttemptCalls;
      GoingIsOpen();
      resolved := integration.Clean? && integration.operation == Rebase && integration.after != integration.before;
      if !integration.Conflicted? {
        return Done, resolved;
      }
      :- Capture();
      var conflicts :- Read();
      if |conflicts| == 0 {
        GoingEnds(ConflictSetRequired);
        return Thrown(ConflictSetRequired), false;
      }
      :- Do(Progress);
      while true
        invariant Working() && attempts == |reports|
        invariant Rested(trace) && W().tree.captured && !W().tree.unread && W().tree.conflicts == conflicts != []
        decreases request.maxAttempts - attempts
      {
        WithinLimit();
        if attempts >= request.maxAttempts {
          GoingEnds(AttemptLimit);
          return Thrown(AttemptLimit), false;
        }
        BeginAttempt();
        var remaining :- Attempt(conflicts);
        Report();
        if |remaining| > 0 {
          conflicts := remaining;
          continue;
        }
        var next :- GoOn();
        if |next| == 0 {
          return Done, true;
        }
        conflicts := next;
      }
    }

    /** After an attempt that left no conflict: the conflicts a rebase meets next, or none when all is resolved. */
    method GoOn() returns (s: Status, next: seq<Conflict>)
      requires Working() && W().tree.staged > 0 && !W().tree.unread && W().tree.conflicts == []
      modifies this`trace
      ensures Open() && Ended(s)
      ensures s.Done? && next != [] ==> Rested(trace)
      ensures s.Done? ==> Working() && !W().tree.unread && W().tree.conflicts == next
      ensures s.Done? ==> if next == [] then Resolved(W().tree, request.strategy) else W().tree.captured
    {
      hide Watched, Run.Open, Run.Going, Run.Ended, Did;
      GoingIsOpen();
      next := [];
      :- Check();
      if request.strategy == MergeBase {
        GoingIsOpen();
        return Done, [];
      }
      next :- ContinueTheRebase();
      if |next| == 0 {
        return Done, [];
      }
      :- Capture();
      :- Do(Progress);
      return Done, next;
    }

    /** The attempts are those staged and reported, but for one under way. */
    lemma WithinLimit()
      requires Going()
      ensures |reports| <= W().tree.staged <= attempts <= |reports| + 1 && attempts <= request.maxAttempts
    {
    }

    /** A call without a rule of its own, before the integration. */
    method Early(c: Call) returns (s: Status)
      requires Fine() && Quiet(c)
      modifies this`trace
      ensures Open() && Ended(s) && W() == old(W()).(threw := !s.Done?)
      ensures s.Done? ==> Did(old(trace), [c], trace)
    {
      hide Watched;
      s := Invoke(c);
    }

    method ReadHead() returns (s: Status, head: Option<string>)
      requires Fine()
      modifies this`trace
      ensures Open() && Ended(s)
      ensures s.Done? ==> W() == old(W()).(head := head) && Did(old(trace), [ReadPullRequest], trace)
    {
      hide Watched;
      head := ports.head(trace);
      s := Invoke(ReadPullRequest);
    }

    method IntegrateHead() returns (s: Status, integration: Integration)
      requires Fine() && W().tree == UNTOUCHED && MayIntegrate(W(), trace, request)
      modifies this`trace
      ensures Open() && Ended(s)
      ensures s.Done? ==>
                W() == old(W()).(agreed := Agrees(integration, old(W()).head),
                                 tree := UNTOUCHED.(integration := Some(integration), unread := true))
    {
      hide Watched, MayIntegrate;
      integration := ports.integration(trace);
      s := Invoke(ResolutionTrace.Integrate);
    }

    /** The calls before the integration. */
    method BeginIntegration() returns (s: Status, head: Option<string>)
      requires Fine() && trace == [] && W() == UNWATCHED
      modifies this`trace
      ensures Open() && Ended(s)
      ensures s.Done? ==> Fine() && head.Some? && W() == UNWATCHED.(head := head) && MayIntegrate(W(), trace, request)
    {
      hide Run.Open, Watched, Advance, Did;
      head :- ReadHead();
      if head.None? {
        return Thrown(Preflight), head;
      }
      ghost var t1 := trace;
      :- Early(ReadBase);
      DidMore([], [ReadPullRequest], t1, [ReadBase], trace);
      DidNothing(trace);
      ghost var t2, counted := trace, OnlyIf(request.strategy == Rebase, [CountCommits]);
      if request.strategy == Rebase {
        :- Early(CountCommits);
      }
      DidMore([], [ReadPullRequest] + [ReadBase], t2, counted, trace);
      ghost var t3 := trace;
      s := Early(Progress);
      if s.Done? {
        DidMore([], [ReadPullRequest] + [ReadBase] + counted, t3, [Progress], trace);
        assert [ReadPullRequest] + [ReadBase] + counted + [Progress] == OpeningCalls(request);
        DidFromStart(OpeningCalls(request), trace);
      }
    }

    /** Everything up to the integration, which is not broken and started from the pull request's head. */
    method Integrate(wellFormed: bool) returns (s: Status, integration: Integration)
      requires Fine() && trace == [] && W() == UNWATCHED
      modifies this`trace
      ensures Open() && Ended(s)
      ensures s.Done? ==> Going() && !integration.Broken? && !W().asking
      ensures s.Done? ==> W().tree == UNTOUCHED.(integration := Some(integration), unread := true)
      ensures s.Done? && request.strategy == MergeBase && request.push ==> request.commit
    {
      hide Run.Open, Watched, Advance, MayIntegrate;
      integration := Broken("");
      if !wellFormed || (request.strategy == MergeBase && request.push && !request.commit) {
        return Thrown(InvalidRequest), integration;
      }
      var head :- BeginIntegration();
      integration :- IntegrateHead();
      if integration.before != head.value {
        return Thrown(RemoteHeadChanged), integration;
      }
      if integration.Broken? {
        return Thrown(IntegrationFailed), integration;
      }
      return Done, integration;
    }

    /** A call without a rule of its own, at any time before the summary. */
    method Also(c: Call) returns (s: Status)
      requires Sound() && Quiet(c)
      modifies this`trace
      ensures Sound() && W() == old(W()).(threw := old(W()).threw || !s.Done?)
      ensures s.Thrown? ==> s.problem.PortThrew?
      ensures s.Done? ==> EndsWith(trace, [c])
    {
      hide Watched;
      s := Invoke(c);
    }

    method CommitMerge() returns (s: Status)
      requires Going() && request.strategy == MergeBase && request.commit && Resolved(W().tree, request.strategy)
      modifies this`trace
      ensures Sound() && Ended(s) && W() == old(W()).(committed := s.Done?, threw := !s.Done?)
    {
      hide Watched, Resolved;
      s := Invoke(Commit);
    }

    method PushOnce() returns (s: Status)
      requires Sound() && MayPush(W(), trace, request)
      modifies this`trace
      ensures Sound() && Ended(s) && W() == old(W()).(pushed := true, threw := !s.Done?)
    {
      hide Watched, Resolved, EndsWith;
      s := Invoke(Push);
    }

    /** The last call of a run. */
    method Summarise() returns (s: Status)
      requires Sound() && MaySummarise(W())
      modifies this`trace
      ensures trace == old(trace) + [Event(WriteSummary, s.Done?)]
      ensures W() == old(W()).(summarised := true, threw := old(W()).threw || !s.Done?)
    {
      hide Watched;
      s := Invoke(WriteSummary);
    }

    /** Commit and push, as far as the request asks for them. */
    method Conclude(resolved: bool) returns (s: Status, pushed: bool)
      requires Going() && (resolved ==> Resolved(W().tree, request.strategy))
      requires request.strategy == MergeBase && request.push ==> request.commit
      modifies this`trace, this`stopped
      ensures Sound() && Ended(s) && W().tree == old(W()).tree
      ensures s.Done? ==> !W().threw && pushed == W().pushed == (resolved && request.push)
      ensures s.Done? ==> W().committed == (resolved && request.strategy == MergeBase && request.commit)
    {
      hide Watched, Advance;
      pushed := false;
      if resolved && request.strategy == MergeBase && request.commit {
        :- CommitMerge();
      }
      if resolved && request.push {
        :- StopOnce();
        :- Also(Progress);
        :- Also(BeforePush);
        :- PushOnce();
        :- Also(Progress);
        pushed := true;
      }
      return Done, pushed;
    }

    /** The body of the run, whose problems the caller catches. */
    method Resolve(wellFormed: bool) returns (s: Status, resolved: bool, pushed: bool)
      requires Fine() && trace == [] && attempts == 0 && reports == [] && !started && W() == UNWATCHED
      modifies this
      ensures Sound() && Ended(s)
      ensures s.Done? ==> attempts == |reports| && (resolved <==> Resolved(W().tree, request.strategy))
      ensures s.Done? ==> !W().threw && pushed == W().pushed == (resolved && request.push)
      ensures s.Done? ==> W().committed == (resolved && request.strategy == MergeBase && request.commit)
      ensures s.Done? && !resolved ==> attempts == 0 && !started
    {
      hide Watched;
      resolved, pushed := false, false;
      var integration :- Integrate(wellFormed);
      resolved :- ResolveIntegration(integration);
      s, pushed := Conclude(resolved);
    }

    /** The body, and after it the agent's stop; a problem of either is the outcome. */
    method Finish(wellFormed: bool) returns (outcome: Outcome)
      requires Fine() && trace == [] && attempts == 0 && reports == [] && !started && W() == UNWATCHED
      modifies this
      ensures Sound() && MaySummarise(W()) && Accounts(outcome, W(), request, attempts, reports)
    {
      hide Watched, Run.Fine, Numbered, Resolved;
      var s, resolved, pushed := Resolve(wellFormed);
      outcome := match s
        case Thrown(problem) => Error(attempts, problem)
        case Done => if resolved then Updated(attempts, pushed) else NoChange(attempts, pushed);
      if started && !stopped {
        var stop := StopOnce();
        if stop.Thrown? {
          outcome := Error(attempts, stop.problem);
        }
      }
    }

    /** Tells the progress and writes the summary; false when either throws. */
    method Tell() returns (told: bool)
      requires Sound() && MaySummarise(W())
      modifies this`trace
      ensures !W().broken && MaySummarise(W()) && W().tree == old(W()).tree
      ensures told ==> W() == old(W()).(summarised := true) && trace != [] && trace[|trace| - 1] == Event(WriteSummary, true)
    {
      hide Watched, Advance;
      var progress := Also(Progress);
      if progress.Thrown? {
        return false;
      }
      var written := Summarise();
      return written.Done?;
    }
  }

  /**
   What an outcome says about the run: in a success every call returned, every attempt was staged
   and reported, and there is an update exactly when something was resolved; a failure is that
   of a port exactly when a call threw, and that of the limit only when it was reached.
   */
  predicate Accounts(outcome: Outcome, w: Watch, request: Request, attempts: nat, reports: seq<nat>) {
    && outcome.attempts == attempts
    && (!outcome.Error? ==>
          && !w.threw && attempts == w.tree.staged == |reports| && (w.started ==> w.stopped)
          && (outcome.Updated? <==> Resolved(w.tree, request.strategy))
          && outcome.pushed == w.pushed == (outcome.Updated? && request.push)
          && w.committed == (outcome.Updated? && request.strategy == MergeBase && request.commit))
    && (outcome.NoChange? ==> attempts == 0 && !w.started)
    && (outcome.Error? ==>
          && (outcome.problem.PortThrew? <==> w.threw)
          && (outcome.problem.AttemptLimit? ==> attempts == request.maxAttempts))
  }

  /**
   The whole run.  There is no outcome when reporting the result itself throws.  Whatever the
   ports do, no rule is broken, a started agent is told to stop, the attempts are those staged,
   but for one that failed before, and stay within the limit, and the outcome accounts for what
   was done.
   */
  method ResolveMergeConflicts(request: Request, wellFormed: bool, ports: Ports)
    returns (outcome: Option<Outcome>, trace: Trace, attempts: nat, reports: seq<nat>)
    ensures !Watched(trace, request, ports).broken && MaySummarise(Watched(trace, request, ports))
    ensures |reports| <= Count(trace, Stage) <= attempts <= |reports| + 1 && attempts <= request.maxAttempts
    ensures Numbered(reports)
    ensures outcome.Some? ==> Accounts(outcome.value, Watched(trace, request, ports), request, attempts, reports)
    ensures outcome.Some? ==> trace != [] && trace[|trace| - 1] == Event(WriteSummary, true)
  {
    hide Watched, Resolved;
    var run := new Run(request, ports);
    var result := run.Finish(wellFormed);
    attempts, reports := run.attempts, run.reports;
    var told := run.Tell();
    trace := run.trace;
    StagedIsCounted(trace, request, ports);
    outcome := if told then Some(result) else None;
  }
}
