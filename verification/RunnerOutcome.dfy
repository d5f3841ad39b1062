/**
 Supervision of a runner process: what its messages, its exit, cancellation and the grace
 timer make of a run's outcome.
 */
module RunnerOutcome {
  import opened Wrappers

  datatype Signal = Interrupt | Terminate

  datatype Verdict = Succeeded | Failed | Cancelled

  /** `throws` is whether the observer of execution events throws. */
  datatype Message = Undecodable | UiAvailable | Activity(throws: bool) | Terminal(verdict: Verdict, throws: bool)

  /** `ProcessError` is an error of the child or of sending the request; `Flush` the turn after a terminal event. */
  datatype Input = Received(message: Message) | Exit | ProcessError | Cancel(signal: Option<Signal>) | GraceElapsed | Flush

  datatype RunResult = Reported(verdict: Verdict, signal: Option<Signal>) | Failure | CancelFailure(signal: Option<Signal>)

  /** `cancels` and `kills` count what was sent to the child. */
  datatype Supervisor = Supervisor(terminal: Option<Verdict>, result: Option<RunResult>, cancelling: bool,
                                   signal: Option<Signal>, cancels: nat, kills: nat)

  const START := Supervisor(None, None, false, None, 0, 0)

  function Status(r: RunResult): nat {
    match r
    case Reported(verdict, _) => if verdict.Succeeded? then 0 else if verdict.Failed? then 1 else 130
    case Failure => 1
    case CancelFailure(_) => 130
  }

  function Finish(s: Supervisor, r: RunResult): Supervisor {
    if s.result.Some? then s else s.(result := Some(r))
  }

  /** The signal is part of a result only when the run was cancelled. */
  function TerminalResult(verdict: Verdict, signal: Option<Signal>): RunResult {
    Reported(verdict, if verdict.Cancelled? then signal else None)
  }

  function OnMessage(s: Supervisor, m: Message): Supervisor {
    match m
    case Undecodable => Finish(s, Failure)
    case UiAvailable => s
    case Activity(_) => if s.terminal.Some? then Finish(s, Failure) else s
    case Terminal(verdict, throws) =>
      if s.terminal.Some? then Finish(s, Failure) else if throws then s else s.(terminal := Some(verdict))
  }

  function OnEnd(s: Supervisor): Supervisor {
    if s.terminal.Some? then s else Finish(s, if s.cancelling then CancelFailure(s.signal) else Failure)
  }

  function OnCancel(s: Supervisor, signal: Option<Signal>): Supervisor {
    if s.result.Some? || s.terminal.Some? || s.cancelling then s
    else s.(cancelling := true, signal := signal, cancels := s.cancels + 1)
  }

  function OnGrace(s: Supervisor): Supervisor {
    if !s.cancelling || s.result.Some? || s.terminal.Some? then s
    else Finish(s.(kills := s.kills + 1), CancelFailure(s.signal))
  }

  function OnFlush(s: Supervisor): Supervisor {
    if s.terminal.Some? then Finish(s, TerminalResult(s.terminal.value, s.signal)) else s
  }

  /** Once the run has a result, the child and the signals are no longer listened to. */
  function Step(s: Supervisor, i: Input): Supervisor {
    match i
    case Received(m) => if s.result.Some? then s else OnMessage(s, m)
    case Exit => OnEnd(s)
    case ProcessError => OnEnd(s)
    case Cancel(signal) => OnCancel(s, signal)
    case GraceElapsed => OnGrace(s)
    case Flush => OnFlush(s)
  }

  function Run(inputs: seq<Input>): Supervisor {
    if inputs == [] then START else Step(Run(inputs[..|inputs| - 1]), inputs[|inputs| - 1])
  }

  // ----- the outcome, from the inputs alone ---------------------------------

  /** A terminal event that its observer accepted. */
  predicate IsTerminal(i: Input) {
    i.Received? && i.message.Terminal? && !i.message.throws
  }

  ghost predicate Cancelling(inputs: seq<Input>) {
    exists k | 0 <= k < |inputs| :: inputs[k].Cancel?
  }

  /** The signal of the first cancellation. */
  function FirstSignal(inputs: seq<Input>): Option<Signal> {
    if inputs == [] then None else if inputs[0].Cancel? then inputs[0].signal else FirstSignal(inputs[1..])
  }

  /** What ends a run that has reported nothing: garbage, the child's end, or the grace period. */
  ghost predicate Ends(before: seq<Input>, i: Input) {
    i == Received(Undecodable) || i.Exit? || i.ProcessError? || (i.GraceElapsed? && Cancelling(before))
  }

  ghost predicate Open(inputs: seq<Input>) {
    forall k | 0 <= k < |inputs| :: !IsTerminal(inputs[k]) && !Ends(inputs[..k], inputs[k])
  }

  /** What settles a run after its terminal event: the flush, or a message that contradicts it. */
  predicate Settles(i: Input) {
    i.Flush? || (i.Received? && !i.message.UiAvailable?)
  }

  ghost predicate Calm(inputs: seq<Input>) {
    forall k | 0 <= k < |inputs| :: !Settles(inputs[k])
  }

  function EndResult(before: seq<Input>, i: Input, cancelling: bool): RunResult {
    if i.Received? || !cancelling then Failure else CancelFailure(FirstSignal(before))
  }

  // ----- proof --------------------------------------------------------------

  lemma {:induction false} OneMore(inputs: seq<Input>, i: Input)
    ensures Run(inputs + [i]) == Step(Run(inputs), i)
    ensures Cancelling(inputs + [i]) <==> Cancelling(inputs) || i.Cancel?
    ensures Open(inputs + [i]) <==> Open(inputs) && !IsTerminal(i) && !Ends(inputs, i)
    ensures Calm(inputs + [i]) <==> Calm(inputs) && !Settles(i)
  {
    var all := inputs + [i];
    assert all[..|inputs|] == inputs && all[|inputs|] == i;
    assert forall k | 0 <= k <= |inputs| :: all[..k] == inputs[..k];
    assert forall k | 0 <= k < |inputs| :: all[k] == inputs[k];
    assert i.Cancel? ==> all[|inputs|].Cancel?;
    if Cancelling(inputs) {
      var k :| 0 <= k < |inputs| && inputs[k].Cancel?;
      assert all[k].Cancel?;
    }
  }

  lemma {:induction false} FirstSignalKept(inputs: seq<Input>, i: Input)
    ensures FirstSignal(inputs + [i]) ==
            if Cancelling(inputs) then FirstSignal(inputs) else if i.Cancel? then i.signal else None
    ensures !Cancelling(inputs) ==> FirstSignal(inputs) == None
  {
    if inputs != [] {
      assert (inputs + [i])[1..] == inputs[1..] + [i];
      FirstSignalKept(inputs[1..], i);
      assert Cancelling(inputs) <==> inputs[0].Cancel? || Cancelling(inputs[1..]) by {
        assert forall k | 0 < k < |inputs| :: inputs[k] == inputs[1..][k - 1];
        if Cancelling(inputs[1..]) {
          var k :| 0 <= k < |inputs[1..]| && inputs[1..][k].Cancel?;
          assert inputs[k + 1].Cancel?;
        }
        if Cancelling(inputs) && !inputs[0].Cancel? {
          var k :| 0 <= k < |inputs| && inputs[k].Cancel?;
          assert inputs[1..][k - 1].Cancel?;
        }
      }
    }
  }

  /** A run that nothing has ended or concluded knows only whether, and by what, it is being cancelled. */
  lemma {:induction false} OpenRun(inputs: seq<Input>)
    requires Open(inputs)
    ensures var s := Run(inputs);
            && s.terminal.None? && s.result.None? && s.kills == 0
            && s.cancelling == Cancelling(inputs) && s.signal == FirstSignal(inputs)
            && s.cancels == if s.cancelling then 1 else 0
  {
    if inputs != [] {
      var n := |inputs| - 1;
      assert inputs == inputs[..n] + [inputs[n]];
      OneMore(inputs[..n], inputs[n]);
      OpenRun(inputs[..n]);
      FirstSignalKept(inputs[..n], inputs[n]);
    }
  }

  /** A run settles at most once: nothing after its result changes it, sends a cancel, or kills. */
  lemma {:induction false} ResultIsFinal(inputs: seq<Input>, later: seq<Input>)
    requires Run(inputs).result.Some?
    ensures Run(inputs + later) == Run(inputs)
  {
    if later == [] {
      assert inputs + later == inputs;
    } else {
      var n := |later| - 1;
      ResultIsFinal(inputs, later[..n]);
      assert inputs + later == inputs + later[..n] + [later[n]];
      OneMore(inputs + later[..n], later[n]);
    }
  }

  /** A run that ends before a terminal event: a failure, or a failed cancellation if it was being cancelled. */
  lemma {:induction false} EndedResult(before: seq<Input>, end: Input, later: seq<Input>)
    requires Open(before) && Ends(before, end) && !IsTerminal(end)
    ensures Run(before + [end] + later).result == Some(EndResult(before, end, Cancelling(before)))
    ensures Run(before + [end] + later).kills == if end.GraceElapsed? then 1 else 0
    ensures Run(before + [end] + later).cancels == if Cancelling(before) then 1 else 0
  {
    OpenRun(before);
    OneMore(before, end);
    ResultIsFinal(before + [end], later);
  }

  lemma {:induction false} CalmRun(before: seq<Input>, terminal: Input, calm: seq<Input>)
    requires Open(before) && IsTerminal(terminal) && Calm(calm)
    ensures Run(before + [terminal] + calm) == Run(before).(terminal := Some(terminal.message.verdict))
    ensures Run(before).result.None?
  {
    if calm == [] {
      assert before + [terminal] + calm == before + [terminal];
      OpenRun(before);
      OneMore(before, terminal);
    } else {
      var n := |calm| - 1;
      assert calm == calm[..n] + [calm[n]];
      OneMore(calm[..n], calm[n]);
      CalmRun(before, terminal, calm[..n]);
      assert before + [terminal] + calm == before + [terminal] + calm[..n] + [calm[n]];
      OneMore(before + [terminal] + calm[..n], calm[n]);
    }
  }

  /**
   A run with a terminal event: that event's result at the flush, unless an execution event or
   garbage comes first.  Nothing else, not the child's end nor a cancellation, replaces it.
   */
  lemma {:induction false} ReportedResult(before: seq<Input>, terminal: Input, calm: seq<Input>, settling: Input, later: seq<Input>)
    requires Open(before) && IsTerminal(terminal) && Calm(calm) && Settles(settling)
    ensures var s := Run(before + [terminal] + calm + [settling] + later);
            && s.result == Some(if settling.Flush? then TerminalResult(terminal.message.verdict, FirstSignal(before)) else Failure)
            && s.kills == 0 && s.cancels == if Cancelling(before) then 1 else 0
  {
    OpenRun(before);
    CalmRun(before, terminal, calm);
    OneMore(before + [terminal] + calm, settling);
    ResultIsFinal(before + [terminal] + calm + [settling], later);
  }

  /**
   A report that stands decides the status: 0 for a success, 1 for a failure, 130 for a
   cancellation, and only that tells the signal of the first request to cancel.
   */
  lemma {:induction false} ReportDecidesStatus(before: seq<Input>, terminal: Input, calm: seq<Input>, later: seq<Input>)
    requires Open(before) && IsTerminal(terminal) && Calm(calm)
    ensures var result := Run(before + [terminal] + calm + [Flush] + later).result;
            && result.Some? && result.value.Reported? && result.value.verdict == terminal.message.verdict
            && (terminal.message.verdict == Succeeded ==> Status(result.value) == 0 && result.value.signal == None)
            && (terminal.message.verdict == Failed ==> Status(result.value) == 1 && result.value.signal == None)
            && (terminal.message.verdict == Cancelled ==> Status(result.value) == 130 && result.value.signal == FirstSignal(before))
  {
    hide Run;
    ReportedResult(before, terminal, calm, Flush, later);
  }

  /** A run without a report that stands has status 1, or 130 when it was being cancelled. */
  lemma {:induction false} NoReportDecidesStatus(before: seq<Input>, end: Input, later: seq<Input>)
    requires Open(before) && Ends(before, end)
    ensures var result := Run(before + [end] + later).result;
            && result.Some? && !result.value.Reported?
            && Status(result.value) == if Cancelling(before) && !end.Received? then 130 else 1
  {
    hide Run;
    EndedResult(before, end, later);
  }

  lemma {:induction false} FirstNot(inputs: seq<Input>) returns (k: nat)
    ensures k <= |inputs| && Open(inputs[..k])
    ensures k < |inputs| ==> IsTerminal(inputs[k]) || Ends(inputs[..k], inputs[k])
  {
    if inputs == [] {
      k := 0;
    } else {
      var n := |inputs| - 1;
      k := FirstNot(inputs[..n]);
      assert inputs[..n][..k] == inputs[..k];
      if k == n && !IsTerminal(inputs[n]) && !Ends(inputs[..n], inputs[n]) {
        assert inputs == inputs[..n] + [inputs[n]];
        OneMore(inputs[..n], inputs[n]);
        assert inputs[..n + 1] == inputs;
        k := n + 1;
      }
    }
  }

  lemma {:induction false} FirstSettling(inputs: seq<Input>) returns (k: nat)
    ensures k <= |inputs| && Calm(inputs[..k]) && (k < |inputs| ==> Settles(inputs[k]))
  {
    k := 0;
    while k < |inputs| && !Settles(inputs[k])
      invariant k <= |inputs| && Calm(inputs[..k])
    {
      OneMore(inputs[..k], inputs[k]);
      assert inputs[..k + 1] == inputs[..k] + [inputs[k]];
      k := k + 1;
    }
  }

  /** The four kinds of runs there are, as a description of their parts. */
  datatype Shape = Unfinished | EndedAt(k: nat) | AwaitingFlush(k: nat) | ReportedAt(k: nat, m: nat)

  ghost predicate HasShape(inputs: seq<Input>, shape: Shape) {
    match shape
    case Unfinished => Open(inputs)
    case EndedAt(k) => k < |inputs| && Open(inputs[..k]) && Ends(inputs[..k], inputs[k]) && !IsTerminal(inputs[k])
    case AwaitingFlush(k) => k < |inputs| && Open(inputs[..k]) && IsTerminal(inputs[k]) && Calm(inputs[k + 1..])
    case ReportedAt(k, m) =>
      && k < m < |inputs| && Open(inputs[..k]) && IsTerminal(inputs[k])
      && Calm(inputs[k + 1..m]) && Settles(inputs[m])
  }

  /** What each kind of run results in; `None` while it is undecided. */
  ghost function ResultOf(inputs: seq<Input>, shape: Shape): Option<RunResult>
    requires HasShape(inputs, shape)
  {
    match shape
    case Unfinished => None
    case AwaitingFlush(_) => None
    case EndedAt(k) => Some(EndResult(inputs[..k], inputs[k], Cancelling(inputs[..k])))
    case ReportedAt(k, m) =>
      Some(if inputs[m].Flush? then TerminalResult(inputs[k].message.verdict, FirstSignal(inputs[..k])) else Failure)
  }

  /** Every order of inputs is one of the four kinds, which decides its result and what was sent to the child. */
  lemma {:induction false} EveryRunIsDecided(inputs: seq<Input>) returns (shape: Shape)
    ensures HasShape(inputs, shape)
    ensures Run(inputs).result == ResultOf(inputs, shape)
    ensures Run(inputs).cancels <= 1
    ensures Run(inputs).kills == if shape.EndedAt? && inputs[shape.k].GraceElapsed? then 1 else 0
  {
    hide Run, Open, Calm, Ends, Settles, IsTerminal, Cancelling, FirstSignal;
    var k := FirstNot(inputs);
    if k == |inputs| {
      assert inputs[..k] == inputs;
      OpenRun(inputs);
      return Unfinished;
    }
    var rest := inputs[k + 1..];
    assert inputs == inputs[..k] + [inputs[k]] + rest;
    if !IsTerminal(inputs[k]) {
      EndedResult(inputs[..k], inputs[k], rest);
      return EndedAt(k);
    }
    var n := FirstSettling(rest);
    OpenRun(inputs[..k]);
    if n == |rest| {
      assert rest[..n] == rest;
      CalmRun(inputs[..k], inputs[k], rest);
      return AwaitingFlush(k);
    }
    var m := k + 1 + n;
    assert inputs[k + 1..m] == rest[..n] && inputs[m] == rest[n];
    assert inputs == inputs[..k] + [inputs[k]] + inputs[k + 1..m] + [inputs[m]] + inputs[m + 1..];
    ReportedResult(inputs[..k], inputs[k], inputs[k + 1..m], inputs[m], inputs[m + 1..]);
    return ReportedAt(k, m);
  }

  /** Status 0 is given only to a run whose runner reported success. */
  lemma {:induction false} SuccessWasReported(inputs: seq<Input>)
    requires Run(inputs).result.Some? && Status(Run(inputs).result.value) == 0
    ensures exists k | 0 <= k < |inputs| :: inputs[k] == Received(Terminal(Succeeded, false))
  {
    hide Run;
    var shape := EveryRunIsDecided(inputs);
    assert shape.ReportedAt?;
    assert inputs[shape.k] == Received(Terminal(Succeeded, false));
  }

  /** Status 130 is given only to a run that was cancelled: by request, or as its runner reported. */
  lemma {:induction false} CancelledWasAsked(inputs: seq<Input>)
    requires Run(inputs).result.Some? && Status(Run(inputs).result.value) == 130
    ensures Cancelling(inputs) || exists k | 0 <= k < |inputs| :: inputs[k] == Received(Terminal(Cancelled, false))
  {
    hide Run;
    var shape := EveryRunIsDecided(inputs);
    if shape.EndedAt? {
      var j :| 0 <= j < shape.k && inputs[..shape.k][j].Cancel?;
      assert inputs[j].Cancel?;
    } else {
      assert inputs[shape.k] == Received(Terminal(Cancelled, false));
    }
  }

  /** The child is killed only when it was asked to cancel and has reported nothing. */
  lemma {:induction false} KilledAfterCancel(inputs: seq<Input>)
    requires Run(inputs).kills > 0
    ensures exists k | 0 <= k < |inputs| :: inputs[k].GraceElapsed? && Cancelling(inputs[..k]) && Open(inputs[..k])
  {
    hide Run;
    var shape := EveryRunIsDecided(inputs);
    assert Ends(inputs[..shape.k], inputs[shape.k]);
    assert inputs[shape.k].GraceElapsed? && Cancelling(inputs[..shape.k]) && Open(inputs[..shape.k]);
  }

  /** A runner that is gone always leaves a result behind: its end, or the flush of its last word. */
  lemma {:induction false} EndedRunsSettle(inputs: seq<Input>)
    ensures Run(inputs + [Exit, Flush]).result.Some?
  {
    assert inputs + [Exit, Flush] == inputs + [Exit] + [Flush];
    OneMore(inputs, Exit);
    OneMore(inputs + [Exit], Flush);
  }
}
