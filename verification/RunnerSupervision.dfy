/**
 The supervisor of a runner process, with its state updated by event handlers.  Each
 handler refines the corresponding step of `RunnerOutcome`.
 */
module RunnerSupervision {
  import opened Wrappers
  import opened RunnerOutcome

  class Supervision {
    var terminalEvent: Option<Verdict>
    var settled: bool
    var result: Option<RunResult>
    var cancellationRequested: bool
    var cancellationSignal: Option<Signal>
    var graceTimerArmed: bool
    ghost var cancels: nat
    ghost var kills: nat

    ghost function View(): Supervisor reads this {
      Supervisor(terminalEvent, result, cancellationRequested, cancellationSignal, cancels, kills)
    }

    /** The timer runs from a cancellation until the result. */
    ghost predicate Valid() reads this {
      settled == result.Some? && graceTimerArmed == (cancellationRequested && !settled)
    }

    constructor ()
      ensures Valid() && View() == START
    {
      terminalEvent, settled, result, cancellationRequested := None, false, None, false;
      cancellationSignal, graceTimerArmed, cancels, kills := None, false, 0, 0;
    }

    method Finish(r: RunResult)
      requires settled == result.Some?
      modifies this`settled, this`result, this`graceTimerArmed
      ensures settled && result.Some? && View() == RunnerOutcome.Finish(old(View()), r)
      ensures graceTimerArmed == (old(settled) && old(graceTimerArmed))
    {
      if settled {
        return;
      }
      settled := true;
      graceTimerArmed := false;
      result := Some(r);
    }

    method OnError()
      requires Valid()
      modifies this
      ensures Valid() && View() == Step(old(View()), ProcessError)
    {
      if terminalEvent.Some? {
        return;
      }
      if cancellationRequested {
        Finish(CancelFailure(cancellationSignal));
      } else {
        Finish(Failure);
      }
    }

    method OnExit()
      requires Valid()
      modifies this
      ensures Valid() && View() == Step(old(View()), Exit)
    {
      OnError();
    }

    method CancelRun(signal: Option<Signal>)
      requires Valid()
      modifies this
      ensures Valid() && View() == Step(old(View()), Cancel(signal))
    {
      if settled || terminalEvent.Some? || cancellationRequested {
        return;
      }
      cancellationRequested := true;
      cancellationSignal := signal;
      cancels := cancels + 1;
      graceTimerArmed := true;
    }

    /** The callback of the grace timer, which fires only while armed. */
    method OnGraceElapsed()
      requires Valid()
      modifies this
      ensures Valid() && View() == Step(old(View()), GraceElapsed)
    {
      if !graceTimerArmed || terminalEvent.Some? {
        return;
      }
      kills := kills + 1;
      Finish(CancelFailure(cancellationSignal));
    }

    /** `flush` says that the turn after this message has to be awaited. */
    method OnMessage(m: Message) returns (flush: bool)
      requires Valid() && !settled
      modifies this
      ensures Valid() && View() == Step(old(View()), Received(m))
      ensures flush <==> old(terminalEvent).None? && terminalEvent.Some?
    {
      flush := false;
      if m.Undecodable? {
        Finish(Failure);
        return;
      }
      if m.UiAvailable? {
        return;
      }
      if terminalEvent.Some? {
        Finish(Failure);
        return;
      }
      if m.throws || m.Activity? {
        return;
      }
      terminalEvent := Some(m.verdict);
      flush := true;
    }

    method OnFlush()
      requires Valid()
      modifies this
      ensures Valid() && View() == Step(old(View()), Flush)
    {
      if terminalEvent.Some? {
        Finish(TerminalResult(terminalEvent.value, cancellationSignal));
      }
    }
  }

  /** Hands one input to its handler; after the result the child's messages are no longer listened to. */
  method Handle(s: Supervision, i: Input)
    requires s.Valid()
    modifies s
    ensures s.Valid() && s.View() == Step(old(s.View()), i)
  {
    match i
    case Received(m) => if !s.settled { var _ := s.OnMessage(m); }
    case Exit => s.OnExit();
    case ProcessError => s.OnError();
    case Cancel(signal) => s.CancelRun(signal);
    case GraceElapsed => s.OnGraceElapsed();
    case Flush => s.OnFlush();
  }

  /** A whole run of the supervisor, in whatever order its inputs come. */
  method Supervise(inputs: seq<Input>) returns (s: Supervision)
    ensures fresh(s) && s.Valid() && s.View() == Run(inputs)
    ensures s.cancels <= 1 && s.kills <= 1
    ensures [Exit, Flush] == inputs[|inputs| - Min(2, |inputs|)..] ==> s.settled
  {
    hide Step;
    s := new Supervision();
    for k := 0 to |inputs|
      invariant fresh(s) && s.Valid() && s.View() == Run(inputs[..k])
    {
      assert inputs[..k + 1][..k] == inputs[..k];
      Handle(s, inputs[k]);
    }
    assert inputs[..|inputs|] == inputs;
    ghost var shape := EveryRunIsDecided(inputs);
    ghost var last := |inputs| - Min(2, |inputs|);
    assert inputs == inputs[..last] + inputs[last..];
    EndedRunsSettle(inputs[..last]);
  }
}
