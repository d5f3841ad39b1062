/**
 What the listener of a turn is given, in every run of the event dispatcher.
 */
module SessionDelivery {
  import opened SessionEvents
  import opened SessionInvariant

  ghost predicate WellNamed<T>(ops: seq<Op<T>>) {
    forall i | 0 <= i < |ops| :: WellNamedOp(ops[i])
  }

  /** No dispatch has thrown, nothing was bound twice and no turn id was used again. */
  ghost predicate Clean<T>(ops: seq<Op<T>>) {
    WellNamed(ops) && !Run(ops).failed && !Run(ops).misused
  }

  ghost predicate BoundTo<T>(ops: seq<Op<T>>, at: nat, turn: string) {
    at < |Run(ops).registrations| && Listens(Run(ops).registrations[at], TurnKey(Run(ops).registrations[at].thread, turn))
  }

  /**
   Whenever the turn was bound, its listener has been given exactly the events correlated
   to it that were dispatched after `begin` and before dispose: each once, and in order.
   */
  lemma {:induction false} ListenerSeesItsTurn<T>(ops: seq<Op<T>>, at: nat, turn: string)
    requires Clean(ops) && BoundTo(ops, at, turn)
    ensures var thread := Run(ops).registrations[at].thread;
            Delivered(Run(ops).log, TurnKey(thread, turn)) == Correlated(Window(ops, at), thread, turn)
  {
    RunKeepsInv(ops);
    var d := Run(ops);
    assert Tracked(d, ops, at);
    var r := d.registrations[at];
    match r.status
    case Bound(t) => KeyIdentifies(r.thread, t, r.thread, turn);
    case Disposed(t) => KeyIdentifies(r.thread, t, r.thread, turn);
  }

  /** The run without its binds. */
  function WithoutBinds<T>(ops: seq<Op<T>>): seq<Op<T>> {
    if ops == [] then []
    else if ops[|ops| - 1].Bind? then WithoutBinds(ops[..|ops| - 1])
    else WithoutBinds(ops[..|ops| - 1]) + [ops[|ops| - 1]]
  }

  lemma {:induction false} WindowIgnoresBinds<T>(ops: seq<Op<T>>, at: nat)
    ensures Begins(WithoutBinds(ops)) == Begins(ops)
    ensures IsDisposed(WithoutBinds(ops), at) <==> IsDisposed(ops, at)
    ensures Window(WithoutBinds(ops), at) == Window(ops, at)
  {
    hide Begins, IsDisposed, Window;
    if ops != [] {
      var earlier, op := ops[..|ops| - 1], ops[|ops| - 1];
      WindowIgnoresBinds(earlier, at);
      assert earlier + [op] == ops;
      OneMore(earlier, op, at);
      OneMore(WithoutBinds(earlier), op, at);
    }
  }

  /** The threads a run has begun, in order. */
  function Threads<T>(ops: seq<Op<T>>): seq<string> {
    if ops == [] then []
    else if ops[|ops| - 1].Begin? then Threads(ops[..|ops| - 1]) + [ops[|ops| - 1].thread]
    else Threads(ops[..|ops| - 1])
  }

  lemma {:induction false} StepKeepsThreads<T>(d: Dispatcher<T>, op: Op<T>)
    requires !Step(d, op).failed
    ensures |Step(d, op).registrations| == |d.registrations| + if op.Begin? then 1 else 0
    ensures forall i | 0 <= i < |d.registrations| :: Step(d, op).registrations[i].thread == d.registrations[i].thread
    ensures op.Begin? ==> Step(d, op).registrations[|d.registrations|].thread == op.thread
  {
  }

  lemma {:induction false} RegistrationsAreBegins<T>(ops: seq<Op<T>>)
    requires !Run(ops).failed
    ensures |Run(ops).registrations| == |Threads(ops)|
    ensures forall i | 0 <= i < |Threads(ops)| :: Run(ops).registrations[i].thread == Threads(ops)[i]
  {
    hide Step;
    if ops != [] {
      var earlier, op := ops[..|ops| - 1], ops[|ops| - 1];
      FailureSticks(Run(earlier), op);
      RegistrationsAreBegins(earlier);
      StepKeepsThreads(Run(earlier), op);
    }
  }

  lemma {:induction false} FailureSticks<T>(d: Dispatcher<T>, op: Op<T>)
    requires !Step(d, op).failed
    ensures !d.failed
  {
  }

  lemma {:induction false} ThreadsIgnoreBinds<T>(ops: seq<Op<T>>)
    ensures Threads(WithoutBinds(ops)) == Threads(ops)
  {
    if ops != [] {
      var earlier, op := ops[..|ops| - 1], ops[|ops| - 1];
      ThreadsIgnoreBinds(earlier);
      assert (WithoutBinds(earlier) + [op])[..|WithoutBinds(earlier)|] == WithoutBinds(earlier);
    }
  }

  /**
   Two runs that differ only in when their turns are bound show the listener of a turn the
   same events: it does not matter whether the turn id is known before or after its events.
   */
  lemma {:induction false} BindTimeIsInvisible<T>(ops: seq<Op<T>>, others: seq<Op<T>>, at: nat, turn: string)
    requires WithoutBinds(ops) == WithoutBinds(others)
    requires Clean(ops) && Clean(others) && BoundTo(ops, at, turn) && BoundTo(others, at, turn)
    ensures Run(ops).registrations[at].thread == Run(others).registrations[at].thread
    ensures var key := TurnKey(Run(ops).registrations[at].thread, turn);
            Delivered(Run(ops).log, key) == Delivered(Run(others).log, key)
  {
    hide Run, Window, Correlated, Delivered, Listens;
    ListenerSeesItsTurn(ops, at, turn);
    ListenerSeesItsTurn(others, at, turn);
    WindowIgnoresBinds(ops, at);
    WindowIgnoresBinds(others, at);
    RegistrationsAreBegins(ops);
    RegistrationsAreBegins(others);
    ThreadsIgnoreBinds(ops);
    ThreadsIgnoreBinds(others);
  }
}
