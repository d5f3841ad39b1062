/**
 The invariant of the event dispatcher: what has been buffered and delivered is what is due.
 */
module SessionInvariant {
  import opened SessionEvents

  // ----- the invariant ----------------------------------------------------

  ghost function Due<T>(ops: seq<Op<T>>, at: nat, thread: string, turn: string): seq<Event<T>> {
    Correlated(Window(ops, at), thread, turn)
  }

  /** A waiting start has buffered, for every turn not yet bound, exactly what that turn is due. */
  ghost predicate Awaiting<T>(d: Dispatcher<T>, ops: seq<Op<T>>, at: nat)
    requires at < |d.registrations|
  {
    var r := d.registrations[at];
    && !IsDisposed(ops, at)
    && (forall i | 0 <= i < |r.events| :: r.events[i].isRequest ==> r.events[i].thread.Some?)
    && (forall turn | TurnKey(r.thread, turn) !in d.bound ::
          Correlated(r.events, r.thread, turn) == Due(ops, at, r.thread, turn))
  }

  ghost predicate Served<T>(d: Dispatcher<T>, ops: seq<Op<T>>, at: nat, turn: string)
    requires at < |d.registrations|
  {
    var key := TurnKey(d.registrations[at].thread, turn);
    key in d.bound && Delivered(d.log, key) == Due(ops, at, d.registrations[at].thread, turn)
  }

  ghost predicate Tracked<T>(d: Dispatcher<T>, ops: seq<Op<T>>, at: nat)
    requires at < |d.registrations|
  {
    var r := d.registrations[at];
    && NUL !in r.thread
    && match r.status
       case Waiting => Awaiting(d, ops, at)
       case Cancelled => true
       case Bound(turn) => Served(d, ops, at, turn) && !IsDisposed(ops, at) && TurnKey(r.thread, turn) in d.active
       case Disposed(turn) => Served(d, ops, at, turn) && IsDisposed(ops, at) && TurnKey(r.thread, turn) !in d.active
  }

  predicate Listens<T>(r: Registration<T>, key: string) {
    match r.status
    case Bound(turn) => TurnKey(r.thread, turn) == key
    case Disposed(turn) => TurnKey(r.thread, turn) == key
    case _ => false
  }

  ghost predicate Separate<T>(registrations: seq<Registration<T>>) {
    forall i, j, key | 0 <= i < |registrations| && 0 <= j < |registrations| &&
      Listens(registrations[i], key) && Listens(registrations[j], key) :: i == j
  }

  ghost predicate Inv<T>(d: Dispatcher<T>, ops: seq<Op<T>>) {
    && |d.registrations| == Begins(ops)
    && d.active <= d.bound && OnlyBound(d.log, d.bound) && Separate(d.registrations)
    && (forall at | 0 <= at < |d.registrations| :: Tracked(d, ops, at))
    && (forall at: nat | |d.registrations| <= at :: !IsDisposed(ops, at))
  }

  // ----- one operation keeps the invariant --------------------------------

  lemma {:induction false} OneMore<T>(ops: seq<Op<T>>, op: Op<T>, at: nat)
    ensures Begins(ops + [op]) == (if op.Begin? then Begins(ops) + 1 else Begins(ops))
    ensures IsDisposed(ops + [op], at) <==> IsDisposed(ops, at) || op == Dispose(at)
    ensures Window(ops + [op], at) ==
            if op.Dispatch? && at < Begins(ops) && !IsDisposed(ops, at) then Window(ops, at) + [op.event] else Window(ops, at)
  {
    var more := ops + [op];
    assert more[..|more| - 1] == ops && more[|ops|] == op;
    if IsDisposed(ops, at) {
      var i :| 0 <= i < |ops| && ops[i] == Dispose(at);
      assert more[i] == Dispose(at);
    }
    if op == Dispose(at) { assert more[|ops|] == Dispose(at); }
    if IsDisposed(more, at) && op != Dispose(at) {
      var i :| 0 <= i < |more| && more[i] == Dispose(at);
      assert ops[i] == Dispose(at);
    }
  }

  lemma {:induction false} OneMoreCorrelated<T>(events: seq<Event<T>>, e: Event<T>, thread: string, turn: string)
    ensures Correlated(events + [e], thread, turn) ==
            if BelongsTo(e, thread, turn) then Correlated(events, thread, turn) + [e] else Correlated(events, thread, turn)
  {
    assert (events + [e])[..|events|] == events;
  }

  lemma {:induction false} OneMoreDelivered<T>(log: seq<(string, Event<T>)>, k: string, e: Event<T>, key: string)
    ensures Delivered(log + [(k, e)], key) == if k == key then Delivered(log, key) + [e] else Delivered(log, key)
  {
    assert (log + [(k, e)])[..|log|] == log;
  }

  /** Once disposed, the window is closed; before `begin`, it is empty. */
  lemma {:induction false} UnopenedWindow<T>(ops: seq<Op<T>>, at: nat)
    requires Begins(ops) <= at
    ensures Window(ops, at) == []
  {
    if ops != [] { UnopenedWindow(ops[..|ops| - 1], at); }
  }

  lemma {:induction false} BeginKeepsInv<T>(d: Dispatcher<T>, ops: seq<Op<T>>, thread: string)
    requires Inv(d, ops) && !d.failed && NUL !in thread
    ensures Inv(Step(d, Begin(thread)), ops + [Begin(thread)])
  {
    hide Correlated, Delivered, Window, Begins, IsDisposed;
    var after, more := Step(d, Begin(thread)), ops + [Begin(thread)];
    forall at: nat ensures IsDisposed(more, at) <==> IsDisposed(ops, at) {
      OneMore(ops, Begin(thread), at);
    }
    forall at | 0 <= at < |after.registrations| ensures Tracked(after, more, at) {
      OneMore(ops, Begin(thread), at);
      if at < |d.registrations| {
        assert Tracked(d, ops, at) && after.registrations[at] == d.registrations[at];
      } else {
        UnopenedWindow(ops, at);
      }
    }
    OneMore(ops, Begin(thread), 0);
  }

  /** An event of a turn with a listener: that listener gets it, and nobody else. */
  lemma {:induction false} AddressedKeepsTracked<T>(d: Dispatcher<T>, ops: seq<Op<T>>, e: Event<T>, at: nat)
    requires Inv(d, ops) && !d.failed && at < |d.registrations| && Addresses(d, e) && NUL !in e.thread.value
    ensures Tracked(d.(log := d.log + [(TurnKey(e.thread.value, e.turn.value), e)]), ops + [Dispatch(e)], at)
  {
    hide Correlated, Delivered, Window, Begins, IsDisposed, TurnKey, Separate;
    var r, key := d.registrations[at], TurnKey(e.thread.value, e.turn.value);
    assert Tracked(d, ops, at);
    OneMore(ops, Dispatch(e), at);
    forall turn: string
      ensures BelongsTo(e, r.thread, turn) <==> TurnKey(r.thread, turn) == key
      ensures Due(ops + [Dispatch(e)], at, r.thread, turn) ==
              if IsDisposed(ops, at) || TurnKey(r.thread, turn) != key then Due(ops, at, r.thread, turn)
              else Due(ops, at, r.thread, turn) + [e]
      ensures Delivered(d.log + [(key, e)], TurnKey(r.thread, turn)) ==
              if TurnKey(r.thread, turn) == key then Delivered(d.log, TurnKey(r.thread, turn)) + [e]
              else Delivered(d.log, TurnKey(r.thread, turn))
    {
      if TurnKey(r.thread, turn) == key { KeyIdentifies(r.thread, turn, e.thread.value, e.turn.value); }
      OneMoreCorrelated(Window(ops, at), e, r.thread, turn);
      OneMoreDelivered(d.log, key, e, TurnKey(r.thread, turn));
    }
  }

  /** An event of a turn without a listener reaches no listener and the buffers of its thread. */
  lemma {:induction false} BufferedKeepsTracked<T>(d: Dispatcher<T>, ops: seq<Op<T>>, e: Event<T>, at: nat)
    requires Inv(d, ops) && !d.failed && at < |d.registrations| && !Addresses(d, e) && CanBuffer(d.registrations, e)
    requires e.isRequest ==> e.thread.Some?
    ensures Tracked(d.(registrations := BufferAll(d.registrations, e)), ops + [Dispatch(e)], at)
  {
    hide Correlated, Delivered, Window, Begins, IsDisposed, TurnKey, Separate;
    var r := d.registrations[at];
    assert Tracked(d, ops, at);
    OneMore(ops, Dispatch(e), at);
    forall turn: string
      ensures Due(ops + [Dispatch(e)], at, r.thread, turn) ==
              if IsDisposed(ops, at) || !BelongsTo(e, r.thread, turn) then Due(ops, at, r.thread, turn)
              else Due(ops, at, r.thread, turn) + [e]
      ensures Correlated(r.events + [e], r.thread, turn) ==
              if BelongsTo(e, r.thread, turn) then Correlated(r.events, r.thread, turn) + [e]
              else Correlated(r.events, r.thread, turn)
    {
      OneMoreCorrelated(Window(ops, at), e, r.thread, turn);
      OneMoreCorrelated(r.events, e, r.thread, turn);
    }
    assert BufferAll(d.registrations, e)[at] == Buffering(r, e);
  }

  lemma {:induction false} DispatchKeepsInv<T>(d: Dispatcher<T>, ops: seq<Op<T>>, e: Event<T>)
    requires Inv(d, ops) && !d.failed && (e.thread.Some? ==> NUL !in e.thread.value)
    requires !Step(d, Dispatch(e)).failed
    ensures Inv(Step(d, Dispatch(e)), ops + [Dispatch(e)])
  {
    hide Correlated, Delivered, Window, Begins, IsDisposed, TurnKey;
    var after, more := Step(d, Dispatch(e)), ops + [Dispatch(e)];
    forall at: nat ensures IsDisposed(more, at) <==> IsDisposed(ops, at) {
      OneMore(ops, Dispatch(e), at);
    }
    forall at | 0 <= at < |after.registrations| ensures Tracked(after, more, at) {
      if Addresses(d, e) { AddressedKeepsTracked(d, ops, e, at); } else { BufferedKeepsTracked(d, ops, e, at); }
    }
    forall i, key | 0 <= i < |d.registrations| ensures Listens(after.registrations[i], key) <==> Listens(d.registrations[i], key) {
    }
    OneMore(ops, Dispatch(e), 0);
  }

  /** A turn bound for the first time gets what its start has buffered. */
  lemma {:induction false} BindServes<T>(d: Dispatcher<T>, ops: seq<Op<T>>, at: nat, turn: string)
    requires Inv(d, ops) && !d.failed && at < |d.registrations| && !BindTurn(d, at, turn).misused
    ensures Tracked(BindTurn(d, at, turn), ops + [Bind(at, turn)], at)
  {
    hide Correlated, Delivered, Window, Begins, IsDisposed, TurnKey, Separate, Replay;
    var r, key := d.registrations[at], TurnKey(d.registrations[at].thread, turn);
    assert Tracked(d, ops, at);
    OneMore(ops, Bind(at, turn), at);
    ReplayIsCorrelated(r.events, r.thread, turn);
    DeliveredAddressed(d.log, Replay(r.events, r.thread, turn), key, key);
    NeverBoundNeverLogged(d.log, d.bound, key);
    assert [] + Correlated(r.events, r.thread, turn) == Correlated(r.events, r.thread, turn);
  }

  lemma {:induction false} BindKeepsOthers<T>(d: Dispatcher<T>, ops: seq<Op<T>>, at: nat, turn: string, other: nat)
    requires Inv(d, ops) && !d.failed && at < |d.registrations| && !BindTurn(d, at, turn).misused
    requires other < |d.registrations| && other != at
    ensures Tracked(BindTurn(d, at, turn), ops + [Bind(at, turn)], other)
  {
    hide Correlated, Delivered, Window, Begins, IsDisposed, TurnKey, Separate, Replay;
    var r, key := d.registrations[at], TurnKey(d.registrations[at].thread, turn);
    assert Tracked(d, ops, other);
    OneMore(ops, Bind(at, turn), other);
    forall k | k != key ensures Delivered(d.log + Addressed(Replay(r.events, r.thread, turn), key), k) == Delivered(d.log, k) {
      DeliveredAddressed(d.log, Replay(r.events, r.thread, turn), key, k);
    }
  }

  lemma {:induction false} BindKeepsInv<T>(d: Dispatcher<T>, ops: seq<Op<T>>, at: nat, turn: string)
    requires Inv(d, ops) && !d.failed && !Step(d, Bind(at, turn)).misused
    ensures Inv(Step(d, Bind(at, turn)), ops + [Bind(at, turn)])
  {
    hide Correlated, Delivered, Window, Begins, IsDisposed, TurnKey, Replay;
    var after, more := Step(d, Bind(at, turn)), ops + [Bind(at, turn)];
    forall i: nat ensures IsDisposed(more, i) <==> IsDisposed(ops, i) {
      OneMore(ops, Bind(at, turn), i);
    }
    forall i | 0 <= i < |after.registrations| ensures Tracked(after, more, i) {
      if i == at { BindServes(d, ops, at, turn); } else { BindKeepsOthers(d, ops, at, turn, i); }
    }
    forall i, key | 0 <= i < |d.registrations| && Listens(d.registrations[i], key) ensures key in d.bound {
      assert Tracked(d, ops, i);
    }
    OneMore(ops, Bind(at, turn), 0);
  }

  lemma {:induction false} CancelKeepsInv<T>(d: Dispatcher<T>, ops: seq<Op<T>>, at: nat)
    requires Inv(d, ops) && !d.failed && !Step(d, Cancel(at)).misused
    ensures Inv(Step(d, Cancel(at)), ops + [Cancel(at)])
  {
    hide Correlated, Delivered, Window, Begins, IsDisposed, TurnKey;
    var after, more := Step(d, Cancel(at)), ops + [Cancel(at)];
    forall i: nat ensures IsDisposed(more, i) <==> IsDisposed(ops, i) {
      OneMore(ops, Cancel(at), i);
    }
    forall i | 0 <= i < |after.registrations| ensures Tracked(after, more, i) {
      assert Tracked(d, ops, i);
      OneMore(ops, Cancel(at), i);
    }
    OneMore(ops, Cancel(at), 0);
  }

  lemma {:induction false} DisposeKeepsTracked<T>(d: Dispatcher<T>, ops: seq<Op<T>>, at: nat, other: nat)
    requires Inv(d, ops) && !d.failed && at < |d.registrations| && !DisposeTurn(d, at).misused
    requires other < |d.registrations|
    ensures Tracked(DisposeTurn(d, at), ops + [Dispose(at)], other)
  {
    hide Correlated, Delivered, Window, Begins, IsDisposed, TurnKey;
    var r, q := d.registrations[at], d.registrations[other];
    assert Tracked(d, ops, other) && Tracked(d, ops, at);
    OneMore(ops, Dispose(at), other);
    if other != at && r.status.Bound? {
      assert Listens(r, TurnKey(r.thread, r.status.turn));
      assert !Listens(q, TurnKey(r.thread, r.status.turn));
    }
  }

  lemma {:induction false} DisposeKeepsInv<T>(d: Dispatcher<T>, ops: seq<Op<T>>, at: nat)
    requires Inv(d, ops) && !d.failed && !Step(d, Dispose(at)).misused
    ensures Inv(Step(d, Dispose(at)), ops + [Dispose(at)])
  {
    hide Correlated, Delivered, Window, Begins, IsDisposed, TurnKey;
    var after, more := Step(d, Dispose(at)), ops + [Dispose(at)];
    forall i: nat ensures IsDisposed(more, i) <==> IsDisposed(ops, i) || i == at {
      OneMore(ops, Dispose(at), i);
    }
    forall i, key | 0 <= i < |d.registrations| ensures Listens(after.registrations[i], key) <==> Listens(d.registrations[i], key) {
      assert i != at ==> after.registrations[i] == d.registrations[i];
      if d.registrations[at].status.Bound? {
        var r := d.registrations[at];
        assert after.registrations[at] == r.(status := Disposed(r.status.turn));
      } else {
        assert after == d;
      }
    }
    forall i | 0 <= i < |after.registrations| ensures Tracked(after, more, i) {
      DisposeKeepsTracked(d, ops, at, i);
    }
    OneMore(ops, Dispose(at), 0);
  }

  ghost predicate WellNamedOp<T>(op: Op<T>) {
    (op.Begin? ==> NUL !in op.thread) && (op.Dispatch? && op.event.thread.Some? ==> NUL !in op.event.thread.value)
  }

  lemma {:induction false} StepKeepsInv<T>(d: Dispatcher<T>, ops: seq<Op<T>>, op: Op<T>)
    requires Inv(d, ops) && WellNamedOp(op) && !Step(d, op).failed && !Step(d, op).misused
    ensures Inv(Step(d, op), ops + [op])
  {
    hide Inv;
    match op
    case Begin(thread) => BeginKeepsInv(d, ops, thread);
    case Dispatch(e) => DispatchKeepsInv(d, ops, e);
    case Bind(at, turn) => BindKeepsInv(d, ops, at, turn);
    case Cancel(at) => CancelKeepsInv(d, ops, at);
    case Dispose(at) => DisposeKeepsInv(d, ops, at);
  }

  lemma {:induction false} RunKeepsInv<T>(ops: seq<Op<T>>)
    requires (forall i | 0 <= i < |ops| :: WellNamedOp(ops[i])) && !Run(ops).failed && !Run(ops).misused
    ensures Inv(Run(ops), ops)
  {
    if ops != [] {
      hide Inv, Step, WellNamedOp;
      var earlier, op := ops[..|ops| - 1], ops[|ops| - 1];
      StickyFlags(Run(earlier), op);
      RunKeepsInv(earlier);
      StepKeepsInv(Run(earlier), earlier, op);
      assert earlier + [op] == ops;
    }
  }

  lemma {:induction false} StickyFlags<T>(d: Dispatcher<T>, op: Op<T>)
    requires !Step(d, op).failed && !Step(d, op).misused
    ensures !d.failed && !d.misused
  {
  }
}
