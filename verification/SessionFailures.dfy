/**
 When a dispatch fails a session, and what it does otherwise.
 */
module SessionFailures {
  import opened Wrappers
  import opened SessionEvents

  /** A start of the event's thread that has not been bound or cancelled. */
  predicate StartWaits<T>(r: Registration<T>, e: Event<T>) {
    r.status == Waiting && e.thread.Some? && e.thread.value == r.thread
  }

  predicate IsFull<T>(r: Registration<T>, e: Event<T>) {
    |r.events| >= 2048 || r.bytes + e.bytes > 8000000
  }

  predicate HasListener<T>(d: Dispatcher<T>, e: Event<T>) {
    e.thread.Some? && e.turn.Some? && e.thread.value + [0 as char] + e.turn.value in d.active
  }

  /** A request that cannot be told apart or that nobody can take; or an event that would overfill a waiting start. */
  predicate Refuses<T>(d: Dispatcher<T>, e: Event<T>) {
    || (e.isRequest && (e.thread.None? || e.turn.None?))
    || (!HasListener(d, e) &&
        (|| (e.isRequest && forall i | 0 <= i < |d.registrations| :: !StartWaits(d.registrations[i], e))
         || exists i | 0 <= i < |d.registrations| :: StartWaits(d.registrations[i], e) && IsFull(d.registrations[i], e)))
  }

  lemma {:induction false} RefusedFails<T>(d: Dispatcher<T>, e: Event<T>)
    requires !d.failed
    ensures Step(d, Dispatch(e)).failed <==> Refuses(d, e)
    ensures !Refuses(d, e) && HasListener(d, e) ==>
              Step(d, Dispatch(e)) == d.(log := d.log + [(TurnKey(e.thread.value, e.turn.value), e)])
    ensures !Refuses(d, e) && !HasListener(d, e) ==>
              && Step(d, Dispatch(e)).log == d.log && |Step(d, Dispatch(e)).registrations| == |d.registrations|
              && forall i | 0 <= i < |d.registrations| ::
                   var r, after := d.registrations[i], Step(d, Dispatch(e)).registrations[i];
                   after == if StartWaits(r, e) then r.(events := r.events + [e], bytes := r.bytes + e.bytes) else r
  {
    assert forall i | 0 <= i < |d.registrations| :: Awaits(d.registrations[i], e) <==> StartWaits(d.registrations[i], e);
    assert forall i | 0 <= i < |d.registrations| :: Buffered(d.registrations[i], e).None? <==> IsFull(d.registrations[i], e);
    assert Addresses(d, e) <==> HasListener(d, e);
  }

  predicate RefusedAt<T>(ops: seq<Op<T>>, i: nat)
    requires i < |ops|
  {
    ops[i].Dispatch? && !Run(ops[..i]).failed && Refuses(Run(ops[..i]), ops[i].event)
  }

  lemma {:induction false} StepFails<T>(d: Dispatcher<T>, op: Op<T>)
    ensures Step(d, op).failed <==> d.failed || (op.Dispatch? && Refuses(d, op.event))
  {
    if !d.failed && op.Dispatch? { RefusedFails(d, op.event); }
  }

  lemma {:induction false} RefusedBefore<T>(ops: seq<Op<T>>, i: nat, n: nat)
    requires i < n <= |ops|
    ensures RefusedAt(ops[..n], i) <==> RefusedAt(ops, i)
  {
    assert ops[..n][..i] == ops[..i] && ops[..n][i] == ops[i];
  }

  /** A session has failed exactly when some dispatch was refused; nothing else fails it. */
  lemma {:induction false} FailsExactly<T>(ops: seq<Op<T>>)
    ensures Run(ops).failed <==> exists i | 0 <= i < |ops| :: RefusedAt(ops, i)
  {
    if ops != [] {
      var n := |ops| - 1;
      FailsExactly(ops[..n]);
      StepFails(Run(ops[..n]), ops[n]);
      assert Run(ops).failed <==> Run(ops[..n]).failed || RefusedAt(ops, n);
      hide Run, Step, Refuses, RefusedAt;
      forall i: nat | i < n ensures RefusedAt(ops[..n], i) <==> RefusedAt(ops, i) {
        RefusedBefore(ops, i, n);
      }
      if Run(ops[..n]).failed {
        var i :| 0 <= i < n && RefusedAt(ops[..n], i);
        assert RefusedAt(ops, i);
      }
    }
  }
}
