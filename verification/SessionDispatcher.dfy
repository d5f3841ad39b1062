/**
 The event dispatcher of a Codex session, with its starts and listeners updated in place.
 Every operation refines the corresponding step of `SessionEvents`.
 */
module SessionDispatcher {
  import opened SessionEvents

  class CodexSessionEventDispatcher<T> {
    var registrations: seq<Registration<T>>
    var active: set<string>
    var failed: bool
    ghost var bound: set<string>
    ghost var log: seq<(string, Event<T>)>
    ghost var misused: bool

    ghost function View(): Dispatcher<T> reads this {
      Dispatcher(registrations, active, failed, bound, log, misused)
    }

    constructor ()
      ensures View() == Run([])
    {
      registrations, active, failed, bound, log, misused := [], {}, false, {}, [], false;
    }

    method Begin(thread: string) returns (at: nat)
      requires !failed
      modifies this
      ensures View() == Step(old(View()), Op.Begin(thread)) && at == |old(registrations)|
    {
      at := |registrations|;
      registrations := registrations + [Registration(thread, [], 0, Waiting)];
    }

    /** Gives one event to the listener of `key`. */
    method Deliver(key: string, e: Event<T>)
      modifies this`log
      ensures log == old(log) + [(key, e)]
    {
      log := log + [(key, e)];
    }

    method Bind(at: nat, turn: string) returns (accepted: bool)
      requires !failed && at < |registrations|
      modifies this
      ensures View() == Step(old(View()), Op.Bind(at, turn))
      ensures accepted <==> TurnKey(old(registrations)[at].thread, turn) !in old(active)
    {
      ghost var before := View();
      var r := registrations[at];
      var key := TurnKey(r.thread, turn);
      misused := misused || r.status != Waiting || key in bound;
      if key in active {
        registrations := registrations[at := r.(status := Cancelled)];
        return false;
      }
      registrations := registrations[at := r.(status := Bound(turn))];
      active, bound := active + {key}, bound + {key};
      ghost var ready := View();
      for i := 0 to |r.events|
        invariant View() == ready.(log := ready.log + Addressed(Replay(r.events[..i], r.thread, turn), key))
      {
        var e := r.events[i];
        assert r.events[..i + 1][..i] == r.events[..i];
        if (e.isRequest && e.thread.None?) || BelongsTo(e, r.thread, turn) {
          Deliver(key, e);
        }
      }
      assert r.events[..|r.events|] == r.events;
      return true;
    }

    method Cancel(at: nat)
      requires !failed && at < |registrations|
      modifies this
      ensures View() == Step(old(View()), Op.Cancel(at))
    {
      if registrations[at].status == Waiting {
        registrations := registrations[at := registrations[at].(status := Cancelled)];
      }
    }

    method Dispose(at: nat)
      requires !failed && at < |registrations|
      modifies this
      ensures View() == Step(old(View()), Op.Dispose(at))
    {
      var r := registrations[at];
      if r.status.Bound? {
        registrations := registrations[at := r.(status := Disposed(r.status.turn))];
        active := active - {TurnKey(r.thread, r.status.turn)};
      } else if !r.status.Disposed? {
        misused := true;
      }
    }

    /** The loops over the starts of a thread; stops at the first buffer that is full. */
    method BufferInStarts(e: Event<T>) returns (buffered: bool, full: bool)
      modifies this`registrations
      ensures full <==> !CanBuffer(old(registrations), e)
      ensures !full ==> registrations == BufferAll(old(registrations), e)
      ensures !full ==> (buffered <==> exists i | 0 <= i < |old(registrations)| :: Awaits(old(registrations)[i], e))
    {
      buffered, full := false, false;
      ghost var before := registrations;
      for i := 0 to |registrations|
        invariant |registrations| == |before|
        invariant forall j | 0 <= j < i :: registrations[j] == Buffering(before[j], e)
        invariant forall j | i <= j < |before| :: registrations[j] == before[j]
        invariant forall j | 0 <= j < i :: Awaits(before[j], e) ==> Buffered(before[j], e).Some?
        invariant buffered <==> exists j | 0 <= j < i :: Awaits(before[j], e)
      {
        var r := registrations[i];
        if Awaits(r, e) {
          var grown := Buffered(r, e);
          if grown.None? {
            return buffered, true;
          }
          registrations := registrations[i := grown.value];
          buffered := true;
        }
      }
    }

    /** `ok` is false when the dispatch throws, which closes the connection. */
    method Dispatch(e: Event<T>) returns (ok: bool)
      requires !failed
      modifies this
      ensures ok == !failed == !Step(old(View()), Op.Dispatch(e)).failed
      ensures ok ==> View() == Step(old(View()), Op.Dispatch(e))
      ensures log == Step(old(View()), Op.Dispatch(e)).log
    {
      ok := true;
      if e.isRequest && (e.thread.None? || e.turn.None?) {
        failed := true;
        return false;
      }
      if e.thread.Some? && e.turn.Some? && TurnKey(e.thread.value, e.turn.value) in active {
        Deliver(TurnKey(e.thread.value, e.turn.value), e);
        return;
      }
      if e.thread.None? {
        assert BufferAll(registrations, e) == registrations;
        return;
      }
      ghost var before := registrations;
      var buffered, full := BufferInStarts(e);
      assert !full && !buffered && !e.isRequest ==> registrations == before;
      if full || (e.isRequest && !buffered) {
        failed := true;
        ok := false;
      }
    }
  }

}
