/**
 Routing of session events to turn listeners.  Events may arrive before the id of
 the turn they belong to is known; they are buffered from the moment the turn is
 begun and replayed when it is bound.
 */
module SessionEvents {
  import opened Wrappers

  /** A session event with its correlation and its size as JSON; `body` is what the listener gets. */
  datatype Event<T> = Event(isRequest: bool, thread: Option<string>, turn: Option<string>, bytes: nat, body: T)

  datatype Status = Waiting | Cancelled | Bound(turn: string) | Disposed(turn: string)

  /** What `begin` hands out: its buffered events and what has become of it. */
  datatype Registration<T> = Registration(thread: string, events: seq<Event<T>>, bytes: nat, status: Status)

  /** `active` holds the keys with a listener; `bound`, `log` and `misused` are history. */
  datatype Dispatcher<T> = Dispatcher(registrations: seq<Registration<T>>, active: set<string>, failed: bool,
                                      bound: set<string>, log: seq<(string, Event<T>)>, misused: bool)

  datatype Op<T> = Begin(thread: string) | Bind(registration: nat, turn: string) | Cancel(registration: nat)
                 | Dispatch(event: Event<T>) | Dispose(registration: nat)

  const MAX_EVENTS := 2048
  const MAX_EVENT_BYTES := 8000000
  const NUL := 0 as char

  function TurnKey(thread: string, turn: string): string {
    thread + [NUL] + turn
  }

  /** The key identifies thread and turn as long as no thread id contains the separator. */
  lemma {:induction false} KeyIdentifies(s: string, t: string, u: string, v: string)
    requires NUL !in s && NUL !in u && TurnKey(s, t) == TurnKey(u, v)
    ensures s == u && t == v
  {
    var key := TurnKey(s, t);
    assert key[|s|] == NUL && key[|u|] == NUL;
    assert forall i | 0 <= i < |s| :: key[i] == s[i];
    assert forall i | 0 <= i < |u| :: key[i] == u[i];
    assert |s| == |u|;
    assert key[..|s|] == s && key[..|u|] == u && key[|s| + 1..] == t && key[|u| + 1..] == v;
  }

  predicate BelongsTo<T>(e: Event<T>, thread: string, turn: string) {
    e.thread == Some(thread) && e.turn == Some(turn)
  }

  /** The events correlated to one turn, in order. */
  function Correlated<T>(events: seq<Event<T>>, thread: string, turn: string): seq<Event<T>> {
    if events == [] then []
    else
      var before, last := Correlated(events[..|events| - 1], thread, turn), events[|events| - 1];
      if BelongsTo(last, thread, turn) then before + [last] else before
  }

  /** What the listener of one key was given, in order. */
  function Delivered<T>(log: seq<(string, Event<T>)>, key: string): seq<Event<T>> {
    if log == [] then []
    else
      var before, last := Delivered(log[..|log| - 1], key), log[|log| - 1];
      if last.0 == key then before + [last.1] else before
  }

  // ----- the operations ---------------------------------------------------

  function Addressed<T>(events: seq<Event<T>>, key: string): seq<(string, Event<T>)> {
    seq(|events|, i requires 0 <= i < |events| => (key, events[i]))
  }

  /** The replay loop of `bind`: an uncorrelated server request would be replayed to anyone. */
  function Replay<T>(events: seq<Event<T>>, thread: string, turn: string): seq<Event<T>> {
    if events == [] then []
    else
      var before, last := Replay(events[..|events| - 1], thread, turn), events[|events| - 1];
      if (last.isRequest && last.thread.None?) || BelongsTo(last, thread, turn) then before + [last] else before
  }

  function BindTurn<T>(d: Dispatcher<T>, at: nat, turn: string): Dispatcher<T>
    requires at < |d.registrations|
  {
    var r := d.registrations[at];
    var key := TurnKey(r.thread, turn);
    var misused := d.misused || r.status != Waiting || key in d.bound;
    if key in d.active then d.(registrations := d.registrations[at := r.(status := Cancelled)], misused := misused)
    else d.(registrations := d.registrations[at := r.(status := Bound(turn))], active := d.active + {key},
            bound := d.bound + {key}, log := d.log + Addressed(Replay(r.events, r.thread, turn), key), misused := misused)
  }

  /** `buffer`: nothing when a bound is exceeded. */
  function Buffered<T>(r: Registration<T>, e: Event<T>): Option<Registration<T>> {
    if |r.events| >= MAX_EVENTS || r.bytes + e.bytes > MAX_EVENT_BYTES then None
    else Some(r.(events := r.events + [e], bytes := r.bytes + e.bytes))
  }

  predicate Awaits<T>(r: Registration<T>, e: Event<T>) {
    r.status == Waiting && e.thread == Some(r.thread)
  }

  predicate CanBuffer<T>(registrations: seq<Registration<T>>, e: Event<T>) {
    forall i | 0 <= i < |registrations| :: Awaits(registrations[i], e) ==> Buffered(registrations[i], e).Some?
  }

  /** One start after an event that its buffer can take. */
  function Buffering<T>(r: Registration<T>, e: Event<T>): Registration<T> {
    if Awaits(r, e) && Buffered(r, e).Some? then Buffered(r, e).value else r
  }

  /** Buffering in every waiting start of the thread. */
  function BufferAll<T>(registrations: seq<Registration<T>>, e: Event<T>): seq<Registration<T>> {
    seq(|registrations|, i requires 0 <= i < |registrations| => Buffering(registrations[i], e))
  }

  predicate Addresses<T>(d: Dispatcher<T>, e: Event<T>) {
    e.thread.Some? && e.turn.Some? && TurnKey(e.thread.value, e.turn.value) in d.active
  }

  function DispatchEvent<T>(d: Dispatcher<T>, e: Event<T>): Dispatcher<T> {
    if e.isRequest && (e.thread.None? || e.turn.None?) then d.(failed := true)
    else if Addresses(d, e) then d.(log := d.log + [(TurnKey(e.thread.value, e.turn.value), e)])
    else if e.isRequest && (forall i | 0 <= i < |d.registrations| :: !Awaits(d.registrations[i], e)) then
      d.(failed := true)
    else if !CanBuffer(d.registrations, e) then d.(failed := true)
    else d.(registrations := BufferAll(d.registrations, e))
  }

  /**
   One operation; a thrown dispatch error fails the connection and ends the session.
   Only what `begin` and `bind` returned can be bound, cancelled or disposed.
   */
  function Step<T>(d: Dispatcher<T>, op: Op<T>): Dispatcher<T> {
    if d.failed then d
    else match op
      case Begin(thread) => d.(registrations := d.registrations + [Registration(thread, [], 0, Waiting)])
      case Dispatch(e) => DispatchEvent(d, e)
      case Bind(at, turn) => if at < |d.registrations| then BindTurn(d, at, turn) else d.(misused := true)
      case Cancel(at) =>
        if at >= |d.registrations| then d.(misused := true)
        else if d.registrations[at].status == Waiting then
          d.(registrations := d.registrations[at := d.registrations[at].(status := Cancelled)])
        else d
      case Dispose(at) =>
        if at >= |d.registrations| then d.(misused := true) else DisposeTurn(d, at)
  }

  function DisposeTurn<T>(d: Dispatcher<T>, at: nat): Dispatcher<T>
    requires at < |d.registrations|
  {
    var r := d.registrations[at];
    if r.status.Bound? then
      d.(registrations := d.registrations[at := r.(status := Disposed(r.status.turn))],
         active := d.active - {TurnKey(r.thread, r.status.turn)})
    else if r.status.Disposed? then d
    else d.(misused := true)
  }

  function Run<T>(ops: seq<Op<T>>): Dispatcher<T> {
    if ops == [] then Dispatcher([], {}, false, {}, [], false) else Step(Run(ops[..|ops| - 1]), ops[|ops| - 1])
  }

  // ----- what a listener should see ---------------------------------------

  function Begins<T>(ops: seq<Op<T>>): nat {
    if ops == [] then 0
    else if ops[|ops| - 1].Begin? then Begins(ops[..|ops| - 1]) + 1 else Begins(ops[..|ops| - 1])
  }

  ghost predicate IsDisposed<T>(ops: seq<Op<T>>, at: nat) {
    exists i | 0 <= i < |ops| :: ops[i] == Dispose(at)
  }

  /** Every event dispatched after the `at`-th `begin` and before its dispose, whatever its correlation. */
  ghost function Window<T>(ops: seq<Op<T>>, at: nat): seq<Event<T>> {
    if ops == [] then []
    else
      var earlier, op := ops[..|ops| - 1], ops[|ops| - 1];
      if op.Dispatch? && at < Begins(earlier) && !IsDisposed(earlier, at) then Window(earlier, at) + [op.event]
      else Window(earlier, at)
  }

  // ----- delivery ---------------------------------------------------------

  lemma {:induction false} DeliveredAddressed<T>(log: seq<(string, Event<T>)>, events: seq<Event<T>>, key: string, k: string)
    ensures Delivered(log + Addressed(events, key), k) ==
            if k == key then Delivered(log, k) + events else Delivered(log, k)
  {
    if events == [] {
      assert log + Addressed(events, key) == log;
      assert Delivered(log, k) + events == Delivered(log, k);
    } else {
      var n := |events| - 1;
      DeliveredAddressed(log, events[..n], key, k);
      var whole := log + Addressed(events, key);
      assert whole[..|whole| - 1] == log + Addressed(events[..n], key);
      assert events[..n] + [events[n]] == events;
      assert Delivered(log, k) + events == Delivered(log, k) + events[..n] + [events[n]];
    }
  }

  lemma {:induction false} ReplayIsCorrelated<T>(events: seq<Event<T>>, thread: string, turn: string)
    requires forall i | 0 <= i < |events| :: events[i].isRequest ==> events[i].thread.Some?
    ensures Replay(events, thread, turn) == Correlated(events, thread, turn)
  {
    if events != [] { ReplayIsCorrelated(events[..|events| - 1], thread, turn); }
  }

  ghost predicate OnlyBound<T>(log: seq<(string, Event<T>)>, bound: set<string>) {
    forall i | 0 <= i < |log| :: log[i].0 in bound
  }

  lemma {:induction false} NeverBoundNeverLogged<T>(log: seq<(string, Event<T>)>, bound: set<string>, key: string)
    requires OnlyBound(log, bound) && key !in bound
    ensures Delivered(log, key) == []
  {
    if log != [] { NeverBoundNeverLogged(log[..|log| - 1], bound, key); }
  }

  // ----- buffers ----------------------------------------------------------

  function TotalBytes<T>(events: seq<Event<T>>): nat {
    if events == [] then 0 else TotalBytes(events[..|events| - 1]) + events[|events| - 1].bytes
  }

  predicate WithinLimits<T>(r: Registration<T>) {
    |r.events| <= MAX_EVENTS && r.bytes == TotalBytes(r.events) <= MAX_EVENT_BYTES
  }

  lemma {:induction false} BufferingKeepsLimits<T>(r: Registration<T>, e: Event<T>)
    requires WithinLimits(r)
    ensures WithinLimits(Buffering(r, e))
  {
    assert (r.events + [e])[..|r.events|] == r.events;
  }

  lemma {:induction false} StepKeepsLimits<T>(d: Dispatcher<T>, op: Op<T>)
    requires forall i | 0 <= i < |d.registrations| :: WithinLimits(d.registrations[i])
    ensures forall i | 0 <= i < |Step(d, op).registrations| :: WithinLimits(Step(d, op).registrations[i])
  {
    hide Replay, Correlated;
    if op.Dispatch? {
      forall i | 0 <= i < |d.registrations| ensures WithinLimits(Buffering(d.registrations[i], op.event)) {
        BufferingKeepsLimits(d.registrations[i], op.event);
      }
    }
  }

  /** No buffer ever exceeds its two limits, and its byte count is that of the events in it. */
  lemma {:induction false} BuffersStayBounded<T>(ops: seq<Op<T>>)
    ensures forall i | 0 <= i < |Run(ops).registrations| :: WithinLimits(Run(ops).registrations[i])
  {
    hide Step, WithinLimits;
    if ops != [] {
      BuffersStayBounded(ops[..|ops| - 1]);
      StepKeepsLimits(Run(ops[..|ops| - 1]), ops[|ops| - 1]);
    }
  }
}
