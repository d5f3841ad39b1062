/**
 Settlement of the requests of a Codex connection: each exactly once, and for its own cause.
 */
module ConnectionSettlement {
  import opened Texts
  import opened Framing
  import opened CodexConnection

  ghost predicate WasSettled(c: Connection, id: int) {
    exists i :: 0 <= i < |c.settled| && c.settled[i].0 == id
  }

  /**
   What every run keeps about requests: each id issued so far is pending or has
   been settled, exactly once and never both, and nothing is pending once the
   connection has left the open state.
   */
  ghost predicate Accounted(c: Connection) {
    && c.nextId >= 1
    && (forall i, j | 0 <= i < j < |c.settled| :: c.settled[i].0 != c.settled[j].0)
    && (forall i, j | 0 <= i < j < |c.pending| :: c.pending[i] != c.pending[j])
    && (forall id <- c.pending :: !WasSettled(c, id))
    && (forall id: int :: id in c.pending || WasSettled(c, id) <==> 1 <= id < c.nextId)
    && (c.phase != Open ==> c.pending == [])
  }

  lemma {:induction false} SettledMore(c: Connection, more: seq<(nat, Settlement)>)
    ensures forall id :: WasSettled(c.(settled := c.settled + more), id) <==>
                         WasSettled(c, id) || exists i :: 0 <= i < |more| && more[i].0 == id
  {
    var after := c.(settled := c.settled + more);
    forall id | WasSettled(c, id) ensures WasSettled(after, id) {
      var i :| 0 <= i < |c.settled| && c.settled[i].0 == id;
      assert after.settled[i].0 == id;
    }
    forall id, i | 0 <= i < |more| && more[i].0 == id ensures WasSettled(after, id) {
      assert after.settled[|c.settled| + i].0 == id;
    }
    forall id | WasSettled(after, id) ensures WasSettled(c, id) || exists i :: 0 <= i < |more| && more[i].0 == id {
      var i :| 0 <= i < |after.settled| && after.settled[i].0 == id;
      if i >= |c.settled| { assert more[i - |c.settled|].0 == id; }
    }
  }

  lemma {:induction false} RejectionAccounted(c: Connection)
    requires Accounted(c)
    ensures Accounted(RejectPending(c))
  {
    var more := Rejections(c.pending);
    var after := RejectPending(c);
    SettledMore(c, more);
    assert forall id :: WasSettled(after, id) <==> WasSettled(c.(settled := c.settled + more), id);
    forall i, j | 0 <= i < j < |after.settled| ensures after.settled[i].0 != after.settled[j].0 {
      if i < |c.settled| <= j {
        assert c.pending[j - |c.settled|] in c.pending;
        assert c.settled[i].0 == after.settled[i].0;
      }
    }
    forall id: int ensures id in after.pending || WasSettled(after, id) <==> 1 <= id < c.nextId {
      if id in c.pending {
        var i :| 0 <= i < |c.pending| && c.pending[i] == id;
        assert more[i].0 == id;
      }
    }
  }

  lemma {:induction false} PendingLess(pending: seq<nat>, id: nat)
    requires forall i, j | 0 <= i < j < |pending| :: pending[i] != pending[j]
    ensures var after := WithoutPending(pending, id);
            && (forall i, j | 0 <= i < j < |after| :: after[i] != after[j])
            && (forall x :: x in after <==> x in pending && x != id)
  {
    if pending != [] {
      var tail := pending[1..];
      assert pending == [pending[0]] + tail;
      assert pending[0] !in tail;
      PendingLess(tail, id);
      if pending[0] != id {
        var rest := WithoutPending(tail, id);
        assert forall i | 0 <= i < |rest| :: rest[i] in rest && rest[i] in tail;
      }
    }
  }

  /** Moving one pending id to the settled ones. */
  lemma {:induction false} OneSettled(c: Connection, id: nat, s: Settlement)
    requires Accounted(c) && id in c.pending
    ensures Accounted(c.(pending := WithoutPending(c.pending, id), settled := c.settled + [(id, s)]))
  {
    var after := c.(pending := WithoutPending(c.pending, id), settled := c.settled + [(id, s)]);
    PendingLess(c.pending, id);
    SettledMore(c, [(id, s)]);
    assert [(id, s)][0].0 == id;
    assert forall x :: WasSettled(after, x) <==> WasSettled(c.(settled := c.settled + [(id, s)]), x);
    forall i, j | 0 <= i < j < |after.settled| ensures after.settled[i].0 != after.settled[j].0 {
      if j == |c.settled| { assert c.settled[i].0 == after.settled[i].0; }
    }
  }

  /** A fresh id, settled at once or left pending. */
  lemma {:induction false} OneIssued(c: Connection, s: Settlement)
    requires Accounted(c) && c.phase == Open
    ensures Accounted(c.(nextId := c.nextId + 1, settled := c.settled + [(c.nextId, s)]))
    ensures Accounted(c.(nextId := c.nextId + 1, pending := c.pending + [c.nextId]))
  {
    var id := c.nextId;
    var after := c.(nextId := id + 1, settled := c.settled + [(id, s)]);
    SettledMore(c, [(id, s)]);
    assert [(id, s)][0].0 == id;
    assert id !in c.pending && !WasSettled(c, id);
    assert forall x :: WasSettled(after, x) <==> WasSettled(c.(settled := c.settled + [(id, s)]), x);
    forall i, j | 0 <= i < j < |after.settled| ensures after.settled[i].0 != after.settled[j].0 {
      if j == |c.settled| { assert c.settled[i].0 == after.settled[i].0; }
    }
    var waiting := c.(nextId := id + 1, pending := c.pending + [id]);
    assert forall x :: WasSettled(waiting, x) <==> WasSettled(c, x);
  }

  /** Only these fields matter for the account of requests. */
  lemma {:induction false} SameAccount(c: Connection, d: Connection)
    requires Accounted(c) && d.nextId == c.nextId && d.pending == c.pending && d.settled == c.settled
    requires d.phase != Open ==> d.pending == []
    ensures Accounted(d)
  {
    assert forall id :: WasSettled(c, id) <==> WasSettled(d, id);
  }

  lemma {:induction false} FailAccounted(c: Connection)
    requires Accounted(c)
    ensures Accounted(Fail(c))
  {
    if c.phase == Open {
      RejectionAccounted(c);
      SameAccount(RejectPending(c), Fail(c));
    }
  }

  lemma {:induction false} LineAccounted(c: Connection, line: string, parse: string -> Message, delivered: bool, now: int)
    requires Accounted(c)
    ensures Accounted(ConsumeLine(c, line, parse, delivered, now))
  {
    hide ByteLength, Prune, WithoutId, HasId, WithoutPending;
    var d := c.(lines := c.lines + [line]);
    SameAccount(c, d);
    FailAccounted(d);
    if line != "" && parse(line).Response? {
      var id, answer := parse(line).id, parse(line).answer;
      if id.Number? && id.n >= 0 && id.n in c.pending {
        OneSettled(d, id.n, Answered(answer));
      } else {
        var pruned := d.(ignored := Prune(d.ignored, now), clock := Max(d.clock, now));
        SameAccount(d, pruned);
        FailAccounted(pruned);
        if id.Number? && id.n >= 0 {
          SameAccount(d, pruned.(ignored := WithoutId(pruned.ignored, id.n), swallowed := c.swallowed + {id.n}));
        }
      }
    }
  }

  lemma {:induction false} PumpAccounted(c: Connection, parse: string -> Message, delivers: nat -> bool, now: int, k: nat)
    requires Accounted(c)
    ensures Accounted(Pump(c, parse, delivers, now, k))
    decreases |c.buffer|
  {
    hide ConsumeLine, Accounted, WithoutCR, IndexOf;
    var newline := IndexOf(c.buffer, '\n', 0);
    if newline < |c.buffer| {
      var line, rest := WithoutCR(c.buffer[..newline]), c.(buffer := c.buffer[newline + 1..]);
      BufferAccounted(c, rest.buffer);
      ConsumeKeepsBuffer(rest, line, parse, delivers(k), now);
      LineAccounted(rest, line, parse, delivers(k), now);
      var after := ConsumeLine(rest, line, parse, delivers(k), now);
      if after.phase == Open {
        PumpAccounted(after, parse, delivers, now, k + 1);
      }
    }
  }

  lemma {:induction false} BufferAccounted(c: Connection, buffer: string)
    requires Accounted(c)
    ensures Accounted(c.(buffer := buffer))
  {
    SameAccount(c, c.(buffer := buffer));
  }

  lemma {:induction false} StepAccounted(c: Connection, input: Input, parse: string -> Message)
    requires Accounted(c)
    ensures Accounted(Step(c, input, parse))
  {
    hide Pump, ByteLength, Prune, WithoutPending;
    RejectionAccounted(c);
    FailAccounted(c);
    match input
    case Data(chunk, delivers, now) =>
      var d := c.(buffer := c.buffer + chunk);
      BufferAccounted(c, d.buffer);
      FailAccounted(d);
      PumpAccounted(d, parse, delivers, now, 0);
    case End(tail) =>
      BufferAccounted(c, c.buffer + tail);
      FailAccounted(c.(buffer := c.buffer + tail));
    case ProcessClosed =>
      SameAccount(if c.phase == Open then RejectPending(c) else c, Step(c, input, parse));
    case Request(aborted, writable, now) =>
      if c.phase == Open {
        OneIssued(c, if aborted then Aborted else WriteFailed);
        if aborted {
          SameAccount(c.(nextId := c.nextId + 1, settled := c.settled + [(c.nextId, Aborted)]), Step(c, input, parse));
        }
      }
    case Abort(id, now) =>
      if id in c.pending {
        OneSettled(c, id, Aborted);
        SameAccount(c.(pending := WithoutPending(c.pending, id), settled := c.settled + [(id, Aborted)]), Step(c, input, parse));
      }
    case Close =>
      SameAccount(if c.phase == Open then RejectPending(c) else c, Step(c, input, parse));
    case _ =>
  }

  /** Request settlement: every run keeps the account. */
  lemma {:induction false} EveryRequestSettlesOnce(inputs: seq<Input>, parse: string -> Message)
    ensures Accounted(Run(inputs, parse))
  {
    if inputs != [] {
      EveryRequestSettlesOnce(inputs[..|inputs| - 1], parse);
      hide Step, Accounted;
      StepAccounted(Run(inputs[..|inputs| - 1], parse), inputs[|inputs| - 1], parse);
    }
  }

  // ----- each settlement has its own cause --------------------------------

  /** Why one step may settle `id` with `s`. */
  ghost predicate Caused(before: Connection, after: Connection, input: Input, parse: string -> Message, id: nat, s: Settlement) {
    match s
    case Answered(answer) =>
      && id in before.pending && input.Data? && |before.lines| <= |after.lines|
      && exists k :: |before.lines| <= k < |after.lines| && parse(after.lines[k]) == Response(Number(id), answer)
    case Aborted => (input.Abort? && input.id == id && id in before.pending) || (input.Request? && input.aborted && id == before.nextId)
    case WriteFailed => input.Request? && !input.writable && id == before.nextId
    case ConnectionFailed => before.phase == Open && after.phase != Open && id in before.pending
  }

  /** From `base` on, everything settled so far was pending there and has a cause in the lines since. */
  ghost predicate Explained(base: Connection, c: Connection, parse: string -> Message) {
    && base.lines <= c.lines && base.settled <= c.settled
    && (forall id <- c.pending :: id in base.pending)
    && (forall i | |base.settled| <= i < |c.settled| ::
          var (id, s) := c.settled[i];
          && id in base.pending
          && ((s == ConnectionFailed && c.phase != Open)
              || (s.Answered? && exists k :: |base.lines| <= k < |c.lines| && parse(c.lines[k]) == Response(Number(id), s.answer))))
  }

  lemma {:induction false} FailExplained(base: Connection, c: Connection, parse: string -> Message)
    requires Explained(base, c, parse)
    ensures Explained(base, Fail(c), parse)
  {
    var after := Fail(c);
    forall i | |c.settled| <= i < |after.settled| ensures after.settled[i].0 in base.pending {
      assert c.pending[i - |c.settled|] in c.pending;
    }
  }

  lemma {:induction false} PendingSubset(pending: seq<nat>, id: nat)
    ensures forall x <- WithoutPending(pending, id) :: x in pending
  {
    if pending != [] {
      PendingSubset(pending[1..], id);
    }
  }

  lemma {:induction false} LineExplained(base: Connection, c: Connection, line: string, parse: string -> Message, delivered: bool, now: int)
    requires Explained(base, c, parse)
    ensures Explained(base, ConsumeLine(c, line, parse, delivered, now), parse)
  {
    hide ByteLength, Prune, WithoutId, HasId, WithoutPending;
    var d := c.(lines := c.lines + [line]);
    forall i | |base.settled| <= i < |d.settled| && d.settled[i].1.Answered?
      ensures exists k :: |base.lines| <= k < |d.lines| && parse(d.lines[k]) == Response(Number(d.settled[i].0), d.settled[i].1.answer)
    {
      var k :| |base.lines| <= k < |c.lines| && parse(c.lines[k]) == Response(Number(c.settled[i].0), c.settled[i].1.answer);
      assert d.lines[k] == c.lines[k];
    }
    assert Explained(base, d, parse);
    FailExplained(base, d, parse);
    if line != "" && parse(line).Response? {
      var id, answer := parse(line).id, parse(line).answer;
      if id.Number? && id.n >= 0 && id.n in c.pending {
        PendingSubset(c.pending, id.n);
        assert d.lines[|c.lines|] == line;
      } else {
        var pruned := d.(ignored := Prune(d.ignored, now), clock := Max(d.clock, now));
        FailExplained(base, pruned, parse);
      }
    }
  }

  lemma {:induction false} PumpExplained(base: Connection, c: Connection, parse: string -> Message, delivers: nat -> bool, now: int, k: nat)
    requires Explained(base, c, parse)
    ensures Explained(base, Pump(c, parse, delivers, now, k), parse)
    decreases |c.buffer|
  {
    hide ConsumeLine, WithoutCR, IndexOf;
    var newline := IndexOf(c.buffer, '\n', 0);
    if newline < |c.buffer| {
      var line, rest := WithoutCR(c.buffer[..newline]), c.(buffer := c.buffer[newline + 1..]);
      assert Explained(base, rest, parse);
      hide Explained;
      ConsumeKeepsBuffer(rest, line, parse, delivers(k), now);
      LineExplained(base, rest, line, parse, delivers(k), now);
      var after := ConsumeLine(rest, line, parse, delivers(k), now);
      if after.phase == Open {
        PumpExplained(base, after, parse, delivers, now, k + 1);
      }
    }
  }

  /** A step only adds settlements, and each one it adds is its request's own. */
  lemma {:induction false} SettledByItsOwnCause(c: Connection, input: Input, parse: string -> Message, i: nat)
    requires Accounted(c) && |c.settled| <= i < |Step(c, input, parse).settled|
    ensures var after := Step(c, input, parse);
            Caused(c, after, input, parse, after.settled[i].0, after.settled[i].1)
  {
    hide ByteLength, Prune, WithoutPending, Pump;
    match input
    case Data(chunk, delivers, now) =>
      var d := c.(buffer := c.buffer + chunk);
      assert Explained(c, d, parse);
      FailExplained(c, d, parse);
      PumpExplained(c, d, parse, delivers, now, 0);
      assert c.phase == Open;
    case _ =>
      if i - |c.settled| < |c.pending| {
        assert c.pending[i - |c.settled|] in c.pending;
      }
  }

  /** What was settled stays as it was settled. */
  lemma {:induction false} SettlementsStand(c: Connection, input: Input, parse: string -> Message)
    ensures c.settled <= Step(c, input, parse).settled
  {
    hide ByteLength, Prune, WithoutPending, Pump;
    match input
    case Data(chunk, delivers, now) =>
      var d := c.(buffer := c.buffer + chunk);
      assert Explained(c, d, parse);
      PumpExplained(c, d, parse, delivers, now, 0);
    case _ =>
  }
}
