/**
 The tracker of one Codex turn, bound to the session's event dispatcher.  Each event
 refines the corresponding step of `TurnAssembly`.
 */
module TurnTracker {
  import opened Wrappers
  import opened TurnAssembly
  import SessionDelivery
  import SessionEvents

  class CodexTurnTracker {
    var items: seq<Item>
    var itemBytes: nat
    var messages: map<string, Message>
    var messageBytes: nat
    var completedIds: seq<string>
    var usage: Option<string>
    var settled: bool
    var outcome: Outcome
    var interaction: bool
    var failure: Option<Cause>

    ghost function View(): Tracker reads this {
      Tracker(items, itemBytes, messages, messageBytes, completedIds, usage, settled, outcome, interaction, failure)
    }

    constructor ()
      ensures View() == START
    {
      items, itemBytes, messages, messageBytes, completedIds := [], 0, map[], 0, [];
      usage, settled, outcome, interaction, failure := None, false, Pending, false, None;
    }

    method RejectFailure(cause: Cause)
      modifies this`failure
      ensures View() == Fail(old(View()), cause)
    {
      if failure.None? {
        failure := Some(cause);
      }
    }

    /** False when the item exceeds a limit, which then changes nothing. */
    method AddItem(item: Item) returns (ok: bool)
      modifies this`items, this`itemBytes
      ensures ok <==> TurnAssembly.AddItem(old(View()), item).Some?
      ensures View() == if ok then TurnAssembly.AddItem(old(View()), item).value else old(View())
    {
      if |items| >= MAX_ITEMS || item.bytes.None? {
        return false;
      }
      var bytes := item.bytes.value;
      if bytes > MAX_ITEM_BYTES || itemBytes + bytes > MAX_ITEMS_BYTES {
        return false;
      }
      itemBytes := itemBytes + bytes;
      items := items + [item];
      return true;
    }

    method AddMessageDelta(id: string, delta: string, bytes: nat) returns (ok: bool)
      modifies this`messages, this`messageBytes
      ensures ok <==> AddDelta(old(View()), id, delta, bytes).Some?
      ensures View() == if ok then AddDelta(old(View()), id, delta, bytes).value else old(View())
    {
      var state := if id in messages then messages[id] else Message("", 0, None);
      if |messages| >= MAX_ITEMS && id !in messages {
        return false;
      }
      if bytes > MAX_ITEM_BYTES || state.bytes + bytes > MAX_ITEM_BYTES || messageBytes + bytes > MAX_ITEMS_BYTES {
        return false;
      }
      messages := messages[id := state.(text := state.text + delta, bytes := state.bytes + bytes)];
      messageBytes := messageBytes + bytes;
      return true;
    }

    method CompleteAgentMessage(item: Item)
      modifies this`messages, this`completedIds
      ensures View() == CompleteMessage(old(View()), item)
    {
      if !item.isMessage || item.id.None? {
        return;
      }
      var id := item.id.value;
      var state := if id in messages then messages[id] else Message("", 0, None);
      var text := if item.text.Some? then item.text else if |state.text| == 0 then None else Some(state.text);
      messages := messages[id := if text.None? then state else state.(completed := text)];
      completedIds := completedIds + [id];
    }

    method SelectAgentMessage(completed: seq<Item>) returns (text: Option<string>)
      modifies this`messages, this`completedIds
      ensures View() == CompleteMessages(old(View()), completed)
      ensures text == LastText(completedIds, messages)
    {
      for i := 0 to |completed|
        invariant View() == CompleteMessages(old(View()), completed[..i])
      {
        assert completed[..i + 1][..i] == completed[..i];
        CompleteAgentMessage(completed[i]);
      }
      assert completed[..|completed|] == completed;
      var n := |completedIds|;
      assert completedIds[..n] == completedIds;
      while n > 0
        invariant 0 <= n <= |completedIds|
        invariant LastText(completedIds, messages) == LastText(completedIds[..n], messages)
      {
        n := n - 1;
        assert completedIds[..n + 1][..n] == completedIds[..n];
        var id := completedIds[n];
        if id in messages && messages[id].completed.Some? {
          return messages[id].completed;
        }
      }
      return None;
    }

    /** The items of the completed turn that are not there yet; false at the first that exceeds a limit. */
    method AddMissingItems(completed: seq<Item>) returns (ok: bool)
      modifies this`items, this`itemBytes
      ensures (View(), ok) == AddMissing(old(View()), completed)
    {
      assert completed[0..] == completed;
      for i := 0 to |completed|
        invariant AddMissing(old(View()), completed) == AddMissing(View(), completed[i..])
        invariant usage == old(usage) && settled == old(settled)
      {
        assert completed[i..][1..] == completed[i + 1..];
        if !(exists j | 0 <= j < |items| :: items[j].id == completed[i].id) {
          var added := AddItem(completed[i]);
          if !added {
            return false;
          }
        }
      }
      return true;
    }

    method OnMessage(s: Signal)
      modifies this
      ensures View() == Step(old(View()), s)
    {
      hide LastText, CompleteMessages, CompleteMessage, TurnAssembly.AddItem, AddDelta, AddMissing;
      if settled {
        return;
      }
      match s
      case Request(isInteraction, fails) =>
        if fails {
          RejectFailure(Thrown);
        } else if isInteraction {
          interaction := true;
        } else {
          RejectFailure(UnsupportedRequest);
        }
      case Started(fails) =>
        if fails {
          RejectFailure(Thrown);
        }
      case Completed(item, fails) =>
        var added := AddItem(item);
        if !added {
          RejectFailure(Limit);
        } else if fails {
          RejectFailure(Thrown);
        } else {
          CompleteAgentMessage(item);
        }
      case Delta(id, delta, bytes, fails) =>
        var added := AddMessageDelta(id, delta, bytes);
        if !added {
          RejectFailure(Limit);
        } else if fails {
          RejectFailure(Thrown);
        }
      case Usage(u) => usage := Some(u);
      case Interaction => interaction := true;
      case TurnCompleted(turn, final) =>
        settled := true;
        var within := AddMissingItems(final);
        if within {
          var text := SelectAgentMessage(final);
          outcome := Resolved(turn, items, usage, text);
        } else {
          RejectFailure(Limit);
        }
      case Unknown =>
    }

    method Dispose()
      modifies this
      ensures View() == TurnAssembly.Dispose(old(View()))
    {
      if !settled {
        settled := true;
        outcome := EndedEarly;
      }
    }
  }

  // ----- a turn does not depend on when its id becomes known ----------------

  function Bodies(events: seq<SessionEvents.Event<Signal>>): seq<Signal> {
    seq(|events|, i requires 0 <= i < |events| => events[i].body)
  }

  /** The tracker of the turn bound to the `at`-th `begin` of a session. */
  function TrackerOf(ops: seq<SessionEvents.Op<Signal>>, thread: string, turn: string): Tracker {
    Assemble(Bodies(SessionEvents.Delivered(SessionEvents.Run(ops).log, SessionEvents.TurnKey(thread, turn))))
  }

  /**
   The tracker of a turn is what the turn's own events assemble to, and so two runs that
   differ only in when turns are bound complete the turn alike.
   */
  lemma {:induction false} TurnsAreRaceFree(ops: seq<SessionEvents.Op<Signal>>, others: seq<SessionEvents.Op<Signal>>,
                                            at: nat, turn: string)
    requires SessionDelivery.WithoutBinds(ops) == SessionDelivery.WithoutBinds(others)
    requires SessionDelivery.Clean(ops) && SessionDelivery.Clean(others)
    requires SessionDelivery.BoundTo(ops, at, turn) && SessionDelivery.BoundTo(others, at, turn)
    ensures var thread := SessionEvents.Run(ops).registrations[at].thread;
            TrackerOf(ops, thread, turn) == TrackerOf(others, thread, turn) ==
            Assemble(Bodies(SessionEvents.Correlated(SessionEvents.Window(ops, at), thread, turn)))
  {
    SessionDelivery.ListenerSeesItsTurn(ops, at, turn);
    SessionDelivery.BindTimeIsInvisible(ops, others, at, turn);
  }
}
