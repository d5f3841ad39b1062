/**
 Assembly of a Codex turn from its events: completed items, streamed agent messages,
 token usage, and the turn that is reported when it completes.
 */
module TurnAssembly {
  import opened Wrappers

  /** `text` is what the item says as an agent message, `bytes` its size as JSON if it has one. */
  datatype Item = Item(id: Option<string>, isMessage: bool, text: Option<string>, bytes: Option<nat>, rest: string)

  datatype Message = Message(text: string, bytes: nat, completed: Option<string>)

  /** What the listener of the turn can be told; `fails` is whether the activity reducer or the response throws. */
  datatype Signal = Request(interaction: bool, fails: bool) | Started(fails: bool) | Completed(item: Item, fails: bool)
                  | Delta(id: string, delta: string, bytes: nat, fails: bool) | Usage(usage: string) | Interaction
                  | TurnCompleted(turn: string, items: seq<Item>) | Unknown

  datatype Cause = UnsupportedRequest | Limit | Thrown

  datatype Outcome = Pending | EndedEarly
                   | Resolved(turn: string, items: seq<Item>, usage: Option<string>, text: Option<string>)

  /** `interaction` and `failure` say whether those two promises are rejected. */
  datatype Tracker = Tracker(items: seq<Item>, itemBytes: nat, messages: map<string, Message>, messageBytes: nat,
                             completedIds: seq<string>, usage: Option<string>, settled: bool, outcome: Outcome,
                             interaction: bool, failure: Option<Cause>)

  const MAX_ITEMS := 1024
  const MAX_ITEM_BYTES := 1000000
  const MAX_ITEMS_BYTES := 8000000

  const START := Tracker([], 0, map[], 0, [], None, false, Pending, false, None)

  /** A promise keeps its first rejection. */
  function Fail(t: Tracker, cause: Cause): Tracker {
    if t.failure.Some? then t else t.(failure := Some(cause))
  }

  function MessageOf(t: Tracker, id: string): Message {
    if id in t.messages then t.messages[id] else Message("", 0, None)
  }

  function AddItem(t: Tracker, item: Item): Option<Tracker> {
    if |t.items| >= MAX_ITEMS || item.bytes.None? then None
    else if item.bytes.value > MAX_ITEM_BYTES || t.itemBytes + item.bytes.value > MAX_ITEMS_BYTES then None
    else Some(t.(itemBytes := t.itemBytes + item.bytes.value, items := t.items + [item]))
  }

  function AddDelta(t: Tracker, id: string, delta: string, bytes: nat): Option<Tracker> {
    var m := MessageOf(t, id);
    if |t.messages| >= MAX_ITEMS && id !in t.messages then None
    else if bytes > MAX_ITEM_BYTES || m.bytes + bytes > MAX_ITEM_BYTES || t.messageBytes + bytes > MAX_ITEMS_BYTES then None
    else Some(t.(messages := t.messages[id := m.(text := m.text + delta, bytes := m.bytes + bytes)],
                 messageBytes := t.messageBytes + bytes))
  }

  /** The text an item completes a message with: its own, or what was streamed. */
  function CompletedText(item: Item, streamed: string): Option<string> {
    if item.text.Some? then item.text else if streamed == "" then None else Some(streamed)
  }

  predicate IsMessage(item: Item) {
    item.isMessage && item.id.Some?
  }

  function CompleteMessage(t: Tracker, item: Item): Tracker {
    if !IsMessage(item) then t
    else
      var m := MessageOf(t, item.id.value);
      var text := CompletedText(item, m.text);
      t.(messages := t.messages[item.id.value := if text.None? then m else m.(completed := text)],
         completedIds := t.completedIds + [item.id.value])
  }

  function CompleteMessages(t: Tracker, items: seq<Item>): Tracker {
    if items == [] then t
    else CompleteMessage(CompleteMessages(t, items[..|items| - 1]), items[|items| - 1])
  }

  predicate HasId(items: seq<Item>, id: Option<string>) {
    exists i | 0 <= i < |items| :: items[i].id == id
  }

  /** Adds the items that are not there yet, up to the first that exceeds a limit. */
  function AddMissing(t: Tracker, items: seq<Item>): (Tracker, bool)
    decreases |items|
  {
    if items == [] then (t, true)
    else if HasId(t.items, items[0].id) then AddMissing(t, items[1..])
    else match AddItem(t, items[0])
      case None => (t, false)
      case Some(added) => AddMissing(added, items[1..])
  }

  /** The completed text of the last message that has one. */
  function LastText(ids: seq<string>, messages: map<string, Message>): Option<string> {
    if ids == [] then None
    else
      var id := ids[|ids| - 1];
      if id in messages && messages[id].completed.Some? then messages[id].completed
      else LastText(ids[..|ids| - 1], messages)
  }

  function Finish(t: Tracker, turn: string, items: seq<Item>): Tracker {
    var (filled, within) := AddMissing(t.(settled := true), items);
    if !within then Fail(filled, Limit)
    else
      var said := CompleteMessages(filled, items);
      said.(outcome := Resolved(turn, said.items, said.usage, LastText(said.completedIds, said.messages)))
  }

  function Step(t: Tracker, s: Signal): Tracker {
    if t.settled then t
    else match s
      case Request(interaction, fails) =>
        if fails then Fail(t, Thrown)
        else if interaction then t.(interaction := true) else Fail(t, UnsupportedRequest)
      case Started(fails) => if fails then Fail(t, Thrown) else t
      case Completed(item, fails) =>
        (match AddItem(t, item)
         case None => Fail(t, Limit)
         case Some(added) => if fails then Fail(added, Thrown) else CompleteMessage(added, item))
      case Delta(id, delta, bytes, fails) =>
        (match AddDelta(t, id, delta, bytes)
         case None => Fail(t, Limit)
         case Some(added) => if fails then Fail(added, Thrown) else added)
      case Usage(usage) => t.(usage := Some(usage))
      case Interaction => t.(interaction := true)
      case TurnCompleted(turn, items) => Finish(t, turn, items)
      case Unknown => t
  }

  function Dispose(t: Tracker): Tracker {
    if t.settled then t else t.(settled := true, outcome := EndedEarly)
  }

  function Assemble(signals: seq<Signal>): Tracker {
    if signals == [] then START else Step(Assemble(signals[..|signals| - 1]), signals[|signals| - 1])
  }

  // ----- settling ---------------------------------------------------------

  /** Nothing that arrives after the turn settled changes anything. */
  lemma {:induction false} SettledIsFinal(signals: seq<Signal>, later: seq<Signal>)
    requires Assemble(signals).settled
    ensures Assemble(signals + later) == Assemble(signals) == Dispose(Assemble(signals))
  {
    if later == [] {
      assert signals + later == signals;
    } else {
      SettledIsFinal(signals, later[..|later| - 1]);
      var all := signals + later;
      assert all[..|all| - 1] == signals + later[..|later| - 1];
    }
  }

  // ----- limits -----------------------------------------------------------

  function TotalBytes(items: seq<Item>): nat {
    if items == [] then 0
    else TotalBytes(items[..|items| - 1]) + if items[|items| - 1].bytes.Some? then items[|items| - 1].bytes.value else 0
  }

  ghost function Ids(items: seq<Item>): set<string> {
    if items == [] then {}
    else if items[|items| - 1].id.Some? then Ids(items[..|items| - 1]) + {items[|items| - 1].id.value}
    else Ids(items[..|items| - 1])
  }

  ghost predicate WithinLimits(t: Tracker) {
    && |t.items| <= MAX_ITEMS && t.itemBytes == TotalBytes(t.items) <= MAX_ITEMS_BYTES
    && (forall i | 0 <= i < |t.items| :: t.items[i].bytes.Some? && t.items[i].bytes.value <= MAX_ITEM_BYTES)
    && t.messageBytes <= MAX_ITEMS_BYTES
    && (forall id <- t.messages :: t.messages[id].bytes <= MAX_ITEM_BYTES)
  }

  /** Every message was either streamed, and those are at most `MAX_ITEMS`, or is an item. */
  ghost predicate Explained(t: Tracker, streamed: set<string>) {
    |streamed| <= MAX_ITEMS && streamed <= t.messages.Keys && t.messages.Keys <= streamed + Ids(t.items)
  }

  lemma {:induction false} IdsAreFew(items: seq<Item>)
    ensures |Ids(items)| <= |items|
    ensures forall id :: id in Ids(items) <==> HasId(items, Some(id))
  {
    if items != [] {
      var n := |items| - 1;
      IdsAreFew(items[..n]);
      assert items == items[..n] + [items[n]];
      forall id ensures HasId(items, id) <==> HasId(items[..n], id) || items[n].id == id {
        if HasId(items[..n], id) {
          var i :| 0 <= i < n && items[..n][i].id == id;
          assert items[i].id == id;
        }
        if HasId(items, id) && items[n].id != id {
          var i :| 0 <= i < |items| && items[i].id == id;
          assert items[..n][i].id == id;
        }
      }
    }
  }

  ghost predicate Bounded(t: Tracker, streamed: set<string>) {
    WithinLimits(t) && Explained(t, streamed)
  }

  lemma {:induction false} AddItemBounded(t: Tracker, item: Item, streamed: set<string>)
    requires Bounded(t, streamed) && AddItem(t, item).Some?
    ensures Bounded(AddItem(t, item).value, streamed)
    ensures item.id.Some? ==> item.id.value in Ids(AddItem(t, item).value.items)
  {
  }

  lemma {:induction false} AddMissingBounded(t: Tracker, items: seq<Item>, streamed: set<string>)
    requires Bounded(t, streamed)
    ensures Bounded(AddMissing(t, items).0, streamed)
    ensures Ids(t.items) <= Ids(AddMissing(t, items).0.items)
    ensures AddMissing(t, items).1 ==>
              forall i | 0 <= i < |items| :: items[i].id.Some? ==> items[i].id.value in Ids(AddMissing(t, items).0.items)
    decreases |items|
  {
    hide Bounded, AddItem;
    if items != [] {
      var rest := items[1..];
      IdsAreFew(t.items);
      assert forall i | 0 < i < |items| :: items[i] == rest[i - 1];
      if HasId(t.items, items[0].id) {
        AddMissingBounded(t, rest, streamed);
      } else if AddItem(t, items[0]).Some? {
        AddItemBounded(t, items[0], streamed);
        AddMissingBounded(AddItem(t, items[0]).value, rest, streamed);
        AddItemGrows(t, items[0]);
      }
    }
  }

  lemma {:induction false} AddItemGrows(t: Tracker, item: Item)
    requires AddItem(t, item).Some?
    ensures Ids(t.items) <= Ids(AddItem(t, item).value.items)
  {
  }

  lemma {:induction false} CompleteMessageBounded(t: Tracker, item: Item, streamed: set<string>)
    requires Bounded(t, streamed) && (item.id.Some? ==> item.id.value in Ids(t.items))
    ensures Bounded(CompleteMessage(t, item), streamed) && CompleteMessage(t, item).items == t.items
  {
  }

  lemma {:induction false} CompleteMessagesBounded(t: Tracker, items: seq<Item>, streamed: set<string>)
    requires Bounded(t, streamed)
    requires forall i | 0 <= i < |items| :: items[i].id.Some? ==> items[i].id.value in Ids(t.items)
    ensures Bounded(CompleteMessages(t, items), streamed) && CompleteMessages(t, items).items == t.items
  {
    hide Bounded, CompleteMessage;
    if items != [] {
      CompleteMessagesBounded(t, items[..|items| - 1], streamed);
      CompleteMessageBounded(CompleteMessages(t, items[..|items| - 1]), items[|items| - 1], streamed);
    }
  }

  lemma {:induction false} AddDeltaBounded(t: Tracker, id: string, delta: string, bytes: nat, streamed: set<string>)
    returns (now: set<string>)
    requires Bounded(t, streamed) && AddDelta(t, id, delta, bytes).Some?
    ensures Bounded(AddDelta(t, id, delta, bytes).value, now)
  {
    if id in t.messages {
      now := streamed;
    } else {
      now := streamed + {id};
      SubsetSize(streamed, t.messages.Keys);
      assert |t.messages.Keys| == |t.messages|;
    }
  }

  lemma {:induction false} SameContents(t: Tracker, u: Tracker, streamed: set<string>)
    requires Bounded(t, streamed) && t.items == u.items && t.itemBytes == u.itemBytes
    requires t.messages == u.messages && t.messageBytes == u.messageBytes
    ensures Bounded(u, streamed)
  {
  }

  lemma {:induction false} StepBounded(t: Tracker, s: Signal, streamed: set<string>) returns (now: set<string>)
    requires Bounded(t, streamed)
    ensures Bounded(Step(t, s), now)
  {
    hide AddItem, AddDelta, CompleteMessage, AddMissing, CompleteMessages, LastText, Bounded;
    now := streamed;
    if t.settled {
      assert Step(t, s) == t;
      return;
    }
    var before := t;
    match s {
    case Completed(item, fails) =>
      if AddItem(t, item).Some? {
        AddItemBounded(t, item, streamed);
        before := AddItem(t, item).value;
        if !fails { CompleteMessageBounded(before, item, streamed); before := CompleteMessage(before, item); }
      }
    case Delta(id, delta, bytes, fails) =>
      if AddDelta(t, id, delta, bytes).Some? {
        now := AddDeltaBounded(t, id, delta, bytes, streamed);
        before := AddDelta(t, id, delta, bytes).value;
      }
    case TurnCompleted(turn, items) =>
      SameContents(t, t.(settled := true), streamed);
      AddMissingBounded(t.(settled := true), items, streamed);
      var filled := AddMissing(t.(settled := true), items);
      before := filled.0;
      if filled.1 { CompleteMessagesBounded(filled.0, items, streamed); before := CompleteMessages(filled.0, items); }
    case _ =>
    }
    SameContents(before, Step(t, s), now);
  }

  lemma {:induction false} AssembledIsBounded(signals: seq<Signal>) returns (streamed: set<string>)
    ensures Bounded(Assemble(signals), streamed)
  {
    if signals == [] {
      streamed := {};
      assert Bounded(START, {});
    } else {
      hide Bounded, Step;
      var earlier := AssembledIsBounded(signals[..|signals| - 1]);
      streamed := StepBounded(Assemble(signals[..|signals| - 1]), signals[|signals| - 1], earlier);
    }
  }

  /** Whatever arrives, a tracker holds no more than its limits say, and counts its item bytes correctly. */
  lemma {:induction false} LimitsHold(signals: seq<Signal>)
    ensures var t := Assemble(signals);
            && |t.items| <= 1024 && t.itemBytes == TotalBytes(t.items) <= 8000000
            && (forall i | 0 <= i < |t.items| :: t.items[i].bytes.Some? && t.items[i].bytes.value <= 1000000)
            && t.messageBytes <= 8000000
            && (forall id <- t.messages :: t.messages[id].bytes <= 1000000)
            && |t.messages| <= 2048
  {
    hide Assemble, TotalBytes, Ids;
    var t := Assemble(signals);
    var streamed := AssembledIsBounded(signals);
    IdsAreFew(t.items);
    SubsetSize(t.messages.Keys, streamed + Ids(t.items));
    assert |t.messages.Keys| == |t.messages|;
  }

  // ----- what a turn amounts to -------------------------------------------

  function CompletedItems(signals: seq<Signal>): seq<Item> {
    if signals == [] then []
    else
      var before, last := CompletedItems(signals[..|signals| - 1]), signals[|signals| - 1];
      if last.Completed? then before + [last.item] else before
  }

  /** Everything streamed to one message, joined. */
  function Streamed(signals: seq<Signal>, id: string): string {
    if signals == [] then ""
    else
      var before, last := Streamed(signals[..|signals| - 1], id), signals[|signals| - 1];
      if last.Delta? && last.id == id then before + last.delta else before
  }

  function LastUsage(signals: seq<Signal>): Option<string> {
    if signals == [] then None
    else if signals[|signals| - 1].Usage? then Some(signals[|signals| - 1].usage)
    else LastUsage(signals[..|signals| - 1])
  }

  /** What the message was last completed with; a completion without any text changes nothing. */
  function Said(signals: seq<Signal>, id: string): Option<string> {
    if signals == [] then None
    else
      var earlier, last := signals[..|signals| - 1], signals[|signals| - 1];
      if last.Completed? && last.item.isMessage && last.item.id == Some(id) && last.item.text.Some? then last.item.text
      else if last.Completed? && last.item.isMessage && last.item.id == Some(id) && Streamed(earlier, id) != "" then
        Some(Streamed(earlier, id))
      else Said(earlier, id)
  }

  /** The messages in the order they completed. */
  function MessageIds(signals: seq<Signal>): seq<string> {
    if signals == [] then []
    else
      var before, last := MessageIds(signals[..|signals| - 1]), signals[|signals| - 1];
      if last.Completed? && last.item.isMessage && last.item.id.Some? then before + [last.item.id.value] else before
  }

  /** What the last of the messages that said anything has said. */
  function FinalText(ids: seq<string>, signals: seq<Signal>): Option<string> {
    if ids == [] then None
    else if Said(signals, ids[|ids| - 1]).Some? then Said(signals, ids[|ids| - 1])
    else FinalText(ids[..|ids| - 1], signals)
  }

  /** The final items whose id neither a completed item nor an earlier final item has. */
  function Missing(have: seq<Item>, items: seq<Item>): seq<Item> {
    if items == [] then []
    else
      var before, last := items[..|items| - 1], items[|items| - 1];
      if HasId(have, last.id) || HasId(before, last.id) then Missing(have, before) else Missing(have, before) + [last]
  }

  function AsCompletions(items: seq<Item>): seq<Signal> {
    seq(|items|, i requires 0 <= i < |items| => Completed(items[i], false))
  }

  // ----- assembly is faithful ---------------------------------------------

  ghost predicate MessagesMatch(t: Tracker, signals: seq<Signal>) {
    && t.completedIds == MessageIds(signals)
    && (forall id :: MessageOf(t, id).text == Streamed(signals, id))
    && (forall id :: MessageOf(t, id).completed == Said(signals, id))
  }

  ghost predicate Faithful(t: Tracker, signals: seq<Signal>) {
    && t.items == CompletedItems(signals) && t.usage == LastUsage(signals)
    && MessagesMatch(t, signals)
  }

  lemma {:induction false} OneMoreSignal(signals: seq<Signal>, s: Signal)
    ensures CompletedItems(signals + [s]) == if s.Completed? then CompletedItems(signals) + [s.item] else CompletedItems(signals)
    ensures LastUsage(signals + [s]) == if s.Usage? then Some(s.usage) else LastUsage(signals)
    ensures MessageIds(signals + [s]) ==
            if s.Completed? && IsMessage(s.item) then MessageIds(signals) + [s.item.id.value] else MessageIds(signals)
    ensures forall id :: Streamed(signals + [s], id) ==
              if s.Delta? && s.id == id then Streamed(signals, id) + s.delta else Streamed(signals, id)
    ensures forall id :: Said(signals + [s], id) ==
              if s.Completed? && s.item.isMessage && s.item.id == Some(id) &&
                 CompletedText(s.item, Streamed(signals, id)).Some?
              then CompletedText(s.item, Streamed(signals, id)) else Said(signals, id)
  {
    assert (signals + [s])[..|signals|] == signals;
  }

  lemma {:induction false} CompletingMatches(t: Tracker, signals: seq<Signal>, item: Item, fails: bool)
    requires MessagesMatch(t, signals)
    ensures MessagesMatch(CompleteMessage(t, item), signals + [Completed(item, fails)])
  {
    hide MessageIds, Said, Streamed, LastUsage, CompletedItems;
    OneMoreSignal(signals, Completed(item, fails));
  }

  lemma {:induction false} StreamingMatches(t: Tracker, signals: seq<Signal>, s: Signal)
    requires MessagesMatch(t, signals) && s.Delta? && AddDelta(t, s.id, s.delta, s.bytes).Some?
    ensures MessagesMatch(AddDelta(t, s.id, s.delta, s.bytes).value, signals + [s])
  {
    hide MessageIds, Said, Streamed, LastUsage, CompletedItems;
    OneMoreSignal(signals, s);
  }

  lemma {:induction false} OthersMatch(t: Tracker, u: Tracker, signals: seq<Signal>, s: Signal)
    requires MessagesMatch(t, signals) && !s.Completed? && !s.Delta?
    requires u.messages == t.messages && u.completedIds == t.completedIds
    ensures MessagesMatch(u, signals + [s])
  {
    hide MessageIds, Said, Streamed, LastUsage, CompletedItems, CompletedText;
    OneMoreSignal(signals, s);
    assert forall id :: MessageOf(u, id) == MessageOf(t, id);
  }

  lemma {:induction false} AddedMatches(t: Tracker, item: Item, signals: seq<Signal>)
    requires MessagesMatch(t, signals) && AddItem(t, item).Some?
    ensures MessagesMatch(AddItem(t, item).value, signals)
  {
    assert forall id :: MessageOf(AddItem(t, item).value, id) == MessageOf(t, id);
  }

  lemma {:induction false} StepFaithful(t: Tracker, signals: seq<Signal>, s: Signal)
    requires Faithful(t, signals) && !t.settled && !Step(t, s).settled && Step(t, s).failure.None?
    ensures Faithful(Step(t, s), signals + [s])
  {
    hide MessagesMatch, MessageIds, Said, Streamed, LastUsage, CompletedItems, CompletedText, Finish;
    OneMoreSignal(signals, s);
    if s.Completed? {
      AddedMatches(t, s.item, signals);
      CompletingMatches(AddItem(t, s.item).value, signals, s.item, s.fails);
    } else if s.Delta? {
      StreamingMatches(t, signals, s);
    } else {
      if s.TurnCompleted? { FinishSettles(t, s.turn, s.items); }
      OthersMatch(t, Step(t, s), signals, s);
    }
  }

  lemma {:induction false} AddMissingSettled(t: Tracker, items: seq<Item>)
    ensures AddMissing(t, items).0.settled == t.settled
    decreases |items|
  {
    if items != [] && HasId(t.items, items[0].id) {
      AddMissingSettled(t, items[1..]);
    } else if items != [] && AddItem(t, items[0]).Some? {
      AddMissingSettled(AddItem(t, items[0]).value, items[1..]);
    }
  }

  lemma {:induction false} CompleteMessagesSettled(t: Tracker, items: seq<Item>)
    ensures CompleteMessages(t, items).settled == t.settled
    ensures CompleteMessages(t, items).items == t.items && CompleteMessages(t, items).usage == t.usage
  {
    if items != [] { CompleteMessagesSettled(t, items[..|items| - 1]); }
  }

  lemma {:induction false} FinishSettles(t: Tracker, turn: string, items: seq<Item>)
    ensures Finish(t, turn, items).settled
  {
    AddMissingSettled(t.(settled := true), items);
    CompleteMessagesSettled(AddMissing(t.(settled := true), items).0, items);
  }

  lemma {:induction false} StepKeepsFlags(t: Tracker, s: Signal)
    ensures t.settled ==> Step(t, s).settled
    ensures !Step(t, s).settled && Step(t, s).failure.None? ==> t.failure.None?
  {
    if s.TurnCompleted? { FinishSettles(t, s.turn, s.items); }
  }

  lemma {:induction false} AssemblyFaithful(signals: seq<Signal>)
    requires !Assemble(signals).settled && Assemble(signals).failure.None?
    ensures Faithful(Assemble(signals), signals)
  {
    if signals != [] {
      hide Step, MessageIds, Said, Streamed, LastUsage, CompletedItems;
      var earlier, last := signals[..|signals| - 1], signals[|signals| - 1];
      StepKeepsFlags(Assemble(earlier), last);
      AssemblyFaithful(earlier);
      StepFaithful(Assemble(earlier), earlier, last);
      assert earlier + [last] == signals;
    }
  }

  lemma {:induction false} HasIdAppend(a: seq<Item>, b: seq<Item>, id: Option<string>)
    ensures HasId(a + b, id) <==> HasId(a, id) || HasId(b, id)
  {
    if HasId(a, id) {
      var i :| 0 <= i < |a| && a[i].id == id;
      assert (a + b)[i].id == id;
    }
    if HasId(b, id) {
      var i :| 0 <= i < |b| && b[i].id == id;
      assert (a + b)[|a| + i].id == id;
    }
    if HasId(a + b, id) {
      var i :| 0 <= i < |a + b| && (a + b)[i].id == id;
      assert if i < |a| then a[i].id == id else b[i - |a|].id == id;
    }
  }

  /** Filling in leaves every final item's id present, and adds no id twice. */
  lemma {:induction false} MissingFillsIn(have: seq<Item>, items: seq<Item>, id: Option<string>)
    ensures HasId(have + Missing(have, items), id) <==> HasId(have, id) || HasId(items, id)
  {
    hide HasId;
    if items == [] {
      assert have + Missing(have, items) == have + items;
      HasIdAppend(have, items, id);
    } else {
      var before, last := items[..|items| - 1], items[|items| - 1];
      MissingFillsIn(have, before, id);
      assert before + [last] == items;
      HasIdAppend(before, [last], id);
      HasIdOne(last, id);
      if !(HasId(have, last.id) || HasId(before, last.id)) {
        assert have + Missing(have, items) == have + Missing(have, before) + [last];
        HasIdAppend(have + Missing(have, before), [last], id);
      }
    }
  }

  lemma {:induction false} HasIdOne(item: Item, id: Option<string>)
    ensures HasId([item], id) <==> item.id == id
  {
    assert [item][0] == item;
  }

  lemma {:induction false} AddMissingSplit(t: Tracker, items: seq<Item>, last: Item)
    ensures AddMissing(t, items + [last]) ==
            if AddMissing(t, items).1 then AddMissing(AddMissing(t, items).0, [last]) else AddMissing(t, items)
    decreases |items|
  {
    if items == [] {
      assert items + [last] == [last];
    } else {
      assert (items + [last])[1..] == items[1..] + [last];
      if HasId(t.items, items[0].id) {
        AddMissingSplit(t, items[1..], last);
      } else if AddItem(t, items[0]).Some? {
        AddMissingSplit(AddItem(t, items[0]).value, items[1..], last);
      }
    }
  }

  lemma {:induction false} AddMissingOnly(t: Tracker, items: seq<Item>)
    ensures var (u, within) := AddMissing(t, items);
            u.messages == t.messages && u.completedIds == t.completedIds && u.usage == t.usage
    ensures AddMissing(t, items).1 ==> AddMissing(t, items).0.items == t.items + Missing(t.items, items)
  {
    hide HasId;
    if items == [] {
      assert t.items + [] == t.items;
    } else {
      var before, last := items[..|items| - 1], items[|items| - 1];
      AddMissingOnly(t, before);
      AddMissingSplit(t, before, last);
      assert before + [last] == items;
      MissingFillsIn(t.items, before, last.id);
      assert [last][1..] == [];
      if AddMissing(t, before).1 {
        assert t.items + Missing(t.items, before) + [last] == t.items + (Missing(t.items, before) + [last]);
      }
    }
  }

  lemma {:induction false} CompletionsMatch(t: Tracker, signals: seq<Signal>, items: seq<Item>)
    requires MessagesMatch(t, signals)
    ensures MessagesMatch(CompleteMessages(t, items), signals + AsCompletions(items))
  {
    hide MessagesMatch;
    if items == [] {
      assert signals + AsCompletions(items) == signals;
    } else {
      var before, last := items[..|items| - 1], items[|items| - 1];
      CompletionsMatch(t, signals, before);
      CompletingMatches(CompleteMessages(t, before), signals + AsCompletions(before), last, false);
      assert signals + AsCompletions(items) == signals + AsCompletions(before) + [Completed(last, false)];
    }
  }

  lemma {:induction false} LastTextIsFinalText(t: Tracker, ids: seq<string>, signals: seq<Signal>)
    requires forall id :: MessageOf(t, id).completed == Said(signals, id)
    ensures LastText(ids, t.messages) == FinalText(ids, signals)
  {
    hide Said;
    if ids != [] {
      assert MessageOf(t, ids[|ids| - 1]).completed == Said(signals, ids[|ids| - 1]);
      LastTextIsFinalText(t, ids[..|ids| - 1], signals);
    }
  }

  /**
   A turn that completes without a failure reports exactly its completed items followed by
   the final items not among them, the last usage, and what the last message to say anything
   has said, the final items counting as completed last.
   */
  lemma {:induction false} TurnIsFaithful(signals: seq<Signal>, turn: string, items: seq<Item>)
    requires !Assemble(signals).settled && Assemble(signals).failure.None?
    requires Assemble(signals + [TurnCompleted(turn, items)]).failure.None?
    ensures var done, all := CompletedItems(signals), signals + AsCompletions(items);
            Assemble(signals + [TurnCompleted(turn, items)]).outcome ==
              Resolved(turn, done + Missing(done, items), LastUsage(signals), FinalText(MessageIds(all), all))
  {
    hide MessageIds, Said, Streamed, LastUsage, CompletedItems, Missing, AddMissing, CompleteMessages, FinalText, LastText;
    var t := Assemble(signals);
    assert (signals + [TurnCompleted(turn, items)])[..|signals|] == signals;
    AssemblyFaithful(signals);
    var filled := AddMissing(t.(settled := true), items);
    AddMissingOnly(t.(settled := true), items);
    forall id ensures MessageOf(filled.0, id) == MessageOf(t, id) {
    }
    CompletionsMatch(filled.0, signals, items);
    CompleteMessagesSettled(filled.0, items);
    var said := CompleteMessages(filled.0, items);
    LastTextIsFinalText(said, said.completedIds, signals + AsCompletions(items));
  }

  ghost predicate DistinctIds(items: seq<Item>) {
    forall i, j | 0 <= i < j < |items| :: items[i].id != items[j].id
  }

  /** A turn whose completed items have distinct ids reports items with distinct ids. */
  lemma {:induction false} ReportedIdsStayDistinct(have: seq<Item>, items: seq<Item>)
    requires DistinctIds(have)
    ensures DistinctIds(have + Missing(have, items))
  {
    if items == [] {
      assert have + Missing(have, items) == have;
    } else {
      var before, last := items[..|items| - 1], items[|items| - 1];
      ReportedIdsStayDistinct(have, before);
      MissingFillsIn(have, before, last.id);
      var all := have + Missing(have, before);
      if !HasId(all, last.id) {
        assert have + Missing(have, items) == all + [last];
        assert forall i | 0 <= i < |all| :: all[i].id != last.id;
      }
    }
  }
}
