/**
 When the promises of a turn are rejected, said of the signals that arrived.
 */
module TurnFailures {
  import opened Wrappers
  import opened TurnAssembly

  predicate Sized(item: Item) {
    item.bytes.Some? && item.bytes.value <= 1000000
  }

  /** What a turn may hold. */
  predicate Fits(items: seq<Item>) {
    |items| <= 1024 && TotalBytes(items) <= 8000000 && forall i | 0 <= i < |items| :: Sized(items[i])
  }

  /** The ids a message was streamed to or completed under. */
  function Named(signals: seq<Signal>): set<string> {
    if signals == [] then {}
    else
      var before, last := Named(signals[..|signals| - 1]), signals[|signals| - 1];
      if last.Delta? then before + {last.id}
      else if last.Completed? && last.item.isMessage && last.item.id.Some? then before + {last.item.id.value}
      else before
  }

  function BytesTo(signals: seq<Signal>, id: string): nat {
    if signals == [] then 0
    else
      var before, last := BytesTo(signals[..|signals| - 1], id), signals[|signals| - 1];
      if last.Delta? && last.id == id then before + last.bytes else before
  }

  function BytesStreamed(signals: seq<Signal>): nat {
    if signals == [] then 0
    else
      var before, last := BytesStreamed(signals[..|signals| - 1]), signals[|signals| - 1];
      if last.Delta? then before + last.bytes else before
  }

  predicate CanStream(earlier: seq<Signal>, id: string, bytes: nat) {
    && (id in Named(earlier) || |Named(earlier)| < 1024)
    && BytesTo(earlier, id) + bytes <= 1000000 && BytesStreamed(earlier) + bytes <= 8000000
  }

  function Thrown(fails: bool): Option<Cause> {
    if fails then Some(Cause.Thrown) else None
  }

  /** What is wrong with a signal after those that came before it. */
  function Trouble(earlier: seq<Signal>, s: Signal): Option<Cause> {
    match s
    case Request(interaction, fails) => if !fails && !interaction then Some(UnsupportedRequest) else Thrown(fails)
    case Started(fails) => Thrown(fails)
    case Completed(item, fails) => if Fits(CompletedItems(earlier) + [item]) then Thrown(fails) else Some(Limit)
    case Delta(id, delta, bytes, fails) => if CanStream(earlier, id, bytes) then Thrown(fails) else Some(Limit)
    case TurnCompleted(turn, items) =>
      if Fits(CompletedItems(earlier) + Missing(CompletedItems(earlier), items)) then None else Some(Limit)
    case _ => None
  }

  predicate Ended(signals: seq<Signal>) {
    exists i | 0 <= i < |signals| :: signals[i].TurnCompleted?
  }

  /** The signal at `i` still counts, and something is wrong with it. */
  predicate TroubledAt(signals: seq<Signal>, i: nat)
    requires i < |signals|
  {
    !Ended(signals[..i]) && Trouble(signals[..i], signals[i]).Some?
  }

  predicate InteractsAt(signals: seq<Signal>, i: nat)
    requires i < |signals|
  {
    !Ended(signals[..i]) && (signals[i].Interaction? || signals[i] == Request(true, false))
  }

  // ----- the tracker counts what arrived ------------------------------------

  lemma {:induction false} TotalOfOneMore(items: seq<Item>, item: Item)
    ensures TotalBytes(items + [item]) == TotalBytes(items) + if item.bytes.Some? then item.bytes.value else 0
    ensures Fits(items + [item]) <==> |items| < 1024 && Sized(item) && Fits(items) && TotalBytes(items) + item.bytes.value <= 8000000
  {
    assert (items + [item])[..|items|] == items;
    if Fits(items + [item]) {
      assert Sized((items + [item])[|items|]);
      assert forall i | 0 <= i < |items| :: Sized((items + [item])[i]) && items[i] == (items + [item])[i];
    }
  }

  ghost predicate ItemsCounted(t: Tracker) {
    Fits(t.items) && t.itemBytes == TotalBytes(t.items)
  }

  lemma {:induction false} AddsIfFits(t: Tracker, item: Item)
    requires ItemsCounted(t)
    ensures AddItem(t, item).Some? <==> Fits(t.items + [item])
    ensures AddItem(t, item).Some? ==>
              ItemsCounted(AddItem(t, item).value) && AddItem(t, item).value.items == t.items + [item]
  {
    TotalOfOneMore(t.items, item);
  }

  lemma {:induction false} MissingAddsIfFits(t: Tracker, items: seq<Item>)
    requires ItemsCounted(t)
    ensures AddMissing(t, items).1 <==> Fits(t.items + Missing(t.items, items))
    ensures ItemsCounted(AddMissing(t, items).0)
  {
    hide HasId, Fits, ItemsCounted, AddItem;
    if items == [] {
      assert t.items + Missing(t.items, items) == t.items;
      assert Fits(t.items) by { HoldsFits(t); }
    } else {
      var before, last := items[..|items| - 1], items[|items| - 1];
      assert before + [last] == items;
      MissingAddsIfFits(t, before);
      AddMissingSplit(t, before, last);
      AddMissingOnly(t, before);
      MissingFillsIn(t.items, before, last.id);
      var all := t.items + Missing(t.items, before);
      assert [last][1..] == [];
      if !(HasId(t.items, last.id) || HasId(before, last.id)) {
        assert t.items + Missing(t.items, items) == all + [last];
        TotalOfOneMore(all, last);
        if AddMissing(t, before).1 { AddsIfFits(AddMissing(t, before).0, last); }
      }
    }
  }

  lemma {:induction false} HoldsFits(t: Tracker)
    requires ItemsCounted(t)
    ensures Fits(t.items)
  {
  }

  ghost predicate MessagesCounted(t: Tracker, signals: seq<Signal>) {
    && t.messages.Keys == Named(signals) && t.messageBytes == BytesStreamed(signals)
    && forall id :: MessageOf(t, id).bytes == BytesTo(signals, id)
  }

  lemma {:induction false} CountOfOneMore(signals: seq<Signal>, s: Signal)
    ensures Named(signals + [s]) == if s.Delta? then Named(signals) + {s.id}
                                    else if s.Completed? && s.item.isMessage && s.item.id.Some? then Named(signals) + {s.item.id.value}
                                    else Named(signals)
    ensures BytesStreamed(signals + [s]) == BytesStreamed(signals) + if s.Delta? then s.bytes else 0
    ensures forall id :: BytesTo(signals + [s], id) == BytesTo(signals, id) + if s.Delta? && s.id == id then s.bytes else 0
    ensures CompletedItems(signals + [s]) == if s.Completed? then CompletedItems(signals) + [s.item] else CompletedItems(signals)
  {
    assert (signals + [s])[..|signals|] == signals;
  }

  ghost predicate Counted(t: Tracker, signals: seq<Signal>) {
    ItemsCounted(t) && t.items == CompletedItems(signals) && MessagesCounted(t, signals)
  }

  lemma {:induction false} CompletingCounts(t: Tracker, signals: seq<Signal>, item: Item)
    requires Counted(t, signals) && AddItem(t, item).Some?
    ensures Counted(CompleteMessage(AddItem(t, item).value, item), signals + [Completed(item, false)])
  {
    hide Named, BytesStreamed, BytesTo, CompletedItems, Fits;
    AddsIfFits(t, item);
    CountOfOneMore(signals, Completed(item, false));
    var u := CompleteMessage(AddItem(t, item).value, item);
    assert forall id :: MessageOf(u, id).bytes == MessageOf(t, id).bytes;
  }

  lemma {:induction false} StreamingCounts(t: Tracker, signals: seq<Signal>, s: Signal)
    requires Counted(t, signals) && s.Delta?
    ensures AddDelta(t, s.id, s.delta, s.bytes).Some? <==> CanStream(signals, s.id, s.bytes)
    ensures AddDelta(t, s.id, s.delta, s.bytes).Some? ==> Counted(AddDelta(t, s.id, s.delta, s.bytes).value, signals + [s])
  {
    hide Named, BytesStreamed, BytesTo, CompletedItems, Fits;
    CountOfOneMore(signals, s);
    assert |t.messages| == |t.messages.Keys|;
    assert MessageOf(t, s.id).bytes == BytesTo(signals, s.id);
  }

  lemma {:induction false} OthersCount(t: Tracker, u: Tracker, signals: seq<Signal>, s: Signal)
    requires Counted(t, signals) && !s.Completed? && !s.Delta?
    requires u.items == t.items && u.itemBytes == t.itemBytes && u.messages == t.messages && u.messageBytes == t.messageBytes
    ensures Counted(u, signals + [s])
  {
    hide Named, BytesStreamed, BytesTo, CompletedItems, Fits;
    CountOfOneMore(signals, s);
    assert forall id :: MessageOf(u, id) == MessageOf(t, id);
  }

  lemma {:induction false} StepIsTroubled(t: Tracker, signals: seq<Signal>, s: Signal)
    requires Counted(t, signals) && !t.settled && t.failure.None?
    ensures Step(t, s).failure == Trouble(signals, s)
    ensures Step(t, s).failure.None? && !s.TurnCompleted? ==> Counted(Step(t, s), signals + [s])
  {
    hide MessagesCounted, Fits, AddItem, AddDelta, CompleteMessage, AddMissing, CompleteMessages, LastText, CanStream, CompletedItems;
    match s {
    case Completed(item, fails) =>
      AddsIfFits(t, item);
      if AddItem(t, item).Some? {
        CompletingCounts(t, signals, item);
        OnlyItems(t, item);
      }
    case Delta(id, delta, bytes, fails) =>
      StreamingCounts(t, signals, s);
      OnlyMessages(t, id, delta, bytes);
    case TurnCompleted(turn, items) =>
      MissingAddsIfFits(t.(settled := true), items);
      MissingKeepsFailure(t.(settled := true), items);
      CompletionsKeepFailure(AddMissing(t.(settled := true), items).0, items);
    case _ => if Step(t, s).failure.None? { OthersCount(t, Step(t, s), signals, s); }
    }
  }

  lemma {:induction false} OnlyItems(t: Tracker, item: Item)
    requires AddItem(t, item).Some?
    ensures var added := AddItem(t, item).value;
            added.failure == t.failure == CompleteMessage(added, item).failure
            && added.interaction == t.interaction == CompleteMessage(added, item).interaction
            && added.settled == t.settled == CompleteMessage(added, item).settled
  {
  }

  lemma {:induction false} OnlyMessages(t: Tracker, id: string, delta: string, bytes: nat)
    ensures AddDelta(t, id, delta, bytes).Some? ==>
              var added := AddDelta(t, id, delta, bytes).value;
              added.failure == t.failure && added.interaction == t.interaction && added.settled == t.settled
  {
  }

  lemma {:induction false} MissingKeepsFailure(t: Tracker, items: seq<Item>)
    ensures AddMissing(t, items).0.failure == t.failure && AddMissing(t, items).0.interaction == t.interaction
    decreases |items|
  {
    if items != [] && HasId(t.items, items[0].id) {
      MissingKeepsFailure(t, items[1..]);
    } else if items != [] && AddItem(t, items[0]).Some? {
      MissingKeepsFailure(AddItem(t, items[0]).value, items[1..]);
    }
  }

  lemma {:induction false} CompletionsKeepFailure(t: Tracker, items: seq<Item>)
    ensures CompleteMessages(t, items).failure == t.failure && CompleteMessages(t, items).interaction == t.interaction
  {
    if items != [] { CompletionsKeepFailure(t, items[..|items| - 1]); }
  }

  lemma {:induction false} StepFlags(t: Tracker, s: Signal)
    ensures Step(t, s).settled <==> t.settled || s.TurnCompleted?
    ensures Step(t, s).interaction <==> t.interaction || (!t.settled && (s.Interaction? || s == Request(true, false)))
    ensures t.failure.Some? ==> Step(t, s).failure == t.failure
    ensures t.settled ==> Step(t, s) == t
  {
    hide AddItem, AddDelta, CompleteMessage, AddMissing, CompleteMessages, LastText;
    if !t.settled {
      match s {
      case Completed(item, fails) => if AddItem(t, item).Some? { OnlyItems(t, item); }
      case Delta(id, delta, bytes, fails) => OnlyMessages(t, id, delta, bytes);
      case TurnCompleted(turn, items) =>
        FinishSettles(t, turn, items);
        MissingKeepsFailure(t.(settled := true), items);
        CompletionsKeepFailure(AddMissing(t.(settled := true), items).0, items);
      case _ =>
      }
    }
  }

  // ----- exactly when ---------------------------------------------------------

  lemma {:induction false} EndsByLast(signals: seq<Signal>)
    requires signals != []
    ensures Ended(signals) <==> Ended(signals[..|signals| - 1]) || signals[|signals| - 1].TurnCompleted?
  {
    var earlier := signals[..|signals| - 1];
    assert forall i | 0 <= i < |earlier| :: earlier[i] == signals[i];
    if Ended(earlier) {
      var i :| 0 <= i < |earlier| && earlier[i].TurnCompleted?;
      assert signals[i].TurnCompleted?;
    }
  }

  /** A turn is settled once `turn/completed` has arrived. */
  lemma {:induction false} SettledExactly(signals: seq<Signal>)
    ensures Assemble(signals).settled <==> Ended(signals)
  {
    hide Step, Ended;
    if signals == [] {
      assert !Ended(signals) by { NothingEnded(signals); }
    } else {
      var n := |signals| - 1;
      SettledExactly(signals[..n]);
      EndsByLast(signals);
      StepFlags(Assemble(signals[..n]), signals[n]);
    }
  }

  lemma {:induction false} NothingEnded(signals: seq<Signal>)
    requires signals == []
    ensures !Ended(signals)
  {
  }

  /** The interaction is reported exactly when one arrived before the turn completed. */
  lemma {:induction false} InteractsExactly(signals: seq<Signal>)
    ensures Assemble(signals).interaction <==> exists i | 0 <= i < |signals| :: InteractsAt(signals, i)
  {
    if signals != [] {
      var n := |signals| - 1;
      InteractsExactly(signals[..n]);
      SettledExactly(signals[..n]);
      StepFlags(Assemble(signals[..n]), signals[n]);
      assert Assemble(signals).interaction <==> Assemble(signals[..n]).interaction || InteractsAt(signals, n);
      forall i: nat | i < n ensures InteractsAt(signals[..n], i) <==> InteractsAt(signals, i) {
        assert signals[..n][..i] == signals[..i] && signals[..n][i] == signals[i];
      }
      hide Assemble, Step, InteractsAt;
      if Assemble(signals[..n]).interaction {
        var i :| 0 <= i < n && InteractsAt(signals[..n], i);
        assert InteractsAt(signals, i);
      }
    }
  }

  lemma {:induction false} StartCounts()
    ensures Counted(START, [])
  {
  }

  lemma {:induction false} UntroubledIsCounted(signals: seq<Signal>)
    requires forall i | 0 <= i < |signals| :: !TroubledAt(signals, i)
    ensures Assemble(signals).failure.None?
    ensures !Ended(signals) ==> Counted(Assemble(signals), signals)
  {
    if signals == [] {
      StartCounts();
    } else {
      var n := |signals| - 1;
      var earlier, s := signals[..n], signals[n];
      forall i: nat | i < n ensures !TroubledAt(earlier, i) {
        assert earlier[..i] == signals[..i] && earlier[i] == signals[i] && !TroubledAt(signals, i);
      }
      UntroubledIsCounted(earlier);
      SettledExactly(earlier);
      StepFlags(Assemble(earlier), s);
      EndsByLast(signals);
      hide Step, Counted, Trouble, Ended;
      assert earlier + [s] == signals;
      if !Ended(earlier) {
        assert !TroubledAt(signals, n);
        StepIsTroubled(Assemble(earlier), earlier, s);
      }
    }
  }

  lemma {:induction false} FailureStands(signals: seq<Signal>, n: nat)
    requires n <= |signals| && Assemble(signals[..n]).failure.Some?
    ensures Assemble(signals).failure == Assemble(signals[..n]).failure
  {
    if n == |signals| {
      assert signals[..n] == signals;
    } else {
      var earlier := signals[..|signals| - 1];
      assert earlier[..n] == signals[..n];
      FailureStands(earlier, n);
      StepFlags(Assemble(earlier), signals[|signals| - 1]);
    }
  }

  /** A turn fails exactly when something was wrong with a signal that counted. */
  lemma {:induction false} FailsExactly(signals: seq<Signal>)
    ensures Assemble(signals).failure.Some? <==> exists i | 0 <= i < |signals| :: TroubledAt(signals, i)
  {
    if i: nat :| i < |signals| && TroubledAt(signals, i) {
      var first := FirstTrouble(signals, i);
      FirstTroubleIsReported(signals, first);
    } else {
      UntroubledIsCounted(signals);
    }
  }

  lemma {:induction false} FirstTrouble(signals: seq<Signal>, i: nat) returns (first: nat)
    requires i < |signals| && TroubledAt(signals, i)
    ensures first < |signals| && TroubledAt(signals, first) && forall j | 0 <= j < first :: !TroubledAt(signals, j)
  {
    first := i;
    if j: nat :| j < i && TroubledAt(signals, j) {
      first := FirstTrouble(signals, j);
    }
  }

  /** And it reports the first of them. */
  lemma {:induction false} FirstTroubleIsReported(signals: seq<Signal>, i: nat)
    requires i < |signals| && TroubledAt(signals, i) && forall j | 0 <= j < i :: !TroubledAt(signals, j)
    ensures Assemble(signals).failure == Trouble(signals[..i], signals[i])
  {
    var earlier := signals[..i];
    forall j: nat | j < i ensures !TroubledAt(earlier, j) {
      assert earlier[..j] == signals[..j] && earlier[j] == signals[j] && !TroubledAt(signals, j);
    }
    UntroubledIsCounted(earlier);
    SettledExactly(earlier);
    StepIsTroubled(Assemble(earlier), earlier, signals[i]);
    assert signals[..i + 1][..i] == earlier;
    assert Assemble(signals[..i + 1]) == Step(Assemble(earlier), signals[i]);
    FailureStands(signals, i + 1);
  }
}
