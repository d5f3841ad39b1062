/**
 What the bounded recorder keeps: an abstract account of its state after any
 sequence of projected events, and why that is the best a bound allows.
 */
module Retention {
  import opened Wrappers
  import opened OrderedMaps
  import opened RunMetrics

  /** Retention priority of a projected event, 3 the highest. */
  function Priority(e: MetricEvent): (p: nat)
    ensures p <= 3
  {
    match e
    case Ended(_) => 3
    case Finished(_, _) => 2
    case Output(_, _) => 2
    case Created(_, _, _) => 1
    case _ => 0
  }

  datatype Entry = Entry(event: MetricEvent, sequence: nat)

  datatype Summary = Summary(sequence: nat, activities: Activities)

  datatype Recording = Recording(retained: seq<Entry>, summaries: OrderedMap<string, Summary>, sequence: nat, truncated: bool)

  const EMPTY_RECORDING := Recording([], [], 0, false)
  const MAX_SUMMARIES := 40
  const MAX_ACTIVITIES := 128

  function Rank(e: Entry): nat {
    Priority(e.event)
  }

  // ----- selecting by priority --------------------------------------------

  function OfRank<T>(s: seq<T>, rank: T -> nat, p: nat): (r: seq<T>)
    ensures forall x <- r :: x in s && rank(x) == p
    ensures forall x <- s :: rank(x) == p ==> x in r
  {
    if s == [] then [] else (if rank(s[0]) == p then [s[0]] else []) + OfRank(s[1..], rank, p)
  }

  function AtLeast<T>(s: seq<T>, rank: T -> nat, p: nat): nat {
    if s == [] then 0 else (if rank(s[0]) >= p then 1 else 0) + AtLeast(s[1..], rank, p)
  }

  function Without<T>(s: seq<T>, i: nat): seq<T>
    requires i < |s|
  {
    s[..i] + s[i + 1..]
  }

  /** The first entry among those of the lowest priority. */
  function Lowest<T>(s: seq<T>, rank: T -> nat): (i: nat)
    requires s != []
    ensures i < |s|
    ensures forall k | 0 <= k < |s| :: rank(s[i]) <= rank(s[k])
    ensures forall k | 0 <= k < i :: rank(s[i]) < rank(s[k])
  {
    if |s| == 1 then 0
    else
      var i := 1 + Lowest(s[1..], rank);
      assert forall k | 1 <= k < |s| :: s[k] == s[1..][k - 1];
      if rank(s[0]) <= rank(s[i]) then 0 else i
  }

  lemma {:induction false} RankUnfold<T>(s: seq<T>, rank: T -> nat, p: nat)
    requires s != []
    ensures OfRank(s, rank, p) == OfRank([s[0]], rank, p) + OfRank(s[1..], rank, p)
    ensures OfRank([s[0]], rank, p) == if rank(s[0]) == p then [s[0]] else []
    ensures AtLeast(s, rank, p) == AtLeast([s[0]], rank, p) + AtLeast(s[1..], rank, p)
    ensures AtLeast([s[0]], rank, p) == if rank(s[0]) >= p then 1 else 0
  {
    assert [s[0]][1..] == [];
  }

  lemma {:induction false} NoneOfRank<T>(s: seq<T>, rank: T -> nat, p: nat)
    requires forall x <- s :: rank(x) != p
    ensures OfRank(s, rank, p) == []
    ensures s == [] ==> AtLeast(s, rank, p) == 0
  {
    if s != [] {
      assert forall x <- s[1..] :: x in s;
      NoneOfRank(s[1..], rank, p);
    }
  }

  lemma {:induction false} ConcatRegroups<T>(a: seq<T>, b: seq<T>, c: seq<T>)
    ensures (a + b) + c == a + (b + c) && [] + a == a
  {
  }

  lemma {:induction false} RankConcat<T>(a: seq<T>, b: seq<T>, rank: T -> nat, p: nat)
    ensures OfRank(a + b, rank, p) == OfRank(a, rank, p) + OfRank(b, rank, p)
    ensures AtLeast(a + b, rank, p) == AtLeast(a, rank, p) + AtLeast(b, rank, p)
  {
    hide OfRank, AtLeast;
    if a == [] {
      assert a + b == b;
      NoneOfRank(a, rank, p);
    } else {
      assert (a + b)[1..] == a[1..] + b && (a + b)[0] == a[0];
      RankUnfold(a, rank, p);
      RankUnfold(a + b, rank, p);
      RankConcat(a[1..], b, rank, p);
      ConcatRegroups(OfRank([a[0]], rank, p), OfRank(a[1..], rank, p), OfRank(b, rank, p));
    }
  }

  lemma {:induction false} AppendedRank<T>(s: seq<T>, rank: T -> nat, x: T, p: nat)
    ensures OfRank(s + [x], rank, p) == if rank(x) == p then OfRank(s, rank, p) + [x] else OfRank(s, rank, p)
    ensures AtLeast(s + [x], rank, p) == AtLeast(s, rank, p) + (if rank(x) >= p then 1 else 0)
  {
    RankConcat(s, [x], rank, p);
    RankUnfold([x], rank, p);
  }

  lemma {:induction false} WithoutMiddle<T>(a: seq<T>, x: T, b: seq<T>)
    ensures (a + ([x] + b))[|a|] == x && Without(a + ([x] + b), |a|) == a + b
  {
  }

  /** Removing any element takes it out of its own rank and leaves the others. */
  lemma {:induction false} RankWithout<T>(s: seq<T>, rank: T -> nat, k: nat, p: nat)
    requires k < |s|
    ensures rank(s[k]) != p ==> OfRank(Without(s, k), rank, p) == OfRank(s, rank, p)
    ensures rank(s[k]) == p ==>
              var all, m := OfRank(s, rank, p), |OfRank(s[..k], rank, p)|;
              m < |all| && all[m] == s[k] && OfRank(Without(s, k), rank, p) == Without(all, m)
    ensures AtLeast(s, rank, p) == AtLeast(Without(s, k), rank, p) + (if rank(s[k]) >= p then 1 else 0)
  {
    hide OfRank, AtLeast;
    var front, rest := s[..k], s[k..];
    assert s == front + rest && rest[1..] == s[k + 1..] && rest[0] == s[k];
    RankConcat(front, rest, rank, p);
    RankConcat(front, rest[1..], rank, p);
    RankUnfold(rest, rank, p);
    var a, b := OfRank(front, rank, p), OfRank(rest[1..], rank, p);
    ConcatRegroups(b, [], []);
    WithoutMiddle(a, s[k], b);
  }

  /** Removing the first element of a rank takes the head of that rank and nothing else. */
  lemma {:induction false} RemovedRank<T>(s: seq<T>, rank: T -> nat, i: nat, p: nat)
    requires i < |s| && forall k | 0 <= k < i :: rank(s[k]) != rank(s[i])
    ensures rank(s[i]) == p ==> OfRank(s, rank, p) == [s[i]] + OfRank(Without(s, i), rank, p)
    ensures rank(s[i]) != p ==> OfRank(s, rank, p) == OfRank(Without(s, i), rank, p)
    ensures AtLeast(s, rank, p) == AtLeast(Without(s, i), rank, p) + (if rank(s[i]) >= p then 1 else 0)
  {
    hide OfRank, AtLeast;
    RankWithout(s, rank, i, p);
    if rank(s[i]) == p {
      NoneOfRank(s[..i], rank, p);
      var all := OfRank(s, rank, p);
      assert all == [all[0]] + Without(all, 0);
    }
  }

  lemma {:induction false} RankBounds<T>(s: seq<T>, rank: T -> nat, p: nat)
    ensures AtLeast(s, rank, p) <= |s|
    ensures (forall x <- s :: rank(x) >= p) <==> AtLeast(s, rank, p) == |s|
  {
    if s != [] {
      RankBounds(s[1..], rank, p);
      assert s == [s[0]] + s[1..];
    }
  }

  // ----- recording --------------------------------------------------------

  /** `recordSkillActivity`. */
  function RecordActivity(r: Recording, id: string, activityId: string, name: string, sequence: nat): Recording {
    var existing := Get(r.summaries, id);
    if existing.None? && |r.summaries| >= MAX_SUMMARIES then r.(truncated := true)
    else
      var summary := match existing case Some(s) => s case None => Summary(sequence, []);
      if Has(summary.activities, activityId) then r.(summaries := Put(r.summaries, id, summary))
      else if |summary.activities| >= MAX_ACTIVITIES then r.(summaries := Put(r.summaries, id, summary), truncated := true)
      else r.(summaries := Put(r.summaries, id, summary.(activities := Put(summary.activities, activityId, name))))
  }

  /** `emit`, for a projected event. */
  function Record(limit: nat, r: Recording, e: MetricEvent): Recording {
    var entry := Entry(e, r.sequence);
    var next := r.(sequence := r.sequence + 1);
    if e.Activity? then RecordActivity(next, e.id, e.activityId, e.name, r.sequence)
    else if |r.retained| < limit then next.(retained := r.retained + [entry])
    else
      var full := next.(truncated := true);
      if r.retained == [] then full
      else
        var lowest := Lowest(r.retained, Rank);
        if Rank(entry) <= Rank(r.retained[lowest]) then full
        else full.(retained := Without(r.retained, lowest) + [entry])
  }

  function RecordAll(limit: nat, events: seq<MetricEvent>): Recording {
    if events == [] then EMPTY_RECORDING
    else Record(limit, RecordAll(limit, events[..|events| - 1]), events[|events| - 1])
  }

  /** Every event that competes for a place, with its sequence number. */
  function Competing(events: seq<MetricEvent>): seq<Entry> {
    if events == [] then []
    else
      var n := |events| - 1;
      if events[n].Activity? then Competing(events[..n]) else Competing(events[..n]) + [Entry(events[n], n)]
  }

  lemma {:induction false} ActivityKeepsRetained(r: Recording, id: string, activityId: string, name: string, n: nat)
    ensures RecordActivity(r, id, activityId, name, n).retained == r.retained
    ensures RecordActivity(r, id, activityId, name, n).sequence == r.sequence
  {
  }

  /** The last step of a run. */
  lemma {:induction false} LastStep(limit: nat, events: seq<MetricEvent>)
    requires events != []
    ensures var n := |events| - 1;
            && RecordAll(limit, events) == Record(limit, RecordAll(limit, events[..n]), events[n])
            && Competing(events) ==
                 if events[n].Activity? then Competing(events[..n]) else Competing(events[..n]) + [Entry(events[n], n)]
  {
  }

  ghost predicate OptimalAt(limit: nat, retained: seq<Entry>, competing: seq<Entry>, p: nat) {
    AtLeast(retained, Rank, p) == Min(limit, AtLeast(competing, Rank, p)) && |retained| == Min(limit, |competing|)
  }

  lemma {:induction false} OptimalStep(limit: nat, r: Recording, competing: seq<Entry>, e: MetricEvent, p: nat)
    requires OptimalAt(limit, r.retained, competing, p) && !e.Activity?
    ensures OptimalAt(limit, Record(limit, r, e).retained, competing + [Entry(e, r.sequence)], p)
  {
    hide AtLeast, Lowest, Priority, RecordActivity;
    var entry := Entry(e, r.sequence);
    AppendedRank(competing, Rank, entry, p);
    RankBounds(competing, Rank, p);
    if |r.retained| < limit {
      AppendedRank(r.retained, Rank, entry, p);
    } else if r.retained != [] {
      OneMoreWhenFull(limit, r.retained, entry, p);
    }
  }

  /**
   Retention is optimal: for every priority, as many entries of at least that
   priority are kept as the bound allows.
   */
  lemma {:induction false} RetentionIsOptimal(limit: nat, events: seq<MetricEvent>, p: nat)
    ensures OptimalAt(limit, RecordAll(limit, events).retained, Competing(events), p)
    ensures RecordAll(limit, events).sequence == |events|
  {
    hide RecordAll, Competing, OptimalAt, RecordActivity;
    if events == [] {
      OptimalAtStart(limit, p);
    } else {
      LastStep(limit, events);
      var n := |events| - 1;
      var e, r := events[n], RecordAll(limit, events[..n]);
      RetentionIsOptimal(limit, events[..n], p);
      if e.Activity? {
        ActivityKeepsRetained(r.(sequence := n + 1), e.id, e.activityId, e.name, n);
      } else {
        OptimalStep(limit, r, Competing(events[..n]), e, p);
      }
    }
  }

  lemma {:induction false} OptimalAtStart(limit: nat, p: nat)
    ensures RecordAll(limit, []) == EMPTY_RECORDING && Competing([]) == [] && OptimalAt(limit, [], [], p)
  {
  }

  /** The step at a full recorder. */
  lemma {:induction false} OneMoreWhenFull(limit: nat, s: seq<Entry>, entry: Entry, p: nat)
    requires |s| == limit > 0
    ensures var lowest := Lowest(s, Rank);
            var after := if Rank(entry) <= Rank(s[lowest]) then s else Without(s, lowest) + [entry];
            && |after| == limit
            && AtLeast(after, Rank, p) == Min(limit, AtLeast(s, Rank, p) + if Rank(entry) >= p then 1 else 0)
  {
    hide AtLeast, Lowest, Priority;
    var lowest := Lowest(s, Rank);
    RankBounds(s, Rank, p);
    if Rank(entry) <= Rank(s[lowest]) {
      if p <= Rank(entry) {
        assert forall x <- s :: Rank(x) >= p;
      }
    } else {
      RemovedRank(s, Rank, lowest, p);
      AppendedRank(Without(s, lowest), Rank, entry, p);
      if p <= Rank(s[lowest]) {
        assert forall x <- s :: Rank(x) >= p;
      } else {
        assert s[lowest] in s;
      }
    }
  }

  /** `part` is a contiguous stretch of `whole` starting at `from`. */
  predicate StretchOf<T(==)>(part: seq<T>, whole: seq<T>, from: nat) {
    from + |part| <= |whole| && whole[from..from + |part|] == part
  }

  lemma {:induction false} StretchMoves<T>(part: seq<T>, whole: seq<T>, from: nat, x: T)
    requires StretchOf(part, whole, from)
    ensures StretchOf(part, whole + [x], from)
    ensures from + |part| == |whole| ==> StretchOf(part + [x], whole + [x], from)
    ensures part != [] ==> StretchOf(part[1..], whole, from + 1)
  {
    var to := from + |part|;
    assert (whole + [x])[from..to] == whole[from..to];
    if to == |whole| {
      assert (whole + [x])[from..to + 1] == whole[from..to] + [x];
    }
    if part != [] {
      assert whole[from + 1..to] == whole[from..to][1..];
    }
  }

  /** What one priority sees of a step: its own head leaves, or the new entry joins, or neither. */
  lemma {:induction false} StepOfRank(limit: nat, r: Recording, e: MetricEvent, p: nat)
    requires !e.Activity? && |r.retained| <= limit
    ensures var entry := Entry(e, r.sequence);
            var kept, after := OfRank(r.retained, Rank, p), OfRank(Record(limit, r, e).retained, Rank, p);
            || (Rank(entry) == p && after == kept + [entry] && AtLeast(r.retained, Rank, p) < limit)
            || (Rank(entry) == p && after == kept && AtLeast(r.retained, Rank, p) == limit)
            || (Rank(entry) != p && after == kept)
            || (Rank(entry) != p && kept != [] && after == kept[1..])
  {
    var entry := Entry(e, r.sequence);
    RankBounds(r.retained, Rank, p);
    if |r.retained| < limit {
      AppendedRank(r.retained, Rank, entry, p);
    } else if r.retained != [] {
      var lowest := Lowest(r.retained, Rank);
      if Rank(entry) <= Rank(r.retained[lowest]) {
        if Rank(entry) == p { assert forall x <- r.retained :: Rank(x) >= p; }
      } else {
        RemovedRank(r.retained, Rank, lowest, p);
        AppendedRank(Without(r.retained, lowest), Rank, entry, p);
        assert r.retained[lowest] in r.retained;
      }
    }
  }

  /**
   The retained entries of one priority are a contiguous run of those emitted:
   once one is turned away, all later ones are, and only the oldest are evicted.
   */
  lemma {:induction false} RetainedIsContiguous(limit: nat, events: seq<MetricEvent>, p: nat) returns (from: nat)
    ensures var kept, all := OfRank(RecordAll(limit, events).retained, Rank, p), OfRank(Competing(events), Rank, p);
            && StretchOf(kept, all, from)
            && (from + |kept| < |all| ==> AtLeast(Competing(events), Rank, p) >= limit)
  {
    hide RecordAll, Competing, AtLeast, OfRank, RecordActivity, StretchOf, Record;
    if events == [] {
      OptimalAtStart(limit, p);
      ContiguousAtStart(p);
      return 0;
    }
    LastStep(limit, events);
    var n := |events| - 1;
    var e, r := events[n], RecordAll(limit, events[..n]);
    var kept, all := OfRank(r.retained, Rank, p), OfRank(Competing(events[..n]), Rank, p);
    from := RetainedIsContiguous(limit, events[..n], p);
    RetentionIsOptimal(limit, events[..n], p);
    if e.Activity? {
      ActivityRecorded(limit, r, e);
      return;
    }
    var entry := Entry(e, n);
    AppendedRank(Competing(events[..n]), Rank, entry, p);
    StretchMoves(kept, all, from, entry);
    StepOfRank(limit, r, e, p);
    StretchFits(kept, all, from);
    if Rank(entry) != p && OfRank(Record(limit, r, e).retained, Rank, p) != kept {
      from := from + 1;
    }
  }

  lemma {:induction false} ActivityRecorded(limit: nat, r: Recording, e: MetricEvent)
    requires e.Activity?
    ensures Record(limit, r, e).retained == r.retained
  {
  }

  lemma {:induction false} StretchFits<T>(part: seq<T>, whole: seq<T>, from: nat)
    requires StretchOf(part, whole, from)
    ensures from + |part| <= |whole|
  {
  }

  lemma {:induction false} ContiguousAtStart(p: nat)
    ensures OfRank<Entry>([], Rank, p) == [] && StretchOf<Entry>([], [], 0)
  {
  }
}
