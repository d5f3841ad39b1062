/**
 Counting skills: the recorder and the derivation count alike, and nothing else depends on activities.
 */
module SkillCounting {
  import opened Wrappers
  import opened OrderedMaps
  import opened RunMetrics
  import opened RecorderOutput

  // ----- the two ways of counting skills agree ----------------------------

  lemma {:induction false} CountedAgain(distinct: seq<string>, names: seq<string>, last: string)
    requires forall i, j | 0 <= i < j < |distinct| :: distinct[i] != distinct[j]
    ensures Get(Counted(distinct, names), last) == if last in distinct then Some(Occurrences(names, last)) else None
    ensures Counted(if last in distinct then distinct else distinct + [last], names + [last])
            == Put<string, nat>(Counted(distinct, names), last, Occurrences(names, last) + 1)
  {
    assert (names + [last])[..|names|] == names;
    if distinct == [] {
      assert distinct + [last] == [last] && [last][1..] == [];
    } else {
      var head, tail := distinct[0], distinct[1..];
      assert Counted(distinct, names)[1..] == Counted(tail, names);
      CountedAgain(tail, names, last);
      if head == last {
        assert last !in tail;
        CountedElsewhere(tail, names, last);
      } else {
        assert (distinct + [last])[1..] == tail + [last];
        assert last in distinct <==> last in tail;
      }
    }
  }

  lemma {:induction false} CountedElsewhere(distinct: seq<string>, names: seq<string>, last: string)
    requires last !in distinct
    ensures Counted(distinct, names + [last]) == Counted(distinct, names)
  {
    assert (names + [last])[..|names|] == names;
    if distinct != [] {
      assert distinct[0] != last;
      CountedElsewhere(distinct[1..], names, last);
    }
  }

  lemma {:induction false} DistinctNames(names: seq<string>)
    ensures var d := Distinct(names);
            && (forall n :: n in d <==> n in names)
            && (forall i, j | 0 <= i < j < |d| :: d[i] != d[j])
            && |d| <= |names|
            && (forall n :: n !in d ==> Occurrences(names, n) == 0)
            && (forall n <- d :: Occurrences(names, n) > 0)
  {
    if names != [] {
      var before, last := names[..|names| - 1], names[|names| - 1];
      DistinctNames(before);
      assert names == before + [last];
    }
  }

  /** One pass with a map of counts gives what filtering once for each distinct name gives. */
  lemma {:induction false} TallyCounts(names: seq<string>)
    ensures Tally(names) == Counted(Distinct(names), names)
  {
    if names != [] {
      var before, last := names[..|names| - 1], names[|names| - 1];
      assert names == before + [last];
      TallyCounts(before);
      DistinctNames(before);
      CountedAgain(Distinct(before), before, last);
      var d := Distinct(before);
      assert Distinct(names) == if last in d then d else d + [last];
      assert CountIn(Tally(before), last) == Occurrences(before, last);
    }
  }

  // ----- everything but skills --------------------------------------------

  predicate IsCore(e: MetricEvent) {
    !e.Activity? && !e.SkillSummary?
  }

  function Core(events: seq<MetricEvent>): seq<MetricEvent> {
    if events == [] then []
    else
      var n := |events| - 1;
      if IsCore(events[n]) then Core(events[..n]) + [events[n]] else Core(events[..n])
  }

  function WithoutSkills(l: Ledger): Ledger {
    l.(activities := [], summaries := [])
  }

  lemma {:induction false} NoteLast(events: seq<MetricEvent>, e: MetricEvent)
    ensures NoteAll(events + [e]) == Note(NoteAll(events), e)
    ensures Core(events + [e]) == if IsCore(e) then Core(events) + [e] else Core(events)
  {
    assert (events + [e])[..|events|] == events;
  }

  lemma {:induction false} NoteCore(l: Ledger, e: MetricEvent)
    ensures IsCore(e) ==> WithoutSkills(Note(l, e)) == Note(WithoutSkills(l), e)
    ensures !IsCore(e) ==> WithoutSkills(Note(l, e)) == WithoutSkills(l)
  {
  }

  /** Activities and summaries touch nothing but the skills. */
  lemma {:induction false} OnlyCoreMatters(events: seq<MetricEvent>)
    ensures WithoutSkills(NoteAll(events)) == NoteAll(Core(events))
  {
    hide NoteAll, Note, Core, WithoutSkills;
    if events == [] {
      NothingNoted();
    } else {
      var n := |events| - 1;
      var before, e := events[..n], events[n];
      assert events == before + [e];
      NoteLast(before, e);
      OnlyCoreMatters(before);
      NoteCore(NoteAll(before), e);
      if IsCore(e) { NoteLast(Core(before), e); }
    }
  }

  lemma {:induction false} NothingNoted()
    ensures NoteAll([]) == EMPTY_LEDGER && Core([]) == [] && WithoutSkills(EMPTY_LEDGER) == EMPTY_LEDGER
  {
  }
}
