/**
 What a recorder that dropped nothing holds, and the order in which it returns it.
 */
module RecorderContents {
  import opened Wrappers
  import opened OrderedMaps
  import opened RunMetrics
  import opened Retention
  import opened RecorderOutput
  import opened SkillCounting

  // ----- what an untruncated recorder holds -------------------------------

  ghost predicate Projected(events: seq<MetricEvent>) {
    forall e <- events :: !e.SkillSummary?
  }

  lemma {:induction false} TruncatedStays(limit: nat, r: Recording, e: MetricEvent)
    ensures r.truncated ==> Record(limit, r, e).truncated
  {
  }

  ghost predicate Ordered(s: seq<Entry>, below: nat) {
    && (forall i, j | 0 <= i < j < |s| :: s[i].sequence < s[j].sequence)
    && (forall e <- s :: e.sequence < below)
  }

  /** Without truncation every competing event is retained, in order. */
  lemma {:induction false} AllRetained(limit: nat, events: seq<MetricEvent>)
    requires !RecordAll(limit, events).truncated
    ensures RecordAll(limit, events).retained == Competing(events)
    ensures RecordAll(limit, events).sequence == |events|
    ensures Ordered(Competing(events), |events|)
  {
    hide RecordAll, Competing, RecordActivity, Lowest;
    if events == [] {
      OptimalAtStart(limit, 0);
    } else {
      LastStep(limit, events);
      var n := |events| - 1;
      TruncatedStays(limit, RecordAll(limit, events[..n]), events[n]);
      AllRetained(limit, events[..n]);
      if events[n].Activity? {
        ActivityRecorded(limit, RecordAll(limit, events[..n]), events[n]);
        ActivitySequence(limit, RecordAll(limit, events[..n]), events[n]);
      }
    }
  }

  lemma {:induction false} ActivitySequence(limit: nat, r: Recording, e: MetricEvent)
    ensures Record(limit, r, e).sequence == r.sequence + 1
  {
  }

  /** The recorder's activities of one invocation are those the derivation would collect. */
  ghost predicate SameActivities(r: Recording, l: Ledger, id: string) {
    match Get(r.summaries, id)
    case None => Get(l.activities, id).None?
    case Some(s) => Get(l.activities, id) == Some(s.activities) && s.activities != [] && |s.activities| <= MAX_SKILLS
  }

  lemma {:induction false} SameActivitiesStep(limit: nat, r: Recording, l: Ledger, e: MetricEvent, id: string)
    requires SameActivities(r, l, id) && !Record(limit, r, e).truncated && !e.SkillSummary?
    requires e.Activity? ==> SameActivities(r, l, e.id)
    ensures SameActivities(Record(limit, r, e), Note(l, e), id)
  {
    if e.Activity? {
      var next := r.(sequence := r.sequence + 1);
      var after := RecordActivity(next, e.id, e.activityId, e.name, r.sequence);
      var acts := ActivitiesOf(l, e.id);
      var summary := match Get(r.summaries, e.id) case Some(s) => s case None => Summary(r.sequence, []);
      assert acts == summary.activities;
      GetPut(acts, e.activityId, e.name);
      GetPut(l.activities, e.id, NoteActivity(acts, e.activityId, e.name));
      GetPut(r.summaries, e.id, summary);
      GetPut(r.summaries, e.id, summary.(activities := Put(summary.activities, e.activityId, e.name)));
    }
  }

  lemma {:induction false} SameActivitiesThroughout(limit: nat, events: seq<MetricEvent>, id: string)
    requires !RecordAll(limit, events).truncated && Projected(events)
    ensures SameActivities(RecordAll(limit, events), NoteAll(events), id)
  {
    if events == [] {
      OptimalAtStart(limit, 0);
      NothingNoted();
    } else {
      hide RecordAll, NoteAll, SameActivities, Competing, Record, Note;
      LastStep(limit, events);
      var n := |events| - 1;
      var before, e := events[..n], events[n];
      assert events == before + [e] && e in events;
      NoteLast(before, e);
      TruncatedStays(limit, RecordAll(limit, before), e);
      SameActivitiesThroughout(limit, before, id);
      if e.Activity? { SameActivitiesThroughout(limit, before, e.id); }
      SameActivitiesStep(limit, RecordAll(limit, before), NoteAll(before), e, id);
    }
  }

  /** Projected events leave no summaries in the ledger. */
  lemma {:induction false} NoSummariesNoted(events: seq<MetricEvent>)
    requires Projected(events)
    ensures NoteAll(events).summaries == []
  {
    if events != [] {
      NoSummariesNoted(events[..|events| - 1]);
    }
  }

  // ----- the order of the recorder's events -------------------------------

  lemma {:induction false} CoreConcat(a: seq<MetricEvent>, b: seq<MetricEvent>)
    ensures Core(a + b) == Core(a) + Core(b)
  {
    if b == [] {
      assert a + b == a;
    } else {
      var n := |b| - 1;
      assert a + b == (a + b[..n]) + [b[n]] && b == b[..n] + [b[n]];
      NoteLast(a + b[..n], b[n]);
      CoreConcat(a, b[..n]);
    }
  }

  lemma {:induction false} InsertedSummary(x: Entry, s: seq<Entry>)
    requires !IsCore(x.event)
    ensures Core(EventsIn(InsertBySequence(x, s))) == Core(EventsIn(s))
  {
    hide Core;
    var after := InsertBySequence(x, s);
    NothingNoted();
    NoteLast([], x.event);
    assert [] + [x.event] == [x.event];
    if s == [] {
      assert EventsIn([]) == [] && [x][1..] == [] && EventsIn([x]) == [x.event];
    } else if x.sequence < s[0].sequence {
      assert after[1..] == s;
      CoreConcat([x.event], EventsIn(s));
    } else {
      var tail := InsertBySequence(x, s[1..]);
      assert after[1..] == tail;
      InsertedSummary(x, s[1..]);
      CoreConcat([s[0].event], EventsIn(tail));
      CoreConcat([s[0].event], EventsIn(s[1..]));
    }
  }

  lemma {:induction false} InsertedMembers(x: Entry, s: seq<Entry>)
    ensures forall e :: e in InsertBySequence(x, s) <==> e == x || e in s
  {
    if s != [] && x.sequence >= s[0].sequence {
      InsertedMembers(x, s[1..]);
      assert s == [s[0]] + s[1..];
    }
  }

  lemma {:induction false} SortedMembers(s: seq<Entry>)
    ensures forall e :: e in SortBySequence(s) <==> e in s
  {
    if s != [] {
      var n := |s| - 1;
      SortedMembers(s[..n]);
      InsertedMembers(s[n], SortBySequence(s[..n]));
      assert s == s[..n] + [s[n]];
    }
  }

  lemma {:induction false} InsertLatest(x: Entry, s: seq<Entry>)
    requires forall e <- s :: e.sequence < x.sequence
    ensures InsertBySequence(x, s) == s + [x]
  {
    if s != [] {
      InsertLatest(x, s[1..]);
      assert s + [x] == [s[0]] + (s[1..] + [x]);
    }
  }

  lemma {:induction false} SortedAlready(s: seq<Entry>, below: nat)
    requires Ordered(s, below)
    ensures SortBySequence(s) == s
  {
    if s != [] {
      var n := |s| - 1;
      SortedAlready(s[..n], below);
      InsertLatest(s[n], s[..n]);
    }
  }

  /** Sorting summaries in leaves the retained events in their order. */
  lemma {:induction false} RetainedOrderKept(retained: seq<Entry>, below: nat, summaries: seq<Entry>)
    requires Ordered(retained, below) && forall x <- summaries :: !IsCore(x.event)
    ensures Core(EventsIn(SortBySequence(retained + summaries))) == Core(EventsIn(retained))
  {
    if summaries == [] {
      assert retained + summaries == retained;
      SortedAlready(retained, below);
    } else {
      var n := |summaries| - 1;
      assert retained + summaries == (retained + summaries[..n]) + [summaries[n]];
      assert (retained + summaries)[..|retained| + n] == retained + summaries[..n];
      RetainedOrderKept(retained, below, summaries[..n]);
      InsertedSummary(summaries[n], SortBySequence(retained + summaries[..n]));
    }
  }

  lemma {:induction false} EventsOfMembers(s: seq<Entry>)
    ensures forall e :: e in EventsIn(s) <==> exists x <- s :: x.event == e
  {
    if s != [] {
      EventsOfMembers(s[1..]);
      assert s == [s[0]] + s[1..];
    }
  }

  lemma {:induction false} SummaryMembers(summaries: OrderedMap<string, Summary>)
    ensures forall x :: x in SummaryEntries(summaries) <==> exists m <- summaries :: x == SummaryEntry(m.0, m.1)
  {
    if summaries != [] {
      SummaryMembers(summaries[1..]);
      assert summaries == [summaries[0]] + summaries[1..];
    }
  }

  lemma {:induction false} SummariesKeyedOnce(limit: nat, events: seq<MetricEvent>)
    ensures DistinctKeys(RecordAll(limit, events).summaries)
  {
    if events != [] {
      var n := |events| - 1;
      SummariesKeyedOnce(limit, events[..n]);
      var r, e := RecordAll(limit, events[..n]), events[n];
      hide RecordAll;
      if e.Activity? {
        var summary := match Get(r.summaries, e.id) case Some(s) => s case None => Summary(r.sequence, []);
        PutKeepsKeysDistinct(r.summaries, e.id, summary);
        PutKeepsKeysDistinct(r.summaries, e.id, summary.(activities := Put(summary.activities, e.activityId, e.name)));
      }
    }
  }
}
