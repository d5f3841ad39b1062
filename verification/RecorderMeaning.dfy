/**
 What the recorder takes from the events of a run, what it keeps of them, and when it has to
 drop something; told on kinds of events.
 */
module RecorderMeaning {
  import opened Wrappers
  import opened OrderedMaps
  import opened RunMetrics
  import opened Retention
  import opened RecorderContents
  import opened MetricsMeaning
  import opened MetricsTotals
  import opened RecordedRun

  // ----- what is projected --------------------------------------------------------

  lemma {:induction false} ProjectionsConcat(a: seq<Event>, b: seq<Event>)
    ensures Projections(a + b) == Projections(a) + Projections(b)
  {
    hide Project;
    if b == [] {
      assert a + b == a;
    } else {
      var n := |b| - 1;
      assert (a + b)[..|a| + n] == a + b[..n] && (a + b)[|a| + n] == b[n];
      ProjectionsConcat(a, b[..n]);
    }
  }

  lemma {:induction false} ProjectionsHold(events: seq<Event>)
    ensures forall m :: m in Projections(events) <==> exists e <- events :: Project(e) == Some(m)
  {
    hide Project;
    if events != [] {
      var n := |events| - 1;
      assert events == events[..n] + [events[n]];
      ProjectionsHold(events[..n]);
    }
  }

  /** Heartbeats, ends and outputs all come through, creations those of tasks and activities those of skills; and nothing else. */
  lemma {:induction false} ProjectedExactly(events: seq<Event>)
    ensures forall ms :: Heartbeat(ms) in Projections(events) <==> RunHeartbeat(ms) in events
    ensures forall end :: Ended(end) in Projections(events) <==> RunEnded(end) in events
    ensures forall id, end :: Finished(id, end) in Projections(events) <==> InvocationEnded(id, end) in events
    ensures forall id, metrics :: Output(id, metrics) in Projections(events) <==> InvocationOutput(id, metrics) in events
    ensures forall id, task, title :: Created(id, task, title) in Projections(events) <==> InvocationCreated(id, true, task, title) in events
    ensures forall id, activity, name :: Activity(id, activity, name) in Projections(events) <==> InvocationActivity(id, activity, true, name) in events
    ensures |Projections(events)| <= |events| && forall m <- Projections(events) :: !m.SkillSummary?
  {
    if events != [] {
      var n := |events| - 1;
      ProjectedExactly(events[..n]);
      assert events == events[..n] + [events[n]];
    }
  }

  // ----- what is kept -----------------------------------------------------------------

  /** Ends of the run matter most, then what invocations came to, then what was created; then all the rest. */
  predicate Matters(e: MetricEvent, level: nat) {
    if level >= 3 then e.Ended?
    else if level == 2 then e.Ended? || e.Finished? || e.Output?
    else if level == 1 then e.Ended? || e.Finished? || e.Output? || e.Created?
    else !e.Activity?
  }

  function CountRetained(s: seq<Entry>, level: nat): nat {
    if s == [] then 0 else (if Matters(s[0].event, level) then 1 else 0) + CountRetained(s[1..], level)
  }

  function CountEmitted(events: seq<MetricEvent>, level: nat): nat {
    if events == [] then 0
    else CountEmitted(events[..|events| - 1], level) + if Matters(events[|events| - 1], level) then 1 else 0
  }

  lemma {:induction false} LevelIsRank(s: seq<Entry>, level: nat)
    requires level <= 3 && forall x <- s :: !x.event.Activity?
    ensures CountRetained(s, level) == AtLeast(s, Rank, level)
  {
    if s != [] {
      assert forall x <- s[1..] :: x in s;
      assert s[0] in s;
      LevelIsRank(s[1..], level);
    }
  }

  lemma {:induction false} CompetingEmitted(events: seq<MetricEvent>, level: nat)
    requires level <= 3
    ensures AtLeast(Competing(events), Rank, level) == CountEmitted(events, level)
    ensures forall x <- Competing(events) :: !x.event.Activity?
  {
    if events != [] {
      var n := |events| - 1;
      CompetingEmitted(events[..n], level);
      if !events[n].Activity? { AppendedRank(Competing(events[..n]), Rank, Entry(events[n], n), level); }
      hide AtLeast;
    }
  }

  lemma {:induction false} NoActivityRetained(limit: nat, events: seq<MetricEvent>)
    ensures forall x <- RecordAll(limit, events).retained :: !x.event.Activity?
  {
    if events != [] {
      var n := |events| - 1;
      NoActivityRetained(limit, events[..n]);
      hide RecordAll;
      var r := RecordAll(limit, events[..n]);
      if events[n].Activity? { ActivityRecorded(limit, r, events[n]); }
      LastStep(limit, events);
    }
  }

  /** At each level of importance as many events are kept as were emitted, up to the limit. */
  lemma {:induction false} ImportantIsKept(limit: nat, events: seq<MetricEvent>, level: nat)
    requires level <= 3
    ensures CountRetained(RecordAll(limit, events).retained, level) == Min(limit, CountEmitted(events, level))
  {
    RetentionIsOptimal(limit, events, level);
    NoActivityRetained(limit, events);
    LevelIsRank(RecordAll(limit, events).retained, level);
    CompetingEmitted(events, level);
  }

  /** The end of a run outlasts a heartbeat, whichever comes first. */
  lemma {:induction false} EndOutlastsHeartbeat(end: RunEnd, ms: real)
    ensures EventsOf(RecordAll(1, [Ended(end), Heartbeat(ms)]).retained) == [Ended(end)]
    ensures EventsOf(RecordAll(1, [Heartbeat(ms), Ended(end)]).retained) == [Ended(end)]
  {
    CountTwo(Ended(end), Heartbeat(ms), 3);
    CountTwo(Heartbeat(ms), Ended(end), 3);
    OneIsKept([Ended(end), Heartbeat(ms)], end);
    OneIsKept([Heartbeat(ms), Ended(end)], end);
  }

  function EventsOf(s: seq<Entry>): seq<MetricEvent> {
    seq(|s|, i requires 0 <= i < |s| => s[i].event)
  }

  lemma {:induction false} OneIsKept(events: seq<MetricEvent>, end: RunEnd)
    requires |events| == 2 && CountEmitted(events, 3) == 1 && Ended(end) in events
    ensures EventsOf(RecordAll(1, events).retained) == [Ended(end)]
  {
    RetentionIsOptimal(1, events, 0);
    ImportantIsKept(1, events, 3);
    RetainedWereEmitted(1, events);
    hide RecordAll, CountEmitted;
    var kept := RecordAll(1, events).retained;
    assert |kept| <= 1;
    assert CountRetained(kept, 3) == 1;
    assert kept[0].event.Ended? && kept[0].event in events;
    assert events == [events[0], events[1]];
    CountTwo(events[0], events[1], 3);
  }

  lemma {:induction false} CountTwo(a: MetricEvent, b: MetricEvent, level: nat)
    ensures CountEmitted([a, b], level) == (if Matters(a, level) then 1 else 0) + if Matters(b, level) then 1 else 0
  {
    assert [a, b][..1] == [a] && [a][..0] == [];
    assert CountEmitted([a], level) == if Matters(a, level) then 1 else 0;
  }

  lemma {:induction false} RetainedWereEmitted(limit: nat, events: seq<MetricEvent>)
    ensures forall x <- RecordAll(limit, events).retained :: x.event in events
  {
    if events != [] {
      var n := |events| - 1;
      RetainedWereEmitted(limit, events[..n]);
      assert events == events[..n] + [events[n]];
      hide RecordAll;
      var r := RecordAll(limit, events[..n]);
      if events[n].Activity? { ActivityRecorded(limit, r, events[n]); }
      LastStep(limit, events);
    }
  }

  // ----- when something is dropped ------------------------------------------------------

  /** The invocations with activities, each once. */
  function ActiveIds(events: seq<MetricEvent>): seq<string> {
    if events == [] then []
    else
      var before, last := ActiveIds(events[..|events| - 1]), events[|events| - 1];
      if last.Activity? && last.id !in before then before + [last.id] else before
  }

  /** More events than the limit, more than 40 invocations with skills, or more than 128 activities of one of them. */
  ghost predicate Overflows(limit: nat, events: seq<MetricEvent>) {
    || CountEmitted(events, 0) > limit || |ActiveIds(events)| > 40
    || exists id :: |FirstSeen(events, id)| > 128
  }

  /** What the summaries hold while nothing was dropped. */
  ghost predicate SummariesHold(r: Recording, events: seq<MetricEvent>) {
    && Keys(r.summaries) == ActiveIds(events)
    && forall id :: match Get(r.summaries, id)
                    case Some(s) => s.activities == FirstSeen(events, id)
                    case None => FirstSeen(events, id) == []
  }

  lemma {:induction false} KeysAreHad<V>(m: OrderedMap<string, V>, key: string)
    ensures key in Keys(m) <==> Has(m, key)
  {
    if m != [] { KeysAreHad(m[1..], key); }
  }

  lemma {:induction false} SeenMore(events: seq<MetricEvent>, e: MetricEvent, id: string)
    ensures FirstSeen(events + [e], id) ==
            if e.Activity? && e.id == id && !Has(FirstSeen(events, id), e.activityId)
            then FirstSeen(events, id) + [(e.activityId, e.name)] else FirstSeen(events, id)
  {
    assert (events + [e])[..|events|] == events;
    if e.Activity? { SeenIsListed(events, id, e.activityId); }
    hide Seen;
  }

  lemma {:induction false} ActivityStep(limit: nat, r: Recording, events: seq<MetricEvent>, e: MetricEvent)
    requires e.Activity? && !r.truncated && SummariesHold(r, events) && |ActiveIds(events)| <= 40
    requires forall id :: |FirstSeen(events, id)| <= 128
    ensures var after := Record(limit, r, e);
            && (after.truncated <==> |ActiveIds(events + [e])| > 40 || |FirstSeen(events + [e], e.id)| > 128)
            && (!after.truncated ==> SummariesHold(after, events + [e]))
  {
    hide FirstSeen, Get, Put, Keys;
    assert (events + [e])[..|events|] == events;
    var existing := Get(r.summaries, e.id);
    var summary := match existing case Some(s) => s case None => Summary(r.sequence, []);
    var acts := summary.activities;
    KeysAt(r.summaries);
    KeysAreHad(r.summaries, e.id);
    forall id ensures FirstSeen(events + [e], id) ==
                      if e.id == id && !Has(FirstSeen(events, id), e.activityId)
                      then FirstSeen(events, id) + [(e.activityId, e.name)] else FirstSeen(events, id)
    {
      SeenMore(events, e, id);
    }
    GetPut(r.summaries, e.id, summary);
    PutKeys(r.summaries, e.id, summary);
    var more := summary.(activities := Put(acts, e.activityId, e.name));
    GetPut(r.summaries, e.id, more);
    PutKeys(r.summaries, e.id, more);
    if !Has(acts, e.activityId) { PutNewIsLast(acts, e.activityId, e.name); }
  }

  lemma {:induction false} OtherStep(limit: nat, r: Recording, events: seq<MetricEvent>, e: MetricEvent)
    requires !e.Activity? && !r.truncated && SummariesHold(r, events) && |r.retained| == CountEmitted(events, 0)
    ensures var after := Record(limit, r, e);
            && (after.truncated <==> CountEmitted(events + [e], 0) > limit)
            && (!after.truncated ==> SummariesHold(after, events + [e]))
  {
    hide FirstSeen, Get, Keys;
    assert (events + [e])[..|events|] == events;
    forall id ensures FirstSeen(events + [e], id) == FirstSeen(events, id) { SeenMore(events, e, id); }
  }

  lemma {:induction false} OverflowsMore(limit: nat, events: seq<MetricEvent>, e: MetricEvent)
    ensures Overflows(limit, events) ==> Overflows(limit, events + [e])
    ensures !Overflows(limit, events) ==>
              (Overflows(limit, events + [e]) <==>
                 || CountEmitted(events + [e], 0) > limit || |ActiveIds(events + [e])| > 40
                 || (e.Activity? && |FirstSeen(events + [e], e.id)| > 128))
    ensures e.Activity? ==> CountEmitted(events + [e], 0) == CountEmitted(events, 0)
    ensures !e.Activity? ==> ActiveIds(events + [e]) == ActiveIds(events)
  {
    hide FirstSeen;
    assert (events + [e])[..|events|] == events;
    forall id ensures |FirstSeen(events, id)| <= |FirstSeen(events + [e], id)|
              ensures !(e.Activity? && e.id == id) ==> FirstSeen(events + [e], id) == FirstSeen(events, id)
    {
      SeenMore(events, e, id);
    }
  }

  /** The recorder says that it truncated exactly when something overflowed. */
  lemma {:induction false} TruncatedExactly(limit: nat, events: seq<MetricEvent>)
    ensures RecordAll(limit, events).truncated <==> Overflows(limit, events)
    ensures !RecordAll(limit, events).truncated ==> SummariesHold(RecordAll(limit, events), events)
  {
    hide Overflows, SummariesHold, CountEmitted, FirstSeen, Record;
    if events == [] {
      NothingOverflows(limit);
    } else {
      var n := |events| - 1;
      var before, e := events[..n], events[n];
      assert events == before + [e];
      LastStep(limit, events);
      TruncatedExactly(limit, before);
      OverflowsMore(limit, before, e);
      var r := RecordAll(limit, before);
      if r.truncated {
        TruncatedStays(limit, r, e);
      } else {
        TruncatedStep(limit, before, e);
      }
    }
  }

  lemma {:induction false} TruncatedStep(limit: nat, before: seq<MetricEvent>, e: MetricEvent)
    requires !RecordAll(limit, before).truncated && !Overflows(limit, before) && SummariesHold(RecordAll(limit, before), before)
    ensures var after := Record(limit, RecordAll(limit, before), e);
            && (after.truncated <==> Overflows(limit, before + [e]))
            && (!after.truncated ==> SummariesHold(after, before + [e]))
  {
    var r := RecordAll(limit, before);
    OverflowsMore(limit, before, e);
    hide SummariesHold, CountEmitted, FirstSeen, Record, RecordAll, ActiveIds;
    if e.Activity? {
      ActivityStep(limit, r, before, e);
    } else {
      AllRetained(limit, before);
      CompetingEmitted(before, 0);
      RankBounds(Competing(before), Rank, 0);
      OtherStep(limit, r, before, e);
    }
  }

  lemma {:induction false} NothingOverflows(limit: nat)
    ensures !Overflows(limit, []) && SummariesHold(EMPTY_RECORDING, []) && RecordAll(limit, []) == EMPTY_RECORDING
  {
  }
}
