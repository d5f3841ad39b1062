/**
 A recorder that dropped nothing is invisible to the metrics: deriving them from
 its events, where activities have become one summary per invocation, gives what
 deriving them from every emitted event gives.
 */
module RecorderTransparency {
  import opened Wrappers
  import opened OrderedMaps
  import opened RunMetrics
  import opened Retention
  import opened RecorderOutput
  import opened SkillCounting
  import opened RecorderContents
  import opened MetricsMeaning

  // ----- reading the recorder's events ------------------------------------

  /** The ledger's summary of `id` is the one event that carries it, if that fits its schema. */
  lemma {:induction false} SummaryRead(events: seq<MetricEvent>, id: string, skills: Skills)
    requires forall e <- events :: e.SkillSummary? && e.id == id ==> e.skills == skills
    ensures Get(NoteAll(events).summaries, id) ==
            if SkillSummary(id, skills) in events && SkillsFit(skills) then Some(skills) else None
  {
    hide SkillsFit;
    if events != [] {
      var n := |events| - 1;
      var before, e := events[..n], events[n];
      assert events == before + [e] && e in events;
      SummaryRead(before, id, skills);
      if e.SkillSummary? { GetPut(NoteAll(before).summaries, e.id, e.skills); }
    }
  }

  lemma {:induction false} NoActivitiesNoted(events: seq<MetricEvent>)
    requires forall e <- events :: !e.Activity?
    ensures NoteAll(events).activities == []
  {
    if events != [] {
      var n := |events| - 1;
      assert events[n] in events && forall e <- events[..n] :: e in events;
      NoActivitiesNoted(events[..n]);
    }
  }

  lemma {:induction false} CompetingMembers(events: seq<MetricEvent>)
    requires Projected(events)
    ensures forall x <- Competing(events) :: IsCore(x.event)
    ensures Core(events) == EventsIn(Competing(events)) == Core(EventsIn(Competing(events)))
  {
    hide Core, Competing;
    if events == [] {
      NothingNoted();
      OptimalAtStart(0, 0);
    } else {
      var n := |events| - 1;
      var before, e := events[..n], events[n];
      assert events == before + [e] && e in events && forall d <- before :: d in events;
      LastStep(0, events);
      CompetingMembers(before);
      NoteLast(before, e);
      EventsAppend(Competing(before), Entry(e, n));
      NoteLast(EventsIn(Competing(before)), e);
    }
  }

  lemma {:induction false} EventsAppend(s: seq<Entry>, x: Entry)
    ensures EventsIn(s + [x]) == EventsIn(s) + [x.event]
  {
    if s == [] {
      assert s + [x] == [x] && [x][1..] == [];
    } else {
      assert (s + [x])[1..] == s[1..] + [x];
      EventsAppend(s[1..], x);
    }
  }

  /** What the derivation reads back from an untruncated recorder about one invocation. */
  lemma {:induction false} SkillsReadBack(limit: nat, events: seq<MetricEvent>, id: string)
    requires !RecordAll(limit, events).truncated && Projected(events)
    ensures var read, full := NoteAll(RecordedEvents(RecordAll(limit, events))), NoteAll(events);
            && (Get(full.activities, id).None? ==> SkillsOf(read, id).None? && SkillsOf(full, id).None?)
            && (Get(full.activities, id).Some? ==>
                  var skills := CountSkills(Get(full.activities, id).value);
                  && SkillsOf(full, id) == Some(skills)
                  && SkillsOf(read, id) == if SkillsFit(skills) then Some(skills) else None)
  {
    hide RecordAll, NoteAll, Competing, SortBySequence, SkillsFit, SummarizeActivities, CountSkills, RecordedEvents;
    var r := RecordAll(limit, events);
    var recorded := RecordedEvents(r);
    RecordedMembers(limit, events);
    SameActivitiesThroughout(limit, events, id);
    NoSummariesNoted(events);
    NoActivitiesNoted(recorded);
    var skills := match Get(r.summaries, id) case Some(s) => SummarizeActivities(s.activities) case None => [];
    SummaryRead(recorded, id, skills);
    match Get(r.summaries, id) {
      case None =>
      case Some(s) =>
        SummaryIsCount(s.activities);
        CountNonempty(s.activities);
    }
  }

  lemma {:induction false} SummaryIsCount(activities: Activities)
    ensures SummarizeActivities(activities) == CountSkills(activities)
  {
    TallyCounts(Names(activities));
  }

  lemma {:induction false} CountNonempty(activities: Activities)
    requires activities != []
    ensures CountSkills(activities) != []
  {
    DistinctNames(Names(activities));
    assert Names(activities)[0] in Names(activities);
  }

  /** The summaries among the recorded events are those of the recorder, one for each invocation. */
  lemma {:induction false} RecordedMembers(limit: nat, events: seq<MetricEvent>)
    requires !RecordAll(limit, events).truncated && Projected(events)
    ensures var r := RecordAll(limit, events);
            var recorded := RecordedEvents(r);
            && (forall e <- recorded :: !e.Activity?)
            && (forall e <- recorded :: e.SkillSummary? ==>
                  Get(r.summaries, e.id).Some? && e.skills == SummarizeActivities(Get(r.summaries, e.id).value.activities))
            && (forall id :: Get(r.summaries, id).Some? ==>
                  SkillSummary(id, SummarizeActivities(Get(r.summaries, id).value.activities)) in recorded)
  {
    hide RecordAll, SummarizeActivities, SummaryEntries, SortBySequence, EventsIn;
    var r := RecordAll(limit, events);
    var all := r.retained + SummaryEntries(r.summaries);
    AllRetained(limit, events);
    CompetingMembers(events);
    SummaryMembers(r.summaries);
    SortedMembers(all);
    EventsOfMembers(SortBySequence(all));
    SummariesKeyedOnce(limit, events);
    forall e | e in RecordedEvents(r)
      ensures !e.Activity?
      ensures e.SkillSummary? ==>
                Get(r.summaries, e.id).Some? && e.skills == SummarizeActivities(Get(r.summaries, e.id).value.activities)
    {
      var x :| x in SortBySequence(all) && x.event == e;
      assert x in all;
      if x in SummaryEntries(r.summaries) {
        var m :| m in r.summaries && x == SummaryEntry(m.0, m.1);
        MemberIsGet(r.summaries, m.0, m.1);
      }
    }
    forall id | Get(r.summaries, id).Some?
      ensures SkillSummary(id, SummarizeActivities(Get(r.summaries, id).value.activities)) in RecordedEvents(r)
    {
      GetIsMember(r.summaries, id);
      var x := SummaryEntry(id, Get(r.summaries, id).value);
      assert x in all && x in SortBySequence(all);
    }
  }

  // ----- the theorem ------------------------------------------------------

  /** Every activity that is counted for a created and finished task has a name within the bounds of the schema. */
  predicate NamesFit(events: seq<MetricEvent>) {
    forall e <- events | e.Created? && LastFinished(events, e.id).Some? ::
      forall a <- Considered(events, e.id) :: NameFits(a.1)
  }

  predicate TaskFits(t: TaskMetrics) {
    t.skills.Some? ==> forall s <- t.skills.value :: NameFits(s.0)
  }

  /** Every reported skill name is within the bounds of the publication schema. */
  predicate ReportFits(m: Metrics) {
    forall t <- m.tasks :: TaskFits(t)
  }

  lemma {:induction false} CountedFits(activities: Activities)
    requires |activities| <= MAX_SKILLS
    ensures SkillsFit(CountSkills(activities)) <==> forall s <- CountSkills(activities) :: NameFits(s.0)
  {
    var names := Names(activities);
    NamesLength(activities);
    DistinctNames(names);
    CountedShape(Distinct(names), names);
  }

  lemma {:induction false} NamesLength(activities: Activities)
    ensures |Names(activities)| == |activities|
  {
    if activities != [] { NamesLength(activities[1..]); }
  }

  lemma {:induction false} CountedShape(distinct: seq<string>, names: seq<string>)
    requires forall n <- distinct :: Occurrences(names, n) > 0
    ensures |Counted(distinct, names)| == |distinct|
    ensures forall s <- Counted(distinct, names) :: s.1 > 0
  {
    if distinct != [] {
      assert forall n <- distinct[1..] :: n in distinct;
      CountedShape(distinct[1..], names);
    }
  }

  /** The entries of one task from both ledgers: equal exactly when its skill names fit. */
  lemma {:induction false} EntryReadBack(limit: nat, events: seq<MetricEvent>, created: MetricEvent)
    requires !RecordAll(limit, events).truncated && Projected(events) && created.Created?
    ensures var read, full := NoteAll(RecordedEvents(RecordAll(limit, events))), NoteAll(events);
            && WithoutSkills(read) == WithoutSkills(full)
            && TaskEntry(read, created).Some? == TaskEntry(full, created).Some?
            && (TaskEntry(full, created).Some? ==>
                  (TaskEntry(read, created) == TaskEntry(full, created) <==> TaskFits(TaskEntry(full, created).value)))
  {
    CoreReadBack(limit, events);
    SkillsReadBack(limit, events, created.id);
    SameActivitiesThroughout(limit, events, created.id);
    hide RecordAll, NoteAll, RecordedEvents, SkillsFit, CountSkills, SkillsOf;
    var full := NoteAll(events);
    if Get(full.activities, created.id).Some? {
      CountedFits(Get(full.activities, created.id).value);
    }
  }

  lemma {:induction false} CoreReadBack(limit: nat, events: seq<MetricEvent>)
    requires !RecordAll(limit, events).truncated && Projected(events)
    ensures WithoutSkills(NoteAll(RecordedEvents(RecordAll(limit, events)))) == WithoutSkills(NoteAll(events))
  {
    hide RecordAll, NoteAll, SortBySequence, WithoutSkills, Competing;
    var r := RecordAll(limit, events);
    AllRetained(limit, events);
    CompetingMembers(events);
    SummaryMembers(r.summaries);
    RetainedOrderKept(r.retained, |events|, SummaryEntries(r.summaries));
    OnlyCoreMatters(RecordedEvents(r));
    OnlyCoreMatters(events);
  }

  lemma {:induction false} EntriesReadBack(limit: nat, events: seq<MetricEvent>, created: seq<MetricEvent>)
    requires !RecordAll(limit, events).truncated && Projected(events)
    ensures var read, full := NoteAll(RecordedEvents(RecordAll(limit, events))), NoteAll(events);
            && |TaskEntries(read, created)| == |TaskEntries(full, created)|
            && (TaskEntries(read, created) == TaskEntries(full, created) <==>
                  forall t <- TaskEntries(full, created) :: TaskFits(t))
  {
    hide RecordAll, NoteAll, RecordedEvents, TaskEntry, TaskFits;
    if created != [] {
      var read, full := NoteAll(RecordedEvents(RecordAll(limit, events))), NoteAll(events);
      var before, last := created[..|created| - 1], created[|created| - 1];
      EntriesReadBack(limit, events, before);
      if last.Created? {
        EntryReadBack(limit, events, last);
        if TaskEntry(full, last).Some? {
          var a, b := TaskEntries(read, before), TaskEntries(full, before);
          var x, y := TaskEntry(read, last).value, TaskEntry(full, last).value;
          assert TaskEntries(read, created) == a + [x] && TaskEntries(full, created) == b + [y];
          assert a + [x] == b + [y] <==> a == b && x == y by {
            assert (a + [x])[..|a|] == a && (b + [y])[..|b|] == b;
            assert (a + [x])[|a|] == x && (b + [y])[|b|] == y;
          }
        }
      }
    }
  }

  lemma {:induction false} ReportsDifferInTasks(read: Ledger, full: Ledger, runId: string)
    requires WithoutSkills(read) == WithoutSkills(full)
    ensures Report(read, runId) == Report(full, runId) <==>
              TaskEntries(read, full.created) == TaskEntries(full, full.created)
  {
    hide TaskEntries, LongestOf, Total, TokensIn;
    assert read.created == WithoutSkills(read).created && full.created == WithoutSkills(full).created;
    assert read.outputs == full.outputs && read.heartbeat == full.heartbeat && read.ended == full.ended;
  }

  lemma {:induction false} TransparentIfReportFits(limit: nat, events: seq<MetricEvent>, runId: string)
    requires !RecordAll(limit, events).truncated && Projected(events)
    ensures Derive(RecordedEvents(RecordAll(limit, events)), runId) == Derive(events, runId)
            <==> ReportFits(Derive(events, runId))
  {
    hide RecordAll, NoteAll, RecordedEvents, TaskEntries, TaskFits, LongestOf, Total, TokensIn, WithoutSkills;
    CoreReadBack(limit, events);
    EntriesReadBack(limit, events, NoteAll(events).created);
    ReportsDifferInTasks(NoteAll(RecordedEvents(RecordAll(limit, events))), NoteAll(events), runId);
  }

  // ----- the condition on the events ------------------------------------------------

  lemma {:induction false} NamesAre(activities: Activities)
    ensures forall n :: n in Names(activities) <==> exists a <- activities :: a.1 == n
  {
    if activities != [] {
      NamesAre(activities[1..]);
      assert activities == [activities[0]] + activities[1..];
    }
  }

  lemma {:induction false} CreationsNoted(events: seq<MetricEvent>)
    ensures forall e :: e in NoteAll(events).created <==> e in events && e.Created?
  {
    if events != [] {
      var n := |events| - 1;
      CreationsNoted(events[..n]);
      assert events == events[..n] + [events[n]];
      NotedCreation(NoteAll(events[..n]), events[n]);
      hide Note;
      assert NoteAll(events) == Note(NoteAll(events[..n]), events[n]);
    }
  }

  lemma {:induction false} EntriesAre(l: Ledger, created: seq<MetricEvent>)
    ensures forall t :: t in TaskEntries(l, created) <==> exists c <- created :: c.Created? && TaskEntry(l, c) == Some(t)
  {
    hide TaskEntry;
    if created != [] {
      var n := |created| - 1;
      EntriesAre(l, created[..n]);
      assert created == created[..n] + [created[n]];
    }
  }

  /** The skills of an entry fit exactly when the names of its activities do. */
  lemma {:induction false} EntryFits(events: seq<MetricEvent>, c: MetricEvent)
    requires Projected(events) && c.Created? && TaskEntry(NoteAll(events), c).Some?
    ensures TaskFits(TaskEntry(NoteAll(events), c).value) <==> forall a <- Considered(events, c.id) :: NameFits(a.1)
  {
    NotedActivities(events, c.id);
    NoSummariesNoted(events);
    hide NoteAll, Considered, NameFits, CountSkills;
    var acts := Considered(events, c.id);
    NamesAre(acts);
    CountedNames(acts);
    if acts != [] {
      CountNonempty(acts);
      var skills := CountSkills(acts);
      assert TaskEntry(NoteAll(events), c).value.skills == Some(skills);
      forall a | a in acts ensures exists s <- skills :: s.0 == a.1 {
        assert a.1 in Names(acts);
      }
      forall s | s in skills ensures exists a <- acts :: a.1 == s.0 {
        assert s.0 in Names(acts);
      }
    }
  }

  lemma {:induction false} CountedNames(activities: Activities)
    ensures forall n :: n in Names(activities) <==> exists s <- CountSkills(activities) :: s.0 == n
  {
    var names := Names(activities);
    DistinctNames(names);
    CountedMembers(Distinct(names), names);
    hide Distinct, Names, Counted, Occurrences;
    forall n | n in names ensures exists s <- CountSkills(activities) :: s.0 == n {
      assert (n, Occurrences(names, n)) in CountSkills(activities);
    }
  }

  lemma {:induction false} FitIsOfNames(events: seq<MetricEvent>, runId: string)
    requires Projected(events)
    ensures ReportFits(Derive(events, runId)) <==> NamesFit(events)
  {
    var l := NoteAll(events);
    CreationsNoted(events);
    EntriesAre(l, l.created);
    hide NoteAll, TaskEntry, TaskEntries, TaskFits, Considered, NameFits, LastFinished;
    forall c | c in events && c.Created?
      ensures TaskEntry(l, c).Some? <==> LastFinished(events, c.id).Some?
      ensures TaskEntry(l, c).Some? ==>
                (TaskFits(TaskEntry(l, c).value) <==> forall a <- Considered(events, c.id) :: NameFits(a.1))
    {
      EntryReports(events, c);
      if TaskEntry(l, c).Some? { EntryFits(events, c); }
    }
    assert forall t <- Derive(events, runId).tasks :: exists c <- l.created :: c.Created? && TaskEntry(l, c) == Some(t);
    if ReportFits(Derive(events, runId)) {
      forall c | c in events && c.Created? && LastFinished(events, c.id).Some?
        ensures forall a <- Considered(events, c.id) :: NameFits(a.1)
      {
        assert TaskEntry(l, c).value in Derive(events, runId).tasks;
      }
    }
  }

  /**
   Recorder transparency.  When nothing was truncated, deriving the metrics from the
   recorder's events gives exactly the metrics of all emitted events, if and only if every
   activity of a created and finished task was first seen under a name that fits the schema.
   */
  lemma {:induction false} RecorderIsTransparent(limit: nat, events: seq<MetricEvent>, runId: string)
    requires !RecordAll(limit, events).truncated && Projected(events)
    ensures Derive(RecordedEvents(RecordAll(limit, events)), runId) == Derive(events, runId) <==> NamesFit(events)
  {
    TransparentIfReportFits(limit, events, runId);
    FitIsOfNames(events, runId);
  }

  lemma {:induction false} ConsideredWereSeen(events: seq<MetricEvent>, id: string)
    ensures forall a <- FirstSeen(events, id) :: Activity(id, a.0, a.1) in events
    ensures forall a <- Considered(events, id) :: a in FirstSeen(events, id)
  {
    if events != [] {
      ConsideredWereSeen(events[..|events| - 1], id);
      assert events == events[..|events| - 1] + [events[|events| - 1]];
    }
  }

  /** A caller whose activities all have fitting names need not care whether events went through the recorder. */
  lemma {:induction false} FittingNamesAreTransparent(limit: nat, events: seq<MetricEvent>, runId: string)
    requires !RecordAll(limit, events).truncated && Projected(events)
    requires forall e <- events :: e.Activity? ==> NameFits(e.name)
    ensures Derive(RecordedEvents(RecordAll(limit, events)), runId) == Derive(events, runId)
  {
    hide RecordAll, RecordedEvents, Derive, NameFits, Considered, FirstSeen, LastFinished;
    forall e | e in events && e.Created? && LastFinished(events, e.id).Some?
      ensures forall a <- Considered(events, e.id) :: NameFits(a.1)
    {
      ConsideredWereSeen(events, e.id);
    }
    RecorderIsTransparent(limit, events, runId);
  }

  /** A created task with one skill activity, finished: nothing is truncated. */
  lemma {:induction false} ThreeEventsFit(c: MetricEvent, a: MetricEvent, f: MetricEvent)
    requires c.Created? && a.Activity? && f.Finished?
    ensures !RecordAll(3, [c, a, f]).truncated
  {
    var r1 := Record(3, EMPTY_RECORDING, c);
    var r2 := Record(3, r1, a);
    assert !Record(3, r2, f).truncated;
    hide Record;
    assert [c, a, f][..2] == [c, a] && [c, a][..1] == [c] && [c][..0] == [];
    OptimalAtStart(3, 0);
    assert RecordAll(3, [c]) == r1;
    assert RecordAll(3, [c, a]) == r2;
    assert RecordAll(3, [c, a, f]) == Record(3, r2, f);
  }

  lemma {:induction false} ThreeEventsNoted(c: MetricEvent, a: MetricEvent, f: MetricEvent)
    requires c.Created? && a.Activity? && f.Finished?
    ensures NoteAll([c, a, f]) == EMPTY_LEDGER.(created := [c], activities := [(a.id, [(a.activityId, a.name)])],
                                                results := [(f.id, f.taskEnd)])
  {
    var l1 := Note(EMPTY_LEDGER, c);
    var l2 := Note(l1, a);
    assert l2 == EMPTY_LEDGER.(created := [c], activities := [(a.id, [(a.activityId, a.name)])]);
    assert Note(l2, f) == l2.(results := [(f.id, f.taskEnd)]);
    hide Note;
    assert [c, a, f][..2] == [c, a] && [c, a][..1] == [c] && [c][..0] == [];
    NothingNoted();
    assert NoteAll([c]) == l1;
    assert NoteAll([c, a]) == l2;
  }

  /** On the recorder's own interface the condition is needed: one skill name that is too long loses that task's skills. */
  lemma {:induction false} LongNameIsLost(name: string, runId: string)
    requires |name| > MAX_NAME
    ensures var events := [Created("i", None, "task"), Activity("i", "a", name), Finished("i", TaskSucceeded)];
            && Projected(events) && !RecordAll(3, events).truncated
            && Derive(RecordedEvents(RecordAll(3, events)), runId) != Derive(events, runId)
  {
    hide RecordAll, RecordedEvents, Derive, NoteAll, Considered;
    var c, a, f := Created("i", None, "task"), Activity("i", "a", name), Finished("i", TaskSucceeded);
    var events := [c, a, f];
    ThreeEventsFit(c, a, f);
    ThreeEventsNoted(c, a, f);
    RecorderIsTransparent(3, events, runId);
    NotedActivities(events, "i");
    var noted: OrderedMap<string, Activities> := [("i", [("a", name)])];
    assert Get(noted, "i") == Some([("a", name)]);
    assert ("a", name) in Considered(events, "i");
    assert c in events && LastFinished(events, c.id).Some?;
  }
}
