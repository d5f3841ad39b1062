/**
 What the derived metrics mean, in terms of the events they were derived from.
 */
module MetricsMeaning {
  import opened Wrappers
  import opened OrderedMaps
  import opened RunMetrics
  import opened SkillCounting

  // ----- the last word on an invocation --------------------------------------

  function LastFinished(events: seq<MetricEvent>, id: string): Option<TaskEnd> {
    if events == [] then None
    else
      var last := events[|events| - 1];
      if last.Finished? && last.id == id then Some(last.taskEnd) else LastFinished(events[..|events| - 1], id)
  }

  function LastOutput(events: seq<MetricEvent>, id: string): Option<Option<Usage>> {
    if events == [] then None
    else
      var last := events[|events| - 1];
      if last.Output? && last.id == id then Some(last.metrics) else LastOutput(events[..|events| - 1], id)
  }

  function LastEnded(events: seq<MetricEvent>): Option<RunEnd> {
    if events == [] then None
    else if events[|events| - 1].Ended? then Some(events[|events| - 1].end)
    else LastEnded(events[..|events| - 1])
  }

  /** The tasks that were created and have finished by the end of `all`, in order of creation. */
  function FinishedCreations(events: seq<MetricEvent>, all: seq<MetricEvent>): seq<MetricEvent> {
    if events == [] then []
    else
      var before, last := FinishedCreations(events[..|events| - 1], all), events[|events| - 1];
      if last.Created? && LastFinished(all, last.id).Some? then before + [last] else before
  }

  lemma {:induction false} NotedResult(events: seq<MetricEvent>, id: string)
    ensures Get(NoteAll(events).results, id) == LastFinished(events, id)
    ensures Get(NoteAll(events).outputs, id) == LastOutput(events, id)
    ensures NoteAll(events).ended == LastEnded(events)
  {
    if events != [] {
      var before, last := NoteAll(events[..|events| - 1]), events[|events| - 1];
      NotedResult(events[..|events| - 1], id);
      if last.Finished? { GetPut(before.results, last.id, last.taskEnd); }
      if last.Output? { GetPut(before.outputs, last.id, last.metrics); }
    }
  }

  /** The outcome is the last end of the run that was seen; a run without one has failed. */
  lemma {:induction false} OutcomeIsLastEnd(events: seq<MetricEvent>, runId: string)
    ensures Derive(events, runId).outcome == match LastEnded(events) { case Some(end) => end case None => RunFailed }
  {
    NotedResult(events, "");
  }

  // ----- tasks -----------------------------------------------------------------

  predicate Seen(events: seq<MetricEvent>, id: string, activityId: string) {
    exists e <- events :: e.Activity? && e.id == id && e.activityId == activityId
  }

  /** The activities of an invocation, each under the name it was first seen with. */
  function FirstSeen(events: seq<MetricEvent>, id: string): Activities {
    if events == [] then []
    else
      var before, last := events[..|events| - 1], events[|events| - 1];
      if last.Activity? && last.id == id && !Seen(before, id, last.activityId)
      then FirstSeen(before, id) + [(last.activityId, last.name)]
      else FirstSeen(before, id)
  }

  /** No more than so many of them are counted. */
  function Considered(events: seq<MetricEvent>, id: string): Activities {
    var all := FirstSeen(events, id);
    if |all| <= MAX_SKILLS then all else all[..MAX_SKILLS]
  }

  /** The last summary that fits its schema. */
  function LastSummary(events: seq<MetricEvent>, id: string): Option<Skills> {
    if events == [] then None
    else
      var last := events[|events| - 1];
      if last.SkillSummary? && last.id == id && SkillsFit(last.skills) then Some(last.skills)
      else LastSummary(events[..|events| - 1], id)
  }

  /** A summary speaks for itself; without one each name is listed once, with its number of activities. */
  ghost predicate ReportsSkills(skills: Option<Skills>, id: string, events: seq<MetricEvent>) {
    match LastSummary(events, id)
    case Some(s) => skills == if s == [] then None else Some(s)
    case None =>
      var names := Names(Considered(events, id));
      && (skills.None? <==> names == [])
      && (skills.Some? ==>
            && (forall n, k :: (n, k) in skills.value <==> n in names && k == Occurrences(names, n))
            && (forall i, j | 0 <= i < j < |skills.value| :: skills.value[i].0 != skills.value[j].0))
  }

  /** Nothing was measured, so that only a selection can tell the model. */
  predicate Unmeasured(u: Usage) {
    u.durationMs.None? && u.cost.None? && u.tokens.None?
  }

  /** The model and provider reported with a usage, and otherwise those selected for a task without any measure. */
  predicate ReportsModel(t: TaskMetrics, u: Usage) {
    && (u.model.Some? ==> t.model == u.model)
    && (u.provider.Some? ==> t.provider == u.provider)
    && (u.model.None? ==>
          t.model == if Unmeasured(u) && u.selection.Some? then Some(u.selection.value.model) else None)
    && (u.provider.None? ==>
          t.provider == if Unmeasured(u) && u.selection.Some? then Some(u.selection.value.provider) else None)
  }

  ghost predicate ReportsTask(t: TaskMetrics, created: MetricEvent, events: seq<MetricEvent>) {
    && created.Created? && t.id == created.id && t.task == created.title && t.taskId == created.taskId
    && LastFinished(events, created.id) == Some(t.end)
    && ReportsSkills(t.skills, created.id, events)
    && match LastOutput(events, created.id)
       case Some(Some(u)) =>
         && t.tokens == u.tokens && t.cost == u.cost && ReportsModel(t, u)
         && t.durationMs == if u.durationMs.Some? then u.durationMs.value else 0.0
       case _ => t.tokens.None? && t.cost.None? && t.durationMs == 0.0 && t.model.None? && t.provider.None?
  }

  lemma {:induction false} SeenIsListed(events: seq<MetricEvent>, id: string, activityId: string)
    ensures Seen(events, id, activityId) <==> Has(FirstSeen(events, id), activityId)
  {
    if events != [] {
      var before, last := events[..|events| - 1], events[|events| - 1];
      assert events == before + [last];
      SeenIsListed(before, id, activityId);
      assert Seen(events, id, activityId) <==>
             Seen(before, id, activityId) || (last.Activity? && last.id == id && last.activityId == activityId);
      if last.Activity? && last.id == id && !Seen(before, id, last.activityId) {
        SeenIsListed(before, id, last.activityId);
        PutNewIsLast(FirstSeen(before, id), last.activityId, last.name);
        GetPut(FirstSeen(before, id), last.activityId, last.name);
      }
    }
  }

  /** The ledger holds the activities that are counted. */
  lemma {:induction false} NotedActivities(events: seq<MetricEvent>, id: string)
    ensures Get(NoteAll(events).activities, id) ==
            if Considered(events, id) == [] then None else Some(Considered(events, id))
  {
    if events != [] {
      var before, last := events[..|events| - 1], events[|events| - 1];
      NotedActivities(before, id);
      hide NoteAll, Seen, SkillsFit;
      var l := NoteAll(before);
      assert NoteAll(events) == Note(l, last) by { NoteLast(before, last); assert events == before + [last]; }
      if last.Activity? {
        GetPut(l.activities, last.id, NoteActivity(ActivitiesOf(l, last.id), last.activityId, last.name));
        if last.id == id {
          SeenIsListed(before, id, last.activityId);
          ActivityConsidered(FirstSeen(before, id), last.activityId, last.name);
        }
      }
    }
  }

  lemma {:induction false} ActivityConsidered(all: Activities, activityId: string, name: string)
    ensures var next := if Has(all, activityId) then all else all + [(activityId, name)];
            NoteActivity(if |all| <= MAX_SKILLS then all else all[..MAX_SKILLS], activityId, name)
            == if |next| <= MAX_SKILLS then next else next[..MAX_SKILLS]
  {
    if !Has(all, activityId) && |all| <= MAX_SKILLS {
      PutNewIsLast(all, activityId, name);
    }
  }

  lemma {:induction false} NotedSummary(events: seq<MetricEvent>, id: string)
    ensures Get(NoteAll(events).summaries, id) == LastSummary(events, id)
  {
    hide SkillsFit;
    if events != [] {
      var before, last := NoteAll(events[..|events| - 1]), events[|events| - 1];
      NotedSummary(events[..|events| - 1], id);
      if last.SkillSummary? { GetPut(before.summaries, last.id, last.skills); }
    }
  }

  lemma {:induction false} CountedMembers(distinct: seq<string>, names: seq<string>)
    requires forall i, j | 0 <= i < j < |distinct| :: distinct[i] != distinct[j]
    ensures var counted := Counted(distinct, names);
            && |counted| == |distinct|
            && (forall n, k :: (n, k) in counted <==> n in distinct && k == Occurrences(names, n))
            && (forall i | 0 <= i < |counted| :: counted[i].0 == distinct[i])
  {
    hide Occurrences;
    if distinct != [] {
      CountedMembers(distinct[1..], names);
      var counted := Counted(distinct, names);
      assert counted == [counted[0]] + Counted(distinct[1..], names);
      assert distinct == [distinct[0]] + distinct[1..];
    }
  }

  lemma {:induction false} SkillsReported(events: seq<MetricEvent>, id: string)
    ensures ReportsSkills(SkillsOf(NoteAll(events), id), id, events)
  {
    NotedActivities(events, id);
    NotedSummary(events, id);
    hide NoteAll, Get, Considered, LastSummary, Distinct, Occurrences, Counted;
    var names := Names(Considered(events, id));
    DistinctNames(names);
    CountedMembers(Distinct(names), names);
    assert names == [] <==> Considered(events, id) == [];
    if names != [] { assert names[0] in names && names[0] in Distinct(names); }
  }

  lemma {:induction false} EntryReports(all: seq<MetricEvent>, created: MetricEvent)
    requires created.Created?
    ensures TaskEntry(NoteAll(all), created).Some? <==> LastFinished(all, created.id).Some?
    ensures TaskEntry(NoteAll(all), created).Some? ==> ReportsTask(TaskEntry(NoteAll(all), created).value, created, all)
  {
    NotedResult(all, created.id);
    SkillsReported(all, created.id);
    hide NoteAll, LastFinished, LastOutput, Get, SkillsOf, ReportsSkills;
  }

  lemma {:induction false} NotedCreation(l: Ledger, e: MetricEvent)
    ensures Note(l, e).created == if e.Created? then l.created + [e] else l.created
  {
  }

  lemma {:induction false} EntriesAreFinished(events: seq<MetricEvent>, all: seq<MetricEvent>)
    ensures var tasks, made := TaskEntries(NoteAll(all), NoteAll(events).created), FinishedCreations(events, all);
            |tasks| == |made| && forall k | 0 <= k < |made| :: ReportsTask(tasks[k], made[k], all)
  {
    hide Note, TaskEntry, ReportsTask, LastFinished;
    if events != [] {
      var n := |events| - 1;
      EntriesAreFinished(events[..n], all);
      var before := NoteAll(events[..n]).created;
      NotedCreation(NoteAll(events[..n]), events[n]);
      assert NoteAll(events).created == if events[n].Created? then before + [events[n]] else before;
      if events[n].Created? {
        EntryReports(all, events[n]);
        assert (before + [events[n]])[..|before|] == before;
      }
    }
  }

  /** One entry for each task that was created and finished, in order of creation, with its last terminal state, usage, model and skills. */
  lemma {:induction false} TasksAreFinishedCreations(events: seq<MetricEvent>, runId: string)
    ensures var tasks, made := Derive(events, runId).tasks, FinishedCreations(events, events);
            |tasks| == |made| && forall k | 0 <= k < |made| :: ReportsTask(tasks[k], made[k], events)
  {
    EntriesAreFinished(events, events);
  }

  // ----- duration ----------------------------------------------------------------

  lemma {:induction false} LongestIsGreatest(base: real, tasks: seq<TaskMetrics>)
    ensures LongestOf(base, tasks) >= base && forall t <- tasks :: LongestOf(base, tasks) >= t.durationMs
    ensures LongestOf(base, tasks) == base || exists t <- tasks :: LongestOf(base, tasks) == t.durationMs
  {
    if tasks != [] {
      LongestIsGreatest(base, tasks[..|tasks| - 1]);
      assert tasks == tasks[..|tasks| - 1] + [tasks[|tasks| - 1]];
      assert tasks[|tasks| - 1] in tasks;
    }
  }

  lemma {:induction false} HeartbeatIsGreatest(events: seq<MetricEvent>)
    ensures forall i | 0 <= i < |events| && events[i].Heartbeat? :: NoteAll(events).heartbeat >= events[i].elapsedMs
    ensures NoteAll(events).heartbeat == 0.0 || Heartbeat(NoteAll(events).heartbeat) in events
    ensures NoteAll(events).heartbeat >= 0.0
  {
    if events != [] {
      var n := |events| - 1;
      HeartbeatIsGreatest(events[..n]);
      assert events == events[..n] + [events[n]];
      hide Note;
      assert NoteAll(events) == Note(NoteAll(events[..n]), events[n]);
    }
  }

  /** The duration is the greatest of the heartbeats and the reported tasks' durations, or zero without any. */
  lemma {:induction false} DurationIsGreatest(events: seq<MetricEvent>, runId: string)
    ensures var d := Derive(events, runId).durationMs;
            && (forall i | 0 <= i < |events| && events[i].Heartbeat? :: d >= events[i].elapsedMs)
            && (forall t <- Derive(events, runId).tasks :: d >= t.durationMs)
            && (d == 0.0 || Heartbeat(d) in events ||
                (exists t <- Derive(events, runId).tasks :: d == t.durationMs))
  {
    HeartbeatIsGreatest(events);
    LongestIsGreatest(NoteAll(events).heartbeat, Derive(events, runId).tasks);
  }

  // ----- totals --------------------------------------------------------------------

  const NO_TOTALS := Totals(0, 0, 0, 0, 0, 0.0)

  function Share(output: Option<Option<Usage>>): Totals {
    if output.Some? then AddUsage(NO_TOTALS, output.value) else NO_TOTALS
  }

  function Plus(a: Totals, b: Totals): Totals {
    Totals(a.input + b.input, a.output + b.output, a.reasoning + b.reasoning,
           a.cacheRead + b.cacheRead, a.cacheWrite + b.cacheWrite, a.cost + b.cost)
  }

  lemma {:induction false} PlusRegroups(a: Totals, b: Totals, c: Totals)
    ensures Plus(a, Plus(b, c)) == Plus(Plus(a, b), c) && Plus(a, b) == Plus(b, a) && Plus(a, NO_TOTALS) == a
  {
  }

  lemma {:induction false} AddIsPlus(t: Totals, metrics: Option<Usage>)
    ensures AddUsage(t, metrics) == Plus(t, Share(Some(metrics)))
  {
  }

  lemma {:induction false} TotalUnfold(outputs: OrderedMap<string, Option<Usage>>)
    requires outputs != []
    ensures Total(outputs) == Plus(Share(Some(outputs[0].1)), Total(outputs[1..]))
  {
    hide AddUsage, Plus, Share;
    var n := |outputs| - 1;
    AddIsPlus(Total(outputs[..n]), outputs[n].1);
    if n > 0 {
      TotalUnfold(outputs[..n]);
      assert outputs[..n][1..] == outputs[1..][..n - 1];
      AddIsPlus(Total(outputs[1..][..n - 1]), outputs[n].1);
      PlusRegroups(Share(Some(outputs[0].1)), Total(outputs[1..][..n - 1]), Share(Some(outputs[n].1)));
    } else {
      PlusRegroups(NO_TOTALS, Share(Some(outputs[0].1)), NO_TOTALS);
      assert outputs[1..] == [] && outputs[..0] == [];
    }
  }

  lemma {:induction false} Exchange(a: Totals, b: Totals, c: Totals, d: Totals, x: Totals)
    requires Plus(a, b) == Plus(c, d)
    ensures Plus(Plus(x, a), b) == Plus(Plus(x, c), d)
  {
    PlusRegroups(x, a, b);
    PlusRegroups(x, c, d);
  }

  lemma {:induction false} TotalPut(outputs: OrderedMap<string, Option<Usage>>, id: string, metrics: Option<Usage>)
    ensures Plus(Total(Put(outputs, id, metrics)), Share(Get(outputs, id))) == Plus(Total(outputs), Share(Some(metrics)))
  {
    hide AddUsage, Plus, Total;
    var after := Put(outputs, id, metrics);
    TotalUnfold(after);
    if outputs == [] {
      assert after[1..] == outputs;
      NothingTotal(Share(Some(metrics)));
    } else {
      TotalUnfold(outputs);
      if outputs[0].0 != id {
        TotalPut(outputs[1..], id, metrics);
        assert after[1..] == Put(outputs[1..], id, metrics);
        Exchange(Total(after[1..]), Share(Get(outputs, id)), Total(outputs[1..]), Share(Some(metrics)), Share(Some(outputs[0].1)));
      } else {
        assert after[1..] == outputs[1..];
        PlusRegroups(Share(Some(metrics)), Total(outputs[1..]), Share(Some(outputs[0].1)));
        PlusRegroups(Share(Some(outputs[0].1)), Total(outputs[1..]), Share(Some(metrics)));
        PlusRegroups(Total(outputs[1..]), Share(Some(metrics)), Share(Some(outputs[0].1)));
        PlusRegroups(Share(Some(metrics)), Share(Some(outputs[0].1)), Total(outputs[1..]));
        PlusRegroups(Share(Some(outputs[0].1)), Share(Some(metrics)), Total(outputs[1..]));
      }
    }
  }

  lemma {:induction false} NothingTotal(t: Totals)
    ensures Total([]) == NO_TOTALS && Plus(Plus(t, NO_TOTALS), NO_TOTALS) == Plus(NO_TOTALS, t)
    ensures Share(None) == NO_TOTALS
  {
  }

  lemma {:induction false} NotedOutput(l: Ledger, id: string, metrics: Option<Usage>)
    ensures Note(l, Output(id, metrics)).outputs == Put(l.outputs, id, metrics)
  {
  }

  /** The totals count the last output of each invocation once: a later one takes the earlier one's place. */
  lemma {:induction false} LaterOutputReplaces(events: seq<MetricEvent>, runId: string, id: string, metrics: Option<Usage>)
    ensures Plus(Derive(events + [Output(id, metrics)], runId).totals, Share(LastOutput(events, id)))
         == Plus(Derive(events, runId).totals, Share(Some(metrics)))
    ensures Derive(events + [Output(id, metrics)], runId).totalTokens + TokensIn(Share(LastOutput(events, id)))
         == Derive(events, runId).totalTokens + TokensIn(Share(Some(metrics)))
  {
    hide Note, Plus, Total, TaskEntries, LongestOf, Share, TokensIn;
    assert (events + [Output(id, metrics)])[..|events|] == events;
    NotedResult(events, id);
    NotedOutput(NoteAll(events), id, metrics);
    TotalPut(NoteAll(events).outputs, id, metrics);
    TokensAdd(Derive(events + [Output(id, metrics)], runId).totals, Share(LastOutput(events, id)));
    TokensAdd(Derive(events, runId).totals, Share(Some(metrics)));
  }

  lemma {:induction false} TokensAdd(a: Totals, b: Totals)
    ensures TokensIn(Plus(a, b)) == TokensIn(a) + TokensIn(b)
  {
  }

  /** Nothing but outputs changes the totals. */
  lemma {:induction false} OnlyOutputsCount(events: seq<MetricEvent>, runId: string, e: MetricEvent)
    requires !e.Output?
    ensures Derive(events + [e], runId).totals == Derive(events, runId).totals
  {
    assert (events + [e])[..|events|] == events;
  }
}
