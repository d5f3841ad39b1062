/**
 The Action-private projection of run events and the metrics derived from it.
 Run and work identities, which the derivation never reads, are left off the events.
 */
module RunMetrics {
  import opened Wrappers
  import opened OrderedMaps

  datatype RunEnd = RunSucceeded | RunFailed | RunCancelled

  datatype TaskEnd = TaskSucceeded | TaskFailed | TaskSkipped | TaskCancelled

  datatype Tokens = Tokens(input: nat, output: nat, reasoning: nat, cacheRead: nat, cacheWrite: nat, total: Option<nat>)

  datatype Model = Model(provider: string, model: string)

  datatype Usage = Usage(durationMs: Option<real>, model: Option<string>, provider: Option<string>,
                         selection: Option<Model>, tokens: Option<Tokens>, cost: Option<real>)

  /** An event of a run, as far as metrics are concerned. */
  datatype Event =
    | RunHeartbeat(elapsedMs: real)
    | RunEnded(end: RunEnd)
    | InvocationCreated(id: string, isTask: bool, taskId: Option<string>, title: string)
    | InvocationOutput(id: string, metrics: Option<Usage>)
    | InvocationActivity(id: string, activityId: string, isSkill: bool, name: string)
    | InvocationEnded(id: string, taskEnd: TaskEnd)
    | OtherEvent

  type Skills = seq<(string, nat)>

  /** A projected event. */
  datatype MetricEvent =
    | Heartbeat(elapsedMs: real)
    | Ended(end: RunEnd)
    | Created(id: string, taskId: Option<string>, title: string)
    | Output(id: string, metrics: Option<Usage>)
    | Activity(id: string, activityId: string, name: string)
    | SkillSummary(id: string, skills: Skills)
    | Finished(id: string, taskEnd: TaskEnd)

  /** `projectReviewMetricEvent`. */
  function Project(e: Event): Option<MetricEvent> {
    match e
    case RunHeartbeat(elapsed) => Some(Heartbeat(elapsed))
    case RunEnded(end) => Some(Ended(end))
    case InvocationCreated(id, isTask, taskId, title) => if isTask then Some(Created(id, taskId, title)) else None
    case InvocationOutput(id, metrics) => Some(Output(id, metrics))
    case InvocationActivity(id, activityId, isSkill, name) => if isSkill then Some(Activity(id, activityId, name)) else None
    case InvocationEnded(id, taskEnd) => Some(Finished(id, taskEnd))
    case OtherEvent => None
  }

  const MAX_NAME := 256
  const MAX_SKILLS := 128

  predicate NameFits(name: string) {
    1 <= |name| <= MAX_NAME
  }

  /** `reviewRunSkillUsageSchema`. */
  predicate SkillsFit(skills: Skills) {
    |skills| <= MAX_SKILLS && forall s <- skills :: NameFits(s.0) && s.1 > 0
  }

  /**
   The parse-or-project step: a summary that fails its schema has no projection
   and is lost, every other projected event comes through unchanged.
   */
  predicate Admitted(e: MetricEvent) {
    e.SkillSummary? ==> SkillsFit(e.skills)
  }

  // ----- the derivation ---------------------------------------------------

  type Activities = OrderedMap<string, string>

  datatype Ledger = Ledger(
    created: seq<MetricEvent>,
    outputs: OrderedMap<string, Option<Usage>>,
    results: OrderedMap<string, TaskEnd>,
    activities: OrderedMap<string, Activities>,
    summaries: OrderedMap<string, Skills>,
    heartbeat: real,
    ended: Option<RunEnd>)

  const EMPTY_LEDGER := Ledger([], [], [], [], [], 0.0, None)

  /** The first `MAX_SKILLS` distinct activities, under the name each was first seen with. */
  function NoteActivity(activities: Activities, activityId: string, name: string): Activities {
    if Has(activities, activityId) || |activities| >= MAX_SKILLS then activities else Put(activities, activityId, name)
  }

  function ActivitiesOf(l: Ledger, id: string): Activities {
    match Get(l.activities, id) case Some(a) => a case None => []
  }

  function Max(a: real, b: real): real {
    if a >= b then a else b
  }

  function Note(l: Ledger, e: MetricEvent): Ledger {
    if !Admitted(e) then l
    else match e
      case Heartbeat(elapsed) => l.(heartbeat := Max(l.heartbeat, elapsed))
      case Ended(end) => l.(ended := Some(end))
      case Created(_, _, _) => l.(created := l.created + [e])
      case Output(id, metrics) => l.(outputs := Put(l.outputs, id, metrics))
      case Activity(id, activityId, name) =>
        l.(activities := Put(l.activities, id, NoteActivity(ActivitiesOf(l, id), activityId, name)))
      case SkillSummary(id, skills) => l.(summaries := Put(l.summaries, id, skills))
      case Finished(id, end) => l.(results := Put(l.results, id, end))
  }

  function NoteAll(events: seq<MetricEvent>): Ledger {
    if events == [] then EMPTY_LEDGER else Note(NoteAll(events[..|events| - 1]), events[|events| - 1])
  }

  datatype Totals = Totals(input: nat, output: nat, reasoning: nat, cacheRead: nat, cacheWrite: nat, cost: real)

  function AddUsage(t: Totals, metrics: Option<Usage>): Totals {
    if metrics.None? then t
    else
      var usage := metrics.value;
      var cost := t.cost + match usage.cost case Some(c) => c case None => 0.0;
      match usage.tokens
      case None => t.(cost := cost)
      case Some(k) => Totals(t.input + k.input, t.output + k.output, t.reasoning + k.reasoning,
                             t.cacheRead + k.cacheRead, t.cacheWrite + k.cacheWrite, cost)
  }

  function Total(outputs: OrderedMap<string, Option<Usage>>): Totals {
    if outputs == [] then Totals(0, 0, 0, 0, 0, 0.0)
    else AddUsage(Total(outputs[..|outputs| - 1]), outputs[|outputs| - 1].1)
  }

  function TokensIn(t: Totals): nat {
    t.input + t.output + t.reasoning + t.cacheRead + t.cacheWrite
  }

  // ----- skills -----------------------------------------------------------

  function Names(activities: Activities): seq<string> {
    if activities == [] then [] else [activities[0].1] + Names(activities[1..])
  }

  function Distinct(names: seq<string>): seq<string> {
    if names == [] then []
    else
      var before, last := Distinct(names[..|names| - 1]), names[|names| - 1];
      if last in before then before else before + [last]
  }

  function Occurrences(names: seq<string>, name: string): nat {
    if names == [] then 0
    else Occurrences(names[..|names| - 1], name) + if names[|names| - 1] == name then 1 else 0
  }

  function Counted(distinct: seq<string>, names: seq<string>): Skills {
    if distinct == [] then [] else [(distinct[0], Occurrences(names, distinct[0]))] + Counted(distinct[1..], names)
  }

  /** How the derivation counts skills: filter the activities once for each distinct name. */
  function CountSkills(activities: Activities): Skills {
    Counted(Distinct(Names(activities)), Names(activities))
  }

  // ----- the result -------------------------------------------------------

  datatype TaskMetrics = TaskMetrics(id: string, task: string, taskId: Option<string>, end: TaskEnd, durationMs: real,
                                     model: Option<string>, provider: Option<string>, tokens: Option<Tokens>,
                                     cost: Option<real>, skills: Option<Skills>)

  datatype Metrics = Metrics(runId: string, outcome: RunEnd, durationMs: real, totals: Totals, totalTokens: nat,
                             tasks: seq<TaskMetrics>)

  function SkillsOf(l: Ledger, id: string): Option<Skills> {
    var skills := match Get(l.summaries, id)
                  case Some(s) => s
                  case None => match Get(l.activities, id) case Some(a) => CountSkills(a) case None => [];
    if skills == [] then None else Some(skills)
  }

  function Choose<T>(first: Option<T>, second: Option<T>): Option<T> {
    if first.Some? then first else second
  }

  /** The entry of one created task; a task without a terminal state has none. */
  function TaskEntry(l: Ledger, created: MetricEvent): Option<TaskMetrics>
    requires created.Created?
  {
    var end := Get(l.results, created.id);
    if end.None? then None
    else
      var output: Option<Option<Usage>> := Get(l.outputs, created.id);
      var u: Usage := if output.Some? && output.value.Some? then output.value.value
                      else Usage(None, None, None, None, None, None);
      var measured := u.durationMs.Some? || u.cost.Some? || u.tokens.Some?;
      var selected := if measured then None else u.selection;
      Some(TaskMetrics(created.id, created.title, created.taskId, end.value,
                       if u.durationMs.Some? then u.durationMs.value else 0.0,
                       Choose(u.model, if selected.Some? then Some(selected.value.model) else None),
                       Choose(u.provider, if selected.Some? then Some(selected.value.provider) else None),
                       u.tokens, u.cost, SkillsOf(l, created.id)))
  }

  function TaskEntries(l: Ledger, created: seq<MetricEvent>): seq<TaskMetrics> {
    if created == [] then []
    else
      var before, last := TaskEntries(l, created[..|created| - 1]), created[|created| - 1];
      if !last.Created? then before else match TaskEntry(l, last) case Some(t) => before + [t] case None => before
  }

  function LongestOf(base: real, tasks: seq<TaskMetrics>): real {
    if tasks == [] then base else Max(LongestOf(base, tasks[..|tasks| - 1]), tasks[|tasks| - 1].durationMs)
  }

  function Report(l: Ledger, runId: string): Metrics {
    var tasks, totals := TaskEntries(l, l.created), Total(l.outputs);
    Metrics(runId, if l.ended.Some? then l.ended.value else RunFailed, LongestOf(l.heartbeat, tasks), totals,
            TokensIn(totals), tasks)
  }

  function Derive(events: seq<MetricEvent>, runId: string): Metrics {
    Report(NoteAll(events), runId)
  }

  /** `deriveRunMetrics`: the loops over events, outputs, and created tasks. */
  method DeriveRunMetrics(events: seq<MetricEvent>, runId: string) returns (metrics: Metrics)
    ensures metrics == Derive(events, runId)
  {
    hide Note, TaskEntry, AddUsage;
    var ledger := EMPTY_LEDGER;
    for i := 0 to |events|
      invariant ledger == NoteAll(events[..i])
    {
      assert events[..i + 1][..i] == events[..i];
      ledger := Note(ledger, events[i]);
    }
    assert events[..|events|] == events;
    var totals := Totals(0, 0, 0, 0, 0, 0.0);
    for i := 0 to |ledger.outputs|
      invariant totals == Total(ledger.outputs[..i])
    {
      assert ledger.outputs[..i + 1][..i] == ledger.outputs[..i];
      totals := AddUsage(totals, ledger.outputs[i].1);
    }
    assert ledger.outputs[..|ledger.outputs|] == ledger.outputs;
    var tasks: seq<TaskMetrics> := [];
    for i := 0 to |ledger.created|
      invariant tasks == TaskEntries(ledger, ledger.created[..i])
    {
      var created := ledger.created[i];
      assert ledger.created[..i + 1][..i] == ledger.created[..i];
      if created.Created? {
        var entry := TaskEntry(ledger, created);
        if entry.Some? { tasks := tasks + [entry.value]; }
      }
    }
    assert ledger.created[..|ledger.created|] == ledger.created;
    var duration := ledger.heartbeat;
    for i := 0 to |tasks|
      invariant duration == LongestOf(ledger.heartbeat, tasks[..i])
    {
      assert tasks[..i + 1][..i] == tasks[..i];
      duration := Max(duration, tasks[i].durationMs);
    }
    assert tasks[..|tasks|] == tasks;
    metrics := Metrics(runId, if ledger.ended.Some? then ledger.ended.value else RunFailed, duration, totals,
                       TokensIn(totals), tasks);
  }
}
