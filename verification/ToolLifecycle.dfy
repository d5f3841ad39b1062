/**
 The lifecycle of ACP tool calls: which are opened, reported and closed by the chunks of a
 stream and by the end of an attempt.
 */
module ToolLifecycle {
  import opened Wrappers

  datatype Key = Key(attempt: nat, id: string)

  datatype End = Success | Failure | Incomplete | Cancelled

  datatype Activity = Started | Progress | Succeeded | Failed

  /** What the sinks are told. */
  datatype Event = Opened(key: Key) | Closed(key: Key, end: End) | Reported(key: Key, activity: Activity)

  datatype Record = Record(key: Key, name: string, end: Option<End>)

  /** `input` is the length of a textual input; `fits` whether a result has a JSON size within its limit. */
  datatype Chunk = Malformed | Other | Call(id: string, name: string, input: Option<nat>)
                 | Result(id: string, name: string, failed: bool, fits: bool)

  /** `log` and `threw` are history. */
  datatype Reducer = Reducer(records: seq<Record>, activities: nat, inputLength: nat, log: seq<Event>, threw: bool)

  datatype Op = Consume(chunk: Chunk, attempt: nat) | FinishAttempt(attempt: nat, end: End)

  const MAX_RECORDS := 1024
  const MAX_ACTIVITIES := 1024
  const MAX_INPUT := 1000000

  const START := Reducer([], 0, 0, [], false)

  /** The place of the record of a call; past the end when there is none. */
  function IndexOf(records: seq<Record>, key: Key): nat {
    if records == [] then 0 else if records[0].key == key then 0 else 1 + IndexOf(records[1..], key)
  }

  function Say(r: Reducer, e: Event): Reducer {
    r.(log := r.log + [e])
  }

  function Throw(r: Reducer): Reducer {
    r.(threw := true)
  }

  function Emit(r: Reducer, key: Key, activity: Activity, input: Option<nat>): Reducer {
    var counted := r.(activities := r.activities + 1);
    if counted.activities > MAX_ACTIVITIES then Throw(counted)
    else
      var measured := if input.Some? then counted.(inputLength := r.inputLength + input.value) else counted;
      if input.Some? && measured.inputLength > MAX_INPUT then Throw(measured) else Say(measured, Reported(key, activity))
  }

  function OnCall(r: Reducer, key: Key, name: string, input: Option<nat>): Reducer {
    var at := IndexOf(r.records, key);
    if at < |r.records| then
      if r.records[at].end.Some? || r.records[at].name != name then r else Emit(r, key, Progress, input)
    else if |r.records| >= MAX_RECORDS then Throw(r)
    else Emit(Say(r.(records := r.records + [Record(key, name, None)]), Opened(key)), key, Started, input)
  }

  function OnResult(r: Reducer, key: Key, name: string, failed: bool, fits: bool): Reducer {
    var at := IndexOf(r.records, key);
    var end := if failed then Failure else Success;
    if at >= |r.records| then Throw(r)
    else if r.records[at].end.Some? || r.records[at].name != name then r
    else if !fits then Throw(r)
    else Emit(Say(r.(records := r.records[at := r.records[at].(end := Some(end))]), Closed(key, end)),
              key, if failed then Failed else Succeeded, None)
  }

  predicate Finishes(record: Record, attempt: nat) {
    record.key.attempt == attempt && record.end.None?
  }

  /** Closes what is still open of an attempt, in the order it was opened. */
  function CloseFirst(r: Reducer, n: nat, attempt: nat, end: End): Reducer
    requires n <= |r.records|
  {
    if n == 0 then r
    else
      var before := CloseFirst(r, n - 1, attempt, end);
      if Finishes(r.records[n - 1], attempt) then CloseAt(before, n - 1, end) else before
  }

  function CloseAt(r: Reducer, at: nat, end: End): Reducer {
    if at < |r.records| then
      Say(r.(records := r.records[at := r.records[at].(end := Some(end))]), Closed(r.records[at].key, end))
    else r
  }

  function Step(r: Reducer, op: Op): Reducer {
    match op
    case FinishAttempt(attempt, end) => CloseFirst(r, |r.records|, attempt, end)
    case Consume(chunk, attempt) =>
      match chunk
      case Malformed => Throw(r)
      case Other => r
      case Call(id, name, input) => OnCall(r, Key(attempt, id), name, input)
      case Result(id, name, failed, fits) => OnResult(r, Key(attempt, id), name, failed, fits)
  }

  function Run(ops: seq<Op>): Reducer {
    if ops == [] then START else Step(Run(ops[..|ops| - 1]), ops[|ops| - 1])
  }

  // ----- the order of events ------------------------------------------------

  ghost predicate WasClosed(log: seq<Event>, key: Key) {
    exists i | 0 <= i < |log| :: log[i].Closed? && log[i].key == key
  }

  ghost predicate WasOpened(log: seq<Event>, key: Key) {
    exists i | 0 <= i < |log| :: log[i] == Opened(key)
  }

  /**
   What may follow a log: a call is opened once, closed once after that, reported as started when
   it opens, as in progress while it is open, and as ended when its result closes it.
   */
  ghost predicate MayFollow(log: seq<Event>, e: Event) {
    match e
    case Opened(key) => !WasOpened(log, key)
    case Closed(key, _) => WasOpened(log, key) && !WasClosed(log, key)
    case Reported(key, activity) =>
      match activity
      case Started => log != [] && log[|log| - 1] == Opened(key)
      case Progress => WasOpened(log, key) && !WasClosed(log, key)
      case Succeeded => log != [] && log[|log| - 1] == Closed(key, Success)
      case Failed => log != [] && log[|log| - 1] == Closed(key, Failure)
  }

  ghost predicate WellOrdered(log: seq<Event>) {
    forall i | 0 <= i < |log| :: MayFollow(log[..i], log[i])
  }

  ghost predicate DistinctKeys(records: seq<Record>) {
    forall i, j | 0 <= i < j < |records| :: records[i].key != records[j].key
  }

  /** The records are those opened, and the open ones those not closed. */
  ghost predicate Kept(r: Reducer) {
    && DistinctKeys(r.records) && |r.records| <= MAX_RECORDS
    && (forall key :: WasOpened(r.log, key) <==> IndexOf(r.records, key) < |r.records|)
    && (forall i | 0 <= i < |r.records| :: WasClosed(r.log, r.records[i].key) <==> r.records[i].end.Some?)
    && (forall key :: WasClosed(r.log, key) ==> WasOpened(r.log, key))
  }

  ghost predicate Inv(r: Reducer) {
    Kept(r) && WellOrdered(r.log)
  }

  // ----- proof --------------------------------------------------------------

  lemma {:induction false} IndexFound(records: seq<Record>, key: Key)
    ensures IndexOf(records, key) <= |records|
    ensures IndexOf(records, key) < |records| ==> records[IndexOf(records, key)].key == key
    ensures forall i | 0 <= i < |records| && records[i].key == key :: IndexOf(records, key) <= i
  {
    if records != [] && records[0].key != key {
      IndexFound(records[1..], key);
      assert forall i | 0 < i < |records| :: records[i] == records[1..][i - 1];
    }
  }

  lemma {:induction false} IndexIs(records: seq<Record>, i: nat)
    requires DistinctKeys(records) && i < |records|
    ensures IndexOf(records, records[i].key) == i
  {
    IndexFound(records, records[i].key);
  }

  lemma {:induction false} IndexAfter(records: seq<Record>, record: Record, key: Key)
    ensures IndexOf(records + [record], key) ==
            if IndexOf(records, key) < |records| then IndexOf(records, key)
            else if record.key == key then |records| else |records| + 1
  {
    if records != [] {
      assert (records + [record])[1..] == records[1..] + [record];
      IndexAfter(records[1..], record, key);
      IndexFound(records[1..], key);
    }
  }

  lemma {:induction false} IndexSame(records: seq<Record>, after: seq<Record>, key: Key)
    requires |records| == |after| && forall i | 0 <= i < |records| :: records[i].key == after[i].key
    ensures IndexOf(records, key) == IndexOf(after, key)
  {
    if records != [] { IndexSame(records[1..], after[1..], key); }
  }

  lemma {:induction false} OneMore(log: seq<Event>, e: Event)
    ensures forall key :: WasOpened(log + [e], key) <==> WasOpened(log, key) || e == Opened(key)
    ensures forall key :: WasClosed(log + [e], key) <==> WasClosed(log, key) || (e.Closed? && e.key == key)
    ensures WellOrdered(log + [e]) <==> WellOrdered(log) && MayFollow(log, e)
  {
    hide MayFollow;
    var all := log + [e];
    assert all[..|log|] == log && all[|log|] == e;
    assert forall i | 0 <= i < |log| :: all[..i] == log[..i] && all[i] == log[i];
    assert WellOrdered(all) ==> WellOrdered(log) by {
      if WellOrdered(all) {
        forall i | 0 <= i < |log| ensures MayFollow(log[..i], log[i]) { assert MayFollow(all[..i], all[i]); }
      }
    }
    assert WellOrdered(all) ==> MayFollow(all[..|log|], all[|log|]);
    forall key ensures WasOpened(all, key) <==> WasOpened(log, key) || e == Opened(key) { OpenedOneMore(log, e, key); }
    forall key ensures WasClosed(all, key) <==> WasClosed(log, key) || (e.Closed? && e.key == key) { ClosedOneMore(log, e, key); }
  }

  lemma {:induction false} OpenedOneMore(log: seq<Event>, e: Event, key: Key)
    ensures WasOpened(log + [e], key) <==> WasOpened(log, key) || e == Opened(key)
  {
    var all := log + [e];
    if WasOpened(log, key) {
      var i :| 0 <= i < |log| && log[i] == Opened(key);
      assert all[i] == Opened(key);
    }
    if e == Opened(key) { assert all[|log|] == Opened(key); }
  }

  lemma {:induction false} ClosedOneMore(log: seq<Event>, e: Event, key: Key)
    ensures WasClosed(log + [e], key) <==> WasClosed(log, key) || (e.Closed? && e.key == key)
  {
    var all := log + [e];
    if WasClosed(log, key) {
      var i :| 0 <= i < |log| && log[i].Closed? && log[i].key == key;
      assert all[i].Closed? && all[i].key == key;
    }
    if e.Closed? && e.key == key { assert all[|log|].Closed? && all[|log|].key == key; }
  }

  lemma {:induction false} EmitKeeps(r: Reducer, key: Key, activity: Activity, input: Option<nat>)
    requires Inv(r) && MayFollow(r.log, Reported(key, activity))
    ensures Inv(Emit(r, key, activity, input)) && Emit(r, key, activity, input).records == r.records
  {
    hide MayFollow, WellOrdered, WasOpened, WasClosed, DistinctKeys, IndexOf;
    OneMore(r.log, Reported(key, activity));
  }

  lemma {:induction false} OpenKeeps(r: Reducer, key: Key, name: string)
    requires Inv(r) && IndexOf(r.records, key) >= |r.records| && |r.records| < MAX_RECORDS
    ensures Inv(Say(r.(records := r.records + [Record(key, name, None)]), Opened(key)))
  {
    hide WellOrdered, WasOpened, WasClosed, IndexOf;
    OneMore(r.log, Opened(key));
    IndexFound(r.records, key);
    var after := r.records + [Record(key, name, None)];
    forall k ensures IndexOf(after, k) < |after| <==> IndexOf(r.records, k) < |r.records| || k == key {
      IndexAfter(r.records, Record(key, name, None), k);
      IndexFound(r.records, k);
    }
  }

  lemma {:induction false} CloseKeeps(r: Reducer, at: nat, end: End)
    requires Inv(r) && at < |r.records| && r.records[at].end.None?
    ensures Inv(CloseAt(r, at, end))
  {
    hide WellOrdered, WasOpened, WasClosed, IndexOf;
    var after := CloseAt(r, at, end);
    OneMore(r.log, Closed(r.records[at].key, end));
    IndexIs(r.records, at);
    forall k ensures IndexOf(after.records, k) == IndexOf(r.records, k) {
      IndexSame(r.records, after.records, k);
    }
  }

  lemma {:induction false} CallKeeps(r: Reducer, key: Key, name: string, input: Option<nat>)
    requires Inv(r)
    ensures Inv(OnCall(r, key, name, input))
  {
    hide WellOrdered, WasOpened, WasClosed, IndexOf, Emit;
    var at := IndexOf(r.records, key);
    IndexFound(r.records, key);
    if at < |r.records| && r.records[at].end.None? && r.records[at].name == name {
      EmitKeeps(r, key, Progress, input);
    } else if at >= |r.records| && |r.records| < MAX_RECORDS {
      OpenKeeps(r, key, name);
      EmitKeeps(Say(r.(records := r.records + [Record(key, name, None)]), Opened(key)), key, Started, input);
    }
  }

  lemma {:induction false} ResultKeeps(r: Reducer, key: Key, name: string, failed: bool, fits: bool)
    requires Inv(r)
    ensures Inv(OnResult(r, key, name, failed, fits))
  {
    hide WellOrdered, WasOpened, WasClosed, IndexOf, Emit;
    var at := IndexOf(r.records, key);
    IndexFound(r.records, key);
    if at < |r.records| && r.records[at].end.None? && r.records[at].name == name && fits {
      var end := if failed then Failure else Success;
      CloseKeeps(r, at, end);
      EmitKeeps(CloseAt(r, at, end), key, if failed then Failed else Succeeded, None);
    }
  }

  /** Closing one record after another leaves the others as they are. */
  lemma {:induction false} CloseFirstKeeps(r: Reducer, n: nat, attempt: nat, end: End)
    requires Inv(r) && n <= |r.records|
    ensures var after := CloseFirst(r, n, attempt, end);
            && Inv(after) && |after.records| == |r.records|
            && (forall i | 0 <= i < |r.records| ::
                  after.records[i] == if i < n && Finishes(r.records[i], attempt) then r.records[i].(end := Some(end))
                                      else r.records[i])
  {
    hide Inv;
    if n > 0 {
      CloseFirstKeeps(r, n - 1, attempt, end);
      if Finishes(r.records[n - 1], attempt) {
        CloseKeeps(CloseFirst(r, n - 1, attempt, end), n - 1, end);
      }
    }
  }

  lemma {:induction false} RunKeeps(ops: seq<Op>)
    ensures Inv(Run(ops))
  {
    if ops != [] {
      hide Inv, OnCall, OnResult, CloseFirst;
      var r, op := Run(ops[..|ops| - 1]), ops[|ops| - 1];
      RunKeeps(ops[..|ops| - 1]);
      match op
      case FinishAttempt(attempt, end) => CloseFirstKeeps(r, |r.records|, attempt, end);
      case Consume(chunk, attempt) =>
        match chunk
        case Call(id, name, input) => CallKeeps(r, Key(attempt, id), name, input);
        case Result(id, name, failed, fits) => ResultKeeps(r, Key(attempt, id), name, failed, fits);
        case Malformed => 
        case Other =>
    }
  }

  // ----- what every run guarantees -------------------------------------------

  /** Whatever the stream holds, each call is opened, reported and closed in order, and at most once. */
  lemma {:induction false} LifecyclesAreOrdered(ops: seq<Op>)
    ensures WellOrdered(Run(ops).log)
    ensures forall key :: WasClosed(Run(ops).log, key) ==> WasOpened(Run(ops).log, key)
    ensures |Run(ops).records| <= MAX_RECORDS
  {
    RunKeeps(ops);
  }

  /** Finishing an attempt leaves none of its calls open, even when a limit was exceeded in it. */
  lemma {:induction false} FinishedAttemptsAreClosed(ops: seq<Op>, attempt: nat, end: End, key: Key)
    requires key.attempt == attempt && WasOpened(Run(ops + [FinishAttempt(attempt, end)]).log, key)
    ensures WasClosed(Run(ops + [FinishAttempt(attempt, end)]).log, key)
  {
    hide WasOpened, WasClosed, IndexOf, CloseFirst;
    var all := ops + [FinishAttempt(attempt, end)];
    assert all[..|ops|] == ops;
    RunKeeps(ops);
    var r := Run(ops);
    CloseFirstKeeps(r, |r.records|, attempt, end);
    RunKeeps(all);
    IndexFound(Run(all).records, key);
    var at := IndexOf(Run(all).records, key);
    assert Run(all).records[at].end.Some?;
  }

  function Reports(log: seq<Event>): nat {
    if log == [] then 0 else Reports(log[..|log| - 1]) + if log[|log| - 1].Reported? then 1 else 0
  }

  ghost predicate Counted(r: Reducer) {
    Reports(r.log) <= r.activities && (r.activities > MAX_ACTIVITIES ==> Reports(r.log) <= MAX_ACTIVITIES)
  }

  lemma {:induction false} SayCounts(r: Reducer, e: Event)
    ensures Reports(Say(r, e).log) == Reports(r.log) + if e.Reported? then 1 else 0
  {
    assert (r.log + [e])[..|r.log|] == r.log;
  }

  lemma {:induction false} EmitCounts(r: Reducer, key: Key, activity: Activity, input: Option<nat>)
    requires Counted(r)
    ensures Counted(Emit(r, key, activity, input))
  {
    SayCounts(r, Reported(key, activity));
  }

  lemma {:induction false} CloseFirstCounts(r: Reducer, n: nat, attempt: nat, end: End)
    requires n <= |r.records|
    ensures var after := CloseFirst(r, n, attempt, end);
            Reports(after.log) == Reports(r.log) && after.activities == r.activities
  {
    if n > 0 {
      CloseFirstCounts(r, n - 1, attempt, end);
      var before := CloseFirst(r, n - 1, attempt, end);
      if n - 1 < |before.records| { SayCounts(before, Closed(before.records[n - 1].key, end)); }
    }
  }

  /** No more activities are ever reported than the limit. */
  lemma {:induction false} ActivitiesAreLimited(ops: seq<Op>)
    ensures Counted(Run(ops)) && Reports(Run(ops).log) <= MAX_ACTIVITIES
  {
    hide Reports, Emit, CloseFirst, IndexOf;
    if ops == [] {
      assert Reports([]) == 0 by { NoReports(); }
    } else {
      var r, op := Run(ops[..|ops| - 1]), ops[|ops| - 1];
      ActivitiesAreLimited(ops[..|ops| - 1]);
      match op
      case FinishAttempt(attempt, end) => CloseFirstCounts(r, |r.records|, attempt, end);
      case Consume(Call(id, name, input), attempt) =>
        var key := Key(attempt, id);
        var begun := Say(r.(records := r.records + [Record(key, name, None)]), Opened(key));
        SayCounts(r.(records := r.records + [Record(key, name, None)]), Opened(key));
        EmitCounts(r, key, Progress, input);
        EmitCounts(begun, key, Started, input);
      case Consume(Result(id, name, failed, _), attempt) =>
        var key, end := Key(attempt, id), if failed then Failure else Success;
        var at := IndexOf(r.records, key);
        if at < |r.records| {
          var after := r.(records := r.records[at := r.records[at].(end := Some(end))]);
          SayCounts(after, Closed(key, end));
          EmitCounts(Say(after, Closed(key, end)), key, if failed then Failed else Succeeded, None);
        }
      case _ =>
    }
  }

  lemma {:induction false} NoReports()
    ensures Reports([]) == 0
  {
  }

  /** Every opening is reported at once. */
  ghost predicate Announced(log: seq<Event>) {
    forall i | 0 <= i < |log| && log[i].Opened? :: i + 1 < |log| && log[i + 1] == Reported(log[i].key, Started)
  }

  lemma {:induction false} CloseFirstAnnounces(r: Reducer, n: nat, attempt: nat, end: End)
    requires n <= |r.records| && Announced(r.log)
    ensures Announced(CloseFirst(r, n, attempt, end).log) && CloseFirst(r, n, attempt, end).threw == r.threw
  {
    if n > 0 { CloseFirstAnnounces(r, n - 1, attempt, end); }
  }

  lemma {:induction false} StepAnnounces(r: Reducer, op: Op)
    requires Announced(r.log) && !Step(r, op).threw
    ensures Announced(Step(r, op).log) && !r.threw
  {
    hide IndexOf, CloseFirst;
    if op.FinishAttempt? { CloseFirstAnnounces(r, |r.records|, op.attempt, op.end); }
  }

  /** As long as nothing throws, every call that is opened is reported as started before anything else happens. */
  lemma {:induction false} OpeningsAreReported(ops: seq<Op>)
    requires !Run(ops).threw
    ensures Announced(Run(ops).log)
  {
    hide Step;
    if ops != [] {
      ThrowSticks(Run(ops[..|ops| - 1]), ops[|ops| - 1]);
      OpeningsAreReported(ops[..|ops| - 1]);
      StepAnnounces(Run(ops[..|ops| - 1]), ops[|ops| - 1]);
    }
  }

  lemma {:induction false} ThrowSticks(r: Reducer, op: Op)
    requires !Step(r, op).threw
    ensures !r.threw
  {
    hide IndexOf, CloseFirst;
    if op.FinishAttempt? { CloseFirstKeepsThrown(r, |r.records|, op.attempt, op.end); }
  }

  lemma {:induction false} CloseFirstKeepsThrown(r: Reducer, n: nat, attempt: nat, end: End)
    requires n <= |r.records|
    ensures CloseFirst(r, n, attempt, end).threw == r.threw
  {
    if n > 0 { CloseFirstKeepsThrown(r, n - 1, attempt, end); }
  }

  // ----- the reports of one call ---------------------------------------------

  function ReportsOf(log: seq<Event>, key: Key): seq<Activity> {
    if log == [] then []
    else
      var before, last := ReportsOf(log[..|log| - 1], key), log[|log| - 1];
      if last.Reported? && last.key == key then before + [last.activity] else before
  }

  predicate Terminal(a: Activity) {
    a.Succeeded? || a.Failed?
  }

  /** At most one start, which comes first; then progress; then at most one end. */
  predicate StartedProgressedEnded(reports: seq<Activity>) {
    && (forall i | 0 <= i < |reports| && reports[i].Started? :: i == 0)
    && (forall i | 0 <= i < |reports| && Terminal(reports[i]) :: i == |reports| - 1)
  }

  /** What the order of events says about the reports of one call. */
  ghost predicate OneLife(log: seq<Event>, key: Key) {
    && StartedProgressedEnded(ReportsOf(log, key))
    && (!WasOpened(log, key) ==> ReportsOf(log, key) == [])
    && (!WasClosed(log, key) ==> forall a <- ReportsOf(log, key) :: !Terminal(a))
  }

  lemma {:induction false} ReportsOfMore(log: seq<Event>, e: Event, key: Key)
    ensures ReportsOf(log + [e], key) ==
            if e.Reported? && e.key == key then ReportsOf(log, key) + [e.activity] else ReportsOf(log, key)
  {
    assert (log + [e])[..|log|] == log;
  }

  lemma {:induction false} OrderedIsOneLife(log: seq<Event>, key: Key)
    requires WellOrdered(log)
    ensures OneLife(log, key)
  {
    hide WasOpened, WasClosed, WellOrdered, ReportsOf;
    if log == [] {
      NothingReported(key);
    } else {
      var before, e := log[..|log| - 1], log[|log| - 1];
      assert log == before + [e];
      OneMore(before, e);
      ReportsOfMore(before, e, key);
      OrderedIsOneLife(before, key);
      if e.Reported? && e.key == key && !e.activity.Progress? {
        // The event before is the opening or the closing of this call.
        var earlier, cause := before[..|before| - 1], before[|before| - 1];
        assert before == earlier + [cause];
        OneMore(earlier, cause);
        ReportsOfMore(earlier, cause, key);
        OrderedIsOneLife(earlier, key);
      }
    }
  }

  lemma {:induction false} NothingReported(key: Key)
    ensures ReportsOf([], key) == []
  {
  }

  /** Whatever the stream and whatever throws: a call starts at most once and first, and ends at most once and last. */
  lemma {:induction false} EachCallHasOneLife(ops: seq<Op>, key: Key)
    ensures StartedProgressedEnded(ReportsOf(Run(ops).log, key))
  {
    hide WasOpened, WasClosed, ReportsOf, Run;
    LifecyclesAreOrdered(ops);
    OrderedIsOneLife(Run(ops).log, key);
  }

  // ----- when a start is missing ---------------------------------------------

  /** The step opens the call, and a limit is exceeded while its start is reported. */
  predicate RefusesStart(r: Reducer, op: Op, key: Key) {
    && op.Consume? && op.chunk.Call? && Key(op.attempt, op.chunk.id) == key
    && IndexOf(r.records, key) >= |r.records| && |r.records| < MAX_RECORDS
    && (r.activities >= MAX_ACTIVITIES || (op.chunk.input.Some? && r.inputLength + op.chunk.input.value > MAX_INPUT))
  }

  ghost predicate StartRefused(ops: seq<Op>, key: Key) {
    exists i | 0 <= i < |ops| :: RefusesStart(Run(ops[..i]), ops[i], key)
  }

  /** A call that was opened starts its reports, and one whose start was refused never reports it. */
  ghost predicate Starts(log: seq<Event>, key: Key, refused: bool) {
    && (refused ==> WasOpened(log, key) && Started !in ReportsOf(log, key))
    && (WasOpened(log, key) && !refused ==> ReportsOf(log, key) != [] && ReportsOf(log, key)[0] == Started)
    && (!WasOpened(log, key) ==> ReportsOf(log, key) == [])
  }

  lemma {:induction false} SayStarts(log: seq<Event>, e: Event, key: Key, refused: bool)
    requires Starts(log, key, refused) && e != Opened(key) && (e == Reported(key, Started) ==> !WasOpened(log, key))
    requires e.Reported? && e.key == key ==> WasOpened(log, key)
    ensures Starts(log + [e], key, refused)
  {
    hide WasOpened, WasClosed, WellOrdered, ReportsOf;
    OneMore(log, e);
    ReportsOfMore(log, e, key);
  }

  lemma {:induction false} EmitStarts(r: Reducer, key: Key, activity: Activity, input: Option<nat>, other: Key, refused: bool)
    requires Starts(r.log, other, refused) && (key == other ==> WasOpened(r.log, key) && !activity.Started?)
    ensures Starts(Emit(r, key, activity, input).log, other, refused)
  {
    hide WasOpened, ReportsOf, Starts;
    SayStarts(r.log, Reported(key, activity), other, refused);
  }

  /** Opening a call reports its start, unless a limit refuses that. */
  lemma {:induction false} OpeningStarts(r: Reducer, op: Op, key: Key)
    requires Inv(r) && op.Consume? && op.chunk.Call? && Key(op.attempt, op.chunk.id) == key
    requires IndexOf(r.records, key) >= |r.records| && |r.records| < MAX_RECORDS && Starts(r.log, key, false)
    ensures Starts(Step(r, op).log, key, RefusesStart(r, op, key))
  {
    hide WasOpened, WasClosed, WellOrdered, ReportsOf, IndexOf, DistinctKeys;
    var begun := r.log + [Opened(key)];
    OneMore(r.log, Opened(key));
    ReportsOfMore(r.log, Opened(key), key);
    OneMore(begun, Reported(key, Started));
    ReportsOfMore(begun, Reported(key, Started), key);
  }

  lemma {:induction false} CloseFirstStarts(r: Reducer, n: nat, attempt: nat, end: End, key: Key, refused: bool)
    requires n <= |r.records| && Starts(r.log, key, refused)
    ensures Starts(CloseFirst(r, n, attempt, end).log, key, refused)
  {
    hide Starts;
    if n > 0 {
      CloseFirstStarts(r, n - 1, attempt, end, key, refused);
      var before := CloseFirst(r, n - 1, attempt, end);
      if n - 1 < |before.records| { SayStarts(before.log, Closed(before.records[n - 1].key, end), key, refused); }
    }
  }

  lemma {:induction false} StepStarts(r: Reducer, op: Op, key: Key, refused: bool)
    requires Inv(r) && Starts(r.log, key, refused)
    ensures Starts(Step(r, op).log, key, refused || RefusesStart(r, op, key))
  {
    hide WasOpened, WasClosed, WellOrdered, ReportsOf, IndexOf, DistinctKeys, Emit, Starts, CloseFirst;
    match op
    case FinishAttempt(attempt, end) => CloseFirstStarts(r, |r.records|, attempt, end, key, refused);
    case Consume(Call(id, name, input), attempt) =>
      var k, at := Key(attempt, id), IndexOf(r.records, Key(attempt, id));
      IndexFound(r.records, k);
      if at < |r.records| {
        EmitStarts(r, k, Progress, input, key, refused);
      } else if |r.records| < MAX_RECORDS && k == key {
        NotOpenedNotRefused(r, key, refused);
        OpeningStarts(r, op, key);
      } else if |r.records| < MAX_RECORDS {
        SayStarts(r.log, Opened(k), key, refused);
        EmitStarts(Say(r.(records := r.records + [Record(k, name, None)]), Opened(k)), k, Started, input, key, refused);
      }
    case Consume(Result(id, name, failed, fits), attempt) =>
      var k, end := Key(attempt, id), if failed then Failure else Success;
      var at := IndexOf(r.records, k);
      IndexFound(r.records, k);
      if at < |r.records| {
        SayStarts(r.log, Closed(k, end), key, refused);
        OneMore(r.log, Closed(k, end));
        EmitStarts(Say(r.(records := r.records[at := r.records[at].(end := Some(end))]), Closed(k, end)),
                   k, if failed then Failed else Succeeded, None, key, refused);
      }
    case _ =>
  }

  lemma {:induction false} NotOpenedNotRefused(r: Reducer, key: Key, refused: bool)
    requires Inv(r) && Starts(r.log, key, refused) && IndexOf(r.records, key) >= |r.records|
    ensures !refused
  {
    hide WasOpened, WasClosed, WellOrdered, ReportsOf, IndexOf;
  }

  lemma {:induction false} RefusedSoFar(ops: seq<Op>, key: Key)
    requires ops != []
    ensures var before, op := ops[..|ops| - 1], ops[|ops| - 1];
            StartRefused(ops, key) <==> StartRefused(before, key) || RefusesStart(Run(before), op, key)
  {
    hide RefusesStart, Run;
    var n := |ops| - 1;
    assert forall i | 0 <= i <= n :: ops[..n][..i] == ops[..i];
    assert RefusesStart(Run(ops[..n]), ops[n], key) ==> StartRefused(ops, key);
    if StartRefused(ops[..n], key) {
      var i :| 0 <= i < n && RefusesStart(Run(ops[..n][..i]), ops[..n][i], key);
      assert RefusesStart(Run(ops[..i]), ops[i], key);
    }
    if StartRefused(ops, key) {
      var i :| 0 <= i < |ops| && RefusesStart(Run(ops[..i]), ops[i], key);
      if i < n { assert RefusesStart(Run(ops[..n][..i]), ops[..n][i], key); }
    }
  }

  lemma {:induction false} RunStarts(ops: seq<Op>, key: Key)
    ensures Starts(Run(ops).log, key, StartRefused(ops, key))
  {
    hide Starts, Step, StartRefused, RefusesStart, Inv;
    if ops == [] {
      NothingStarts(key);
    } else {
      var before := ops[..|ops| - 1];
      RunKeeps(before);
      RunStarts(before, key);
      StepStarts(Run(before), ops[|ops| - 1], key, StartRefused(before, key));
      RefusedSoFar(ops, key);
    }
  }

  lemma {:induction false} NothingStarts(key: Key)
    ensures Starts([], key, StartRefused([], key)) && Run([]).log == []
  {
  }

  /** In every run the start of an opened call is reported, before anything else about it, if and only if no limit refused it. */
  lemma {:induction false} StartIsMissingExactly(ops: seq<Op>, key: Key)
    ensures WasOpened(Run(ops).log, key) ==> (Started in ReportsOf(Run(ops).log, key) <==> !StartRefused(ops, key))
    ensures ReportsOf(Run(ops).log, key) != [] ==> (ReportsOf(Run(ops).log, key)[0] == Started <==> !StartRefused(ops, key))
  {
    hide Run, WasOpened, ReportsOf, StartRefused;
    RunStarts(ops, key);
  }

  /** What the adapter does: once something has thrown it consumes no more. */
  ghost predicate StopsOnThrow(ops: seq<Op>) {
    forall i | 0 <= i < |ops| && ops[i].Consume? :: !Run(ops[..i]).threw
  }

  /** After a throw no more is said about a call that has no report yet. */
  ghost predicate Silent(r: Reducer, key: Key, refused: bool) {
    refused ==> r.threw && ReportsOf(r.log, key) == []
  }

  lemma {:induction false} CloseFirstSaysNothing(r: Reducer, n: nat, attempt: nat, end: End, key: Key)
    requires n <= |r.records|
    ensures ReportsOf(CloseFirst(r, n, attempt, end).log, key) == ReportsOf(r.log, key)
  {
    hide ReportsOf;
    if n > 0 {
      CloseFirstSaysNothing(r, n - 1, attempt, end, key);
      var before := CloseFirst(r, n - 1, attempt, end);
      if n - 1 < |before.records| { ReportsOfMore(before.log, Closed(before.records[n - 1].key, end), key); }
    }
  }

  lemma {:induction false} RefusalIsSilent(r: Reducer, op: Op, key: Key)
    requires RefusesStart(r, op, key)
    ensures Step(r, op).threw && Step(r, op).log == r.log + [Opened(key)]
  {
    hide IndexOf;
  }

  lemma {:induction false} StaysSilent(ops: seq<Op>, key: Key)
    requires StopsOnThrow(ops)
    ensures Silent(Run(ops), key, StartRefused(ops, key))
  {
    hide Step, StartRefused, RefusesStart, Inv, ReportsOf, WasOpened, WasClosed;
    if ops == [] {
      NothingStarts(key);
      assert !StartRefused([], key) by { NoneRefused(key); }
    } else {
      var n := |ops| - 1;
      var before, op := ops[..n], ops[n];
      assert forall i | 0 <= i < n :: before[..i] == ops[..i] && before[i] == ops[i];
      StaysSilent(before, key);
      RefusedSoFar(ops, key);
      if RefusesStart(Run(before), op, key) {
        RefusalIsSilent(Run(before), op, key);
        ReportsOfMore(Run(before).log, Opened(key), key);
        RunStarts(before, key);
        RefusedIsNew(before, op, key);
      } else if op.FinishAttempt? {
        CloseFirstSaysNothing(Run(before), |Run(before).records|, op.attempt, op.end, key);
        CloseFirstKeepsThrown(Run(before), |Run(before).records|, op.attempt, op.end);
        assert Run(ops) == CloseFirst(Run(before), |Run(before).records|, op.attempt, op.end) by { StepOfFinish(Run(before), op); }
      }
    }
  }

  lemma {:induction false} StepOfFinish(r: Reducer, op: Op)
    requires op.FinishAttempt?
    ensures Step(r, op) == CloseFirst(r, |r.records|, op.attempt, op.end)
  {
  }

  lemma {:induction false} NoneRefused(key: Key)
    ensures !StartRefused([], key)
  {
  }

  lemma {:induction false} RefusedIsNew(ops: seq<Op>, op: Op, key: Key)
    requires RefusesStart(Run(ops), op, key)
    ensures !WasOpened(Run(ops).log, key)
  {
    hide Run, WasOpened, WasClosed, WellOrdered, IndexOf;
    RunKeeps(ops);
  }

  /** Started, then progress, then at most one end. */
  predicate ProperLife(reports: seq<Activity>) {
    StartedProgressedEnded(reports) && (reports != [] ==> reports[0] == Started)
  }

  /** As long as nothing is consumed after a throw, the reports about a call begin with its start. */
  lemma {:induction false} ReportedCallsStart(ops: seq<Op>, key: Key)
    requires StopsOnThrow(ops)
    ensures ProperLife(ReportsOf(Run(ops).log, key))
  {
    hide Run, ReportsOf, StartRefused, WasOpened;
    EachCallHasOneLife(ops, key);
    RunStarts(ops, key);
    StaysSilent(ops, key);
  }

  /** A reducer that is fed on after a limit has thrown reports progress of a call that never started. */
  lemma {:induction false} ProgressWithoutStart(id: string, name: string, attempt: nat)
    ensures var ops := [Consume(Call(id, name, Some(MAX_INPUT + 1)), attempt), Consume(Call(id, name, None), attempt)];
            ReportsOf(Run(ops).log, Key(attempt, id)) == [Progress]
  {
    var first, second := Consume(Call(id, name, Some(MAX_INPUT + 1)), attempt), Consume(Call(id, name, None), attempt);
    var key := Key(attempt, id);
    var begun := Step(START, first);
    assert begun.records == [Record(key, name, None)] && begun.log == [Opened(key)];
    var after := Step(begun, second);
    assert after.log == [Opened(key), Reported(key, Progress)];
    hide Step;
    assert [first, second][..1] == [first] && [first][..0] == [];
    assert Run([]) == START && Run([first]) == begun && Run([first, second]) == after;
    NothingReported(key);
    ReportsOfMore([], Opened(key), key);
    ReportsOfMore([Opened(key)], Reported(key, Progress), key);
    assert [] + [Opened(key)] == [Opened(key)] && [Opened(key)] + [Reported(key, Progress)] == after.log;
  }
}
