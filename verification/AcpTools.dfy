/**
 The reducer of ACP tool chunks and its projection onto spans, updated in place.  Their
 methods refine the steps of `ToolLifecycle` and `ToolSpans`.
 */
module AcpTools {
  import opened Wrappers
  import opened ToolLifecycle
  import opened ToolSpans

  class AcpToolReducer {
    var records: seq<Record>
    var recordCount: nat
    var activityCount: nat
    var activityInputLength: nat
    ghost var log: seq<Event>
    ghost var threw: bool

    ghost function View(): Reducer reads this {
      Reducer(records, activityCount, activityInputLength, log, threw)
    }

    ghost predicate Valid() reads this {
      recordCount == |records|
    }

    constructor ()
      ensures Valid() && View() == ToolLifecycle.START
    {
      records, recordCount, activityCount, activityInputLength, log, threw := [], 0, 0, 0, [], false;
    }

    method EmitActivity(key: Key, activity: Activity, input: Option<nat>) returns (ok: bool)
      modifies this`activityCount, this`activityInputLength, this`log, this`threw
      ensures View() == Emit(old(View()), key, activity, input)
      ensures ok <==> log == old(log) + [Reported(key, activity)]
    {
      activityCount := activityCount + 1;
      if activityCount > MAX_ACTIVITIES {
        threw := true;
        return false;
      }
      if input.Some? {
        activityInputLength := activityInputLength + input.value;
        if activityInputLength > MAX_INPUT {
          threw := true;
          return false;
        }
      }
      log := log + [Reported(key, activity)];
      return true;
    }

    method OnCallChunk(attempt: nat, id: string, name: string, input: Option<nat>)
      requires Valid()
      modifies this
      ensures Valid() && View() == OnCall(old(View()), Key(attempt, id), name, input)
    {
      var key := Key(attempt, id);
      var at := IndexOf(records, key);
      if at < |records| {
        if records[at].end.Some? || records[at].name != name {
          return;
        }
        var _ := EmitActivity(key, Progress, input);
        return;
      }
      if recordCount >= MAX_RECORDS {
        threw := true;
        return;
      }
      recordCount := recordCount + 1;
      records := records + [Record(key, name, None)];
      log := log + [Opened(key)];
      var _ := EmitActivity(key, Started, input);
    }

    method OnResultChunk(attempt: nat, id: string, name: string, failed: bool, fits: bool)
      requires Valid()
      modifies this
      ensures Valid() && View() == OnResult(old(View()), Key(attempt, id), name, failed, fits)
    {
      var key := Key(attempt, id);
      var at := IndexOf(records, key);
      if at >= |records| {
        threw := true;
        return;
      }
      if records[at].end.Some? || records[at].name != name {
        return;
      }
      if !fits {
        threw := true;
        return;
      }
      var end := if failed then Failure else Success;
      records := records[at := records[at].(end := Some(end))];
      log := log + [Closed(key, end)];
      var _ := EmitActivity(key, if failed then Failed else Succeeded, None);
    }

    method Consume(chunk: Chunk, attempt: nat)
      requires Valid()
      modifies this
      ensures Valid() && View() == Step(old(View()), Op.Consume(chunk, attempt))
    {
      hide OnCall, OnResult;
      match chunk
      case Malformed => threw := true;
      case Other =>
      case Call(id, name, input) => OnCallChunk(attempt, id, name, input);
      case Result(id, name, failed, fits) => OnResultChunk(attempt, id, name, failed, fits);
    }

    method FinishAttempt(attempt: nat, end: End)
      requires Valid() && Inv(View())
      modifies this`records, this`log
      ensures Valid() && View() == Step(old(View()), Op.FinishAttempt(attempt, end))
    {
      hide Inv, Finishes, CloseAt;
      ghost var before := View();
      for i := 0 to |records|
        invariant |records| == |before.records| && View() == CloseFirst(before, i, attempt, end)
      {
        CloseFirstKeeps(before, i, attempt, end);
        assert records[i] == before.records[i];
        CloseOne(i, attempt, end);
      }
    }

    method CloseOne(i: nat, attempt: nat, end: End)
      requires i < |records|
      modifies this`records, this`log
      ensures View() == if Finishes(old(records)[i], attempt) then CloseAt(old(View()), i, end) else old(View())
      ensures |records| == |old(records)|
    {
      if records[i].key.attempt != attempt || records[i].end.Some? {
        return;
      }
      log := log + [Closed(records[i].key, end)];
      records := records[i := records[i].(end := Some(end))];
    }
  }

  class AcpObservability {
    const faults: Faults
    var disabled: bool
    var finished: bool
    var agent: Option<OpenSpan>
    var tools: seq<(Key, OpenSpan)>
    var spans: nat
    var calls: nat
    ghost var ends: seq<nat>

    ghost function View(): Sink reads this {
      Sink(disabled, finished, agent, tools, spans, calls, ends)
    }

    constructor (parent: bool, faults: Faults)
      ensures View() == Start(parent, faults) && this.faults == faults
    {
      this.faults := faults;
      disabled, finished, agent, tools, spans, calls, ends := false, false, None, [], 0, 0, [];
      new;
      if !parent {
        disabled := true;
      } else if faults(calls) {
        calls := 1;
        DisableProjection();
      } else {
        agent, spans, calls := Some(OpenSpan(0, false, false)), 1, 1;
      }
    }

    /** Tells a span to end, which may throw. */
    method EndSpan(span: nat) returns (threw: bool)
      modifies this`calls, this`ends
      ensures View() == ToolSpans.End(old(View()), span) && threw == faults(old(calls))
    {
      threw := faults(calls);
      calls := calls + 1;
      ends := ends + [span];
    }

    method DisableProjection()
      modifies this
      ensures View() == Disable(old(View()))
    {
      if disabled {
        return;
      }
      disabled := true;
      ghost var before := View();
      for i := 0 to |tools|
        invariant tools == before.tools && agent == before.agent && View() == EndLeftovers(before, before.tools[..i])
      {
        assert tools[..i + 1][..i] == tools[..i];
        if !tools[i].1.closed || tools[i].1.failed {
          var _ := EndSpan(tools[i].1.span);
        }
      }
      assert tools[..|tools|] == tools;
      tools := [];
      if agent.Some? && (!agent.value.closed || agent.value.failed) {
        var _ := EndSpan(agent.value.span);
      }
      agent := None;
    }

    method OnToolOpened(key: Key)
      modifies this
      ensures View() == OnOpened(old(View()), key, faults)
    {
      if disabled || agent.None? || finished {
        return;
      }
      var threw := faults(calls);
      calls := calls + 1;
      if threw {
        DisableProjection();
        return;
      }
      var at, made := Place(tools, key), (key, OpenSpan(spans, false, false));
      spans := spans + 1;
      tools := if at < |tools| then tools[at := made] else tools + [made];
    }

    method CloseToolAt(at: nat)
      modifies this
      ensures View() == CloseTool(old(View()), at, faults)
    {
      hide Disable;
      if disabled || at >= |tools| || tools[at].1.closed {
        return;
      }
      var key, o := tools[at].0, tools[at].1;
      tools := tools[at := (key, o.(closed := true))];
      var threw := EndSpan(o.span);
      tools := tools[at := (key, o.(closed := true, failed := threw))];
      assert tools == old(tools)[at := (key, o.(closed := true, failed := threw))];
      if threw {
        DisableProjection();
      }
    }

    method OnToolClosed(key: Key, end: ToolLifecycle.End)
      modifies this
      ensures View() == OnEvent(old(View()), Closed(key, end), faults)
    {
      CloseToolAt(Place(tools, key));
    }

    method Finish()
      modifies this
      ensures View() == ToolSpans.Finish(old(View()), faults)
    {
      hide Disable, CloseTool;
      if finished {
        return;
      }
      finished := true;
      if disabled {
        return;
      }
      ghost var begun := View();
      var n := |tools|;
      for i := 0 to n
        invariant View() == CloseTools(begun, i, faults)
      {
        CloseToolAt(i);
      }
      tools := [];
      if agent.None? || agent.value.closed {
        return;
      }
      var o := agent.value;
      agent := Some(o.(closed := true));
      var threw := EndSpan(o.span);
      agent := Some(o.(closed := true, failed := threw));
      if threw {
        DisableProjection();
      }
    }
  }
}
