/**
 The projection of tool calls onto tracing spans.  Any span operation may throw, which
 disables the projection; no span may be left without an attempt to end it.
 */
module ToolSpans {
  import opened Wrappers
  import opened ToolLifecycle

  /** `failed` records that ending the span threw. */
  datatype OpenSpan = OpenSpan(span: nat, closed: bool, failed: bool)

  /**
   Spans are numbered as they are created.  `calls` counts the operations on spans, `ends` lists
   the spans that were told to end, in order.
   */
  datatype Sink = Sink(disabled: bool, finished: bool, agent: Option<OpenSpan>, tools: seq<(Key, OpenSpan)>,
                       spans: nat, calls: nat, ends: seq<nat>)

  /** Whether the n-th operation on a span throws. */
  type Faults = nat -> bool

  function End(s: Sink, span: nat): Sink {
    s.(calls := s.calls + 1, ends := s.ends + [span])
  }

  function Leftover(o: OpenSpan): bool {
    !o.closed || o.failed
  }

  /** Ends what is left over, whether or not that throws. */
  function EndLeftovers(s: Sink, tools: seq<(Key, OpenSpan)>): Sink {
    if tools == [] then s
    else
      var before, last := EndLeftovers(s, tools[..|tools| - 1]), tools[|tools| - 1].1;
      if Leftover(last) then End(before, last.span) else before
  }

  function Disable(s: Sink): Sink {
    if s.disabled then s
    else
      var ended := EndLeftovers(s.(disabled := true), s.tools).(tools := []);
      if s.agent.Some? && Leftover(s.agent.value) then End(ended, s.agent.value.span).(agent := None)
      else ended.(agent := None)
  }

  function Start(parent: bool, faults: Faults): Sink {
    var idle := Sink(false, false, None, [], 0, 0, []);
    if !parent then idle.(disabled := true)
    else if faults(0) then Disable(idle.(calls := 1))
    else idle.(agent := Some(OpenSpan(0, false, false)), spans := 1, calls := 1)
  }

  function Place(tools: seq<(Key, OpenSpan)>, key: Key): nat {
    if tools == [] then 0 else if tools[0].0 == key then 0 else 1 + Place(tools[1..], key)
  }

  function OnOpened(s: Sink, key: Key, faults: Faults): Sink {
    if s.disabled || s.agent.None? || s.finished then s
    else if faults(s.calls) then Disable(s.(calls := s.calls + 1))
    else
      var at, made := Place(s.tools, key), (key, OpenSpan(s.spans, false, false));
      s.(calls := s.calls + 1, spans := s.spans + 1,
         tools := if at < |s.tools| then s.tools[at := made] else s.tools + [made])
  }

  function CloseTool(s: Sink, at: nat, faults: Faults): Sink {
    if s.disabled || at >= |s.tools| || s.tools[at].1.closed then s
    else
      var threw, o := faults(s.calls), s.tools[at].1;
      var ended := End(s.(tools := s.tools[at := (s.tools[at].0, o.(closed := true, failed := threw))]), o.span);
      if threw then Disable(ended) else ended
  }

  function CloseTools(s: Sink, n: nat, faults: Faults): Sink {
    if n == 0 then s else CloseTool(CloseTools(s, n - 1, faults), n - 1, faults)
  }

  function CloseAgent(s: Sink, faults: Faults): Sink {
    if s.agent.None? || s.agent.value.closed then s
    else
      var threw, o := faults(s.calls), s.agent.value;
      var ended := End(s.(agent := Some(o.(closed := true, failed := threw))), o.span);
      if threw then Disable(ended) else ended
  }

  function Finish(s: Sink, faults: Faults): Sink {
    if s.finished then s
    else if s.disabled then s.(finished := true)
    else CloseAgent(CloseTools(s.(finished := true), |s.tools|, faults).(tools := []), faults)
  }

  function OnEvent(s: Sink, e: Event, faults: Faults): Sink {
    match e
    case Opened(key) => OnOpened(s, key, faults)
    case Closed(key, _) => CloseTool(s, Place(s.tools, key), faults)
    case Reported(_, _) => s
  }

  function Feed(s: Sink, log: seq<Event>, faults: Faults): Sink {
    if log == [] then s else OnEvent(Feed(s, log[..|log| - 1], faults), log[|log| - 1], faults)
  }

  // ----- no span is forgotten ------------------------------------------------

  ghost predicate IsOpenTool(s: Sink, id: nat) {
    exists i | 0 <= i < |s.tools| :: s.tools[i].1.span == id && !s.tools[i].1.closed
  }

  /** Every span was told to end or is one that is still held open. */
  ghost predicate Remembered(s: Sink) {
    && (forall id: nat | id < s.spans :: id in s.ends || IsOpenTool(s, id) || s.agent == Some(OpenSpan(id, false, false)))
    && (s.disabled ==> s.tools == [] && s.agent.None?)
  }

  lemma {:induction false} LeftoversEnd(s: Sink, tools: seq<(Key, OpenSpan)>)
    ensures var t := EndLeftovers(s, tools);
            && t.(calls := s.calls, ends := s.ends) == s
            && (forall id :: id in s.ends ==> id in t.ends)
            && (forall i | 0 <= i < |tools| :: Leftover(tools[i].1) ==> tools[i].1.span in t.ends)
  {
    if tools != [] {
      LeftoversEnd(s, tools[..|tools| - 1]);
      assert forall i | 0 <= i < |tools| - 1 :: tools[i] == tools[..|tools| - 1][i];
    }
  }

  /** Disabling ends everything that is still open. */
  lemma {:induction false} DisableEndsAll(s: Sink)
    requires Remembered(s)
    ensures Remembered(Disable(s)) && Disable(s).disabled && Disable(s).spans == s.spans && Disable(s).finished == s.finished
  {
    LeftoversEnd(s.(disabled := true), s.tools);
  }

  lemma {:induction false} StartRemembers(parent: bool, faults: Faults)
    ensures Remembered(Start(parent, faults)) && Start(parent, faults).tools == []
  {
    assert EndLeftovers(Sink(true, false, None, [], 0, 1, []), []) == Sink(true, false, None, [], 0, 1, []);
  }

  lemma {:induction false} CloseRemembers(s: Sink, at: nat, faults: Faults)
    requires Remembered(s)
    ensures Remembered(CloseTool(s, at, faults)) && CloseTool(s, at, faults).spans == s.spans
    ensures CloseTool(s, at, faults).finished == s.finished
    ensures var t := CloseTool(s, at, faults); t.disabled || (|t.tools| == |s.tools| && t.agent == s.agent)
    ensures var t := CloseTool(s, at, faults);
            !t.disabled ==> forall i | 0 <= i < |s.tools| :: t.tools[i].0 == s.tools[i].0 &&
                              (t.tools[i].1.closed <==> s.tools[i].1.closed || i == at)
  {
    hide Disable;
    if !s.disabled && at < |s.tools| && !s.tools[at].1.closed {
      var o := s.tools[at].1;
      var ended := End(s.(tools := s.tools[at := (s.tools[at].0, o.(closed := true, failed := faults(s.calls)))]), o.span);
      forall id: nat | id < s.spans
        ensures id in ended.ends || IsOpenTool(ended, id) || ended.agent == Some(OpenSpan(id, false, false))
      {
        if IsOpenTool(s, id) && id != o.span {
          var i :| 0 <= i < |s.tools| && s.tools[i].1.span == id && !s.tools[i].1.closed;
          assert ended.tools[i] == s.tools[i];
        }
      }
      DisableEndsAll(ended);
    }
  }

  lemma {:induction false} PlaceFound(tools: seq<(Key, OpenSpan)>, key: Key)
    ensures Place(tools, key) <= |tools|
    ensures Place(tools, key) < |tools| ==> tools[Place(tools, key)].0 == key
  {
    if tools != [] && tools[0].0 != key { PlaceFound(tools[1..], key); }
  }

  lemma {:induction false} OpenRemembers(s: Sink, key: Key, faults: Faults)
    requires Remembered(s) && Place(s.tools, key) >= |s.tools|
    ensures Remembered(OnOpened(s, key, faults))
    ensures var t := OnOpened(s, key, faults);
            forall i | 0 <= i < |t.tools| :: t.tools[i].0 == key || (i < |s.tools| && t.tools[i].0 == s.tools[i].0)
  {
    hide Disable, Place;
    DisableEndsAll(s.(calls := s.calls + 1));
    if !(s.disabled || s.agent.None? || s.finished || faults(s.calls)) {
      var t := OnOpened(s, key, faults);
      forall id: nat | id < t.spans
        ensures id in t.ends || IsOpenTool(t, id) || t.agent == Some(OpenSpan(id, false, false))
      {
        if IsOpenTool(s, id) {
          var i :| 0 <= i < |s.tools| && s.tools[i].1.span == id && !s.tools[i].1.closed;
          assert t.tools[i] == s.tools[i];
        }
        assert t.tools[|s.tools|] == (key, OpenSpan(s.spans, false, false));
      }
    }
  }

  /** A tool is held only for a call that was opened. */
  ghost predicate OnlyOpened(s: Sink, log: seq<Event>) {
    forall i | 0 <= i < |s.tools| :: WasOpened(log, s.tools[i].0)
  }

  lemma {:induction false} EventRemembers(s: Sink, log: seq<Event>, e: Event, faults: Faults)
    requires Remembered(s) && OnlyOpened(s, log) && MayFollow(log, e)
    ensures Remembered(OnEvent(s, e, faults)) && OnlyOpened(OnEvent(s, e, faults), log + [e])
  {
    hide Remembered, WasOpened, WasClosed, CloseTool, OnOpened, Place, WellOrdered;
    OneMore(log, e);
    if e.Opened? {
      PlaceFound(s.tools, e.key);
      OpenRemembers(s, e.key, faults);
    } else if e.Closed? {
      CloseRemembers(s, Place(s.tools, e.key), faults);
      DisabledIsEmpty(CloseTool(s, Place(s.tools, e.key), faults));
    }
  }

  lemma {:induction false} DisabledIsEmpty(s: Sink)
    requires Remembered(s)
    ensures s.disabled ==> s.tools == []
  {
  }

  lemma {:induction false} FeedRemembers(s: Sink, log: seq<Event>, faults: Faults)
    requires Remembered(s) && s.tools == [] && WellOrdered(log)
    ensures Remembered(Feed(s, log, faults)) && OnlyOpened(Feed(s, log, faults), log)
  {
    hide Remembered, OnEvent, WellOrdered, MayFollow;
    if log != [] {
      var n := |log| - 1;
      assert log == log[..n] + [log[n]];
      OneMore(log[..n], log[n]);
      FeedRemembers(s, log[..n], faults);
      EventRemembers(Feed(s, log[..n], faults), log[..n], log[n], faults);
    }
  }

  lemma {:induction false} CloseToolsCloses(s: Sink, n: nat, faults: Faults)
    requires Remembered(s) && n <= |s.tools|
    ensures var t := CloseTools(s, n, faults);
            && Remembered(t) && t.spans == s.spans && t.finished == s.finished
            && (t.disabled || (|t.tools| == |s.tools| && t.agent == s.agent &&
                               forall i | 0 <= i < n :: t.tools[i].1.closed))
  {
    hide Remembered, CloseTool;
    if n > 0 {
      CloseToolsCloses(s, n - 1, faults);
      CloseRemembers(CloseTools(s, n - 1, faults), n - 1, faults);
      DisabledStays(CloseTools(s, n - 1, faults), n - 1, faults);
    }
  }

  lemma {:induction false} DisabledStays(s: Sink, at: nat, faults: Faults)
    ensures s.disabled ==> CloseTool(s, at, faults) == s
  {
  }

  /** Finishing tells every span to end that was ever created. */
  lemma {:induction false} FinishEndsAll(s: Sink, faults: Faults)
    requires Remembered(s) && !s.finished
    ensures forall id: nat | id < Finish(s, faults).spans :: id in Finish(s, faults).ends
    ensures Finish(s, faults).spans == s.spans
  {
    hide CloseTools, Disable;
    if !s.disabled {
      var begun := s.(finished := true);
      CloseToolsCloses(begun, |s.tools|, faults);
      var closed := CloseTools(begun, |s.tools|, faults);
      var cleared := closed.(tools := []);
      if cleared.agent.Some? && !cleared.agent.value.closed {
        var o := cleared.agent.value;
        DisableEndsAll(End(cleared.(agent := Some(o.(closed := true, failed := faults(cleared.calls)))), o.span));
      }
    }
  }

  /**
   Whatever the stream holds and whichever span operations throw: once the projection is
   finished, every span it created was told to end.
   */
  lemma {:induction false} EverySpanEnds(ops: seq<Op>, parent: bool, faults: Faults)
    ensures var s := Finish(Feed(Start(parent, faults), Run(ops).log, faults), faults);
            forall id: nat | id < s.spans :: id in s.ends
  {
    hide Finish, Feed, Start, Run, Remembered, WellOrdered;
    StartRemembers(parent, faults);
    LifecyclesAreOrdered(ops);
    FeedRemembers(Start(parent, faults), Run(ops).log, faults);
    StartUnfinished(parent, faults);
    FeedKeepsFinished(Start(parent, faults), Run(ops).log, faults);
    FinishEndsAll(Feed(Start(parent, faults), Run(ops).log, faults), faults);
  }

  lemma {:induction false} StartUnfinished(parent: bool, faults: Faults)
    ensures !Start(parent, faults).finished
  {
    LeftoversEnd(Sink(true, false, None, [], 0, 1, []), []);
  }

  lemma {:induction false} DisableKeepsFinished(s: Sink)
    ensures Disable(s).finished == s.finished
  {
    LeftoversEnd(s.(disabled := true), s.tools);
  }

  lemma {:induction false} EventKeepsFinished(s: Sink, e: Event, faults: Faults)
    ensures OnEvent(s, e, faults).finished == s.finished
  {
    hide Disable, Place;
    if e.Opened? {
      DisableKeepsFinished(s.(calls := s.calls + 1));
    } else if e.Closed? {
      var at := Place(s.tools, e.key);
      if at < |s.tools| {
        var o := s.tools[at].1;
        DisableKeepsFinished(End(s.(tools := s.tools[at := (s.tools[at].0, o.(closed := true, failed := faults(s.calls)))]), o.span));
      }
    }
  }

  lemma {:induction false} FeedKeepsFinished(s: Sink, log: seq<Event>, faults: Faults)
    ensures Feed(s, log, faults).finished == s.finished
  {
    hide OnEvent;
    if log != [] {
      FeedKeepsFinished(s, log[..|log| - 1], faults);
      EventKeepsFinished(Feed(s, log[..|log| - 1], faults), log[|log| - 1], faults);
    }
  }

  // ----- exactly once, when no span operation throws ---------------------------

  ghost predicate Distinct(ends: seq<nat>) {
    forall i, j | 0 <= i < j < |ends| :: ends[i] != ends[j]
  }

  function Openings(log: seq<Event>): nat {
    if log == [] then 0 else Openings(log[..|log| - 1]) + if log[|log| - 1].Opened? then 1 else 0
  }

  /** The agent's span is the first, the others are those of the tools, and only closed ones have ended. */
  ghost predicate Exact(s: Sink) {
    && !s.disabled && s.spans == |s.tools| + 1 && s.agent == Some(OpenSpan(0, false, false))
    && Distinct(s.ends) && 0 !in s.ends && (forall i | 0 <= i < |s.ends| :: s.ends[i] < s.spans)
    && (forall i | 0 <= i < |s.tools| :: s.tools[i].1.span == i + 1 && (s.tools[i].1.closed <==> i + 1 in s.ends))
  }

  lemma {:induction false} EndExact(s: Sink, at: nat, faults: Faults)
    requires Exact(s) && forall n :: !faults(n)
    ensures Exact(CloseTool(s, at, faults)) && |CloseTool(s, at, faults).tools| == |s.tools|
    ensures forall i | 0 <= i < |s.tools| :: CloseTool(s, at, faults).tools[i].0 == s.tools[i].0 &&
              (CloseTool(s, at, faults).tools[i].1.closed <==> s.tools[i].1.closed || i == at)
  {
    if at < |s.tools| && !s.tools[at].1.closed {
      var t := CloseTool(s, at, faults);
      assert t.ends == s.ends + [at + 1];
      assert forall id :: id in t.ends <==> id in s.ends || id == at + 1;
    }
  }

  lemma {:induction false} FeedExact(log: seq<Event>, faults: Faults)
    requires WellOrdered(log) && forall n :: !faults(n)
    ensures var s := Feed(Start(true, faults), log, faults);
            Exact(s) && !s.finished && s.spans == 1 + Openings(log) && OnlyOpened(s, log)
  {
    hide WellOrdered, CloseTool, Place, WasOpened, WasClosed;
    if log != [] {
      var n := |log| - 1;
      assert log == log[..n] + [log[n]];
      OneMore(log[..n], log[n]);
      FeedExact(log[..n], faults);
      var s := Feed(Start(true, faults), log[..n], faults);
      PlaceFound(s.tools, log[n].key);
      EventKeepsFinished(s, log[n], faults);
      EndExact(s, Place(s.tools, log[n].key), faults);
    }
  }

  lemma {:induction false} CloseToolsExact(s: Sink, n: nat, faults: Faults)
    requires Exact(s) && n <= |s.tools| && forall n :: !faults(n)
    ensures var t := CloseTools(s, n, faults);
            && Exact(t) && |t.tools| == |s.tools| && (forall i | 0 <= i < n :: t.tools[i].1.closed)
  {
    hide Exact, CloseTool;
    if n > 0 {
      CloseToolsExact(s, n - 1, faults);
      EndExact(CloseTools(s, n - 1, faults), n - 1, faults);
    }
  }

  /**
   When no span operation throws, there is one span for the run and one for each call that was
   opened, and each is told to end exactly once, the run's last.
   */
  lemma {:induction false} EachSpanEndsOnce(ops: seq<Op>, faults: Faults)
    requires forall n :: !faults(n)
    ensures var s := Finish(Feed(Start(true, faults), Run(ops).log, faults), faults);
            && s.spans == 1 + Openings(Run(ops).log)
            && Distinct(s.ends) && (forall id: nat :: id in s.ends <==> id < s.spans)
            && s.ends != [] && s.ends[|s.ends| - 1] == 0
  {
    hide Run, WellOrdered, CloseTools;
    LifecyclesAreOrdered(ops);
    FeedExact(Run(ops).log, faults);
    var s := Feed(Start(true, faults), Run(ops).log, faults).(finished := true);
    CloseToolsExact(s, |s.tools|, faults);
    var closed := CloseTools(s, |s.tools|, faults);
    var t := Finish(Feed(Start(true, faults), Run(ops).log, faults), faults);
    assert t.ends == closed.ends + [0];
    forall id: nat ensures id in t.ends <==> id < t.spans {
      if 0 < id < t.spans { assert closed.tools[id - 1].1.span == id; }
    }
  }

  /** A finished projection creates and ends nothing more. */
  lemma {:induction false} FinishedIsFinal(s: Sink, log: seq<Event>, faults: Faults)
    requires s.finished && s.tools == []
    ensures Feed(s, log, faults) == s && Finish(s, faults) == s
  {
    if log != [] { FinishedIsFinal(s, log[..|log| - 1], faults); }
  }
}
