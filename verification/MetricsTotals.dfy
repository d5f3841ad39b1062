/**
 The totals of the derived metrics, field by field in terms of the events.
 */
module MetricsTotals {
  import opened Wrappers
  import opened OrderedMaps
  import opened RunMetrics
  import opened MetricsMeaning

  /** The invocations that had an output, each once, in order of their first. */
  function OutputIds(events: seq<MetricEvent>): seq<string> {
    if events == [] then []
    else
      var before, last := OutputIds(events[..|events| - 1]), events[|events| - 1];
      if last.Output? && last.id !in before then before + [last.id] else before
  }

  datatype Field = InputTokens | OutputTokens | ReasoningTokens | CacheReads | CacheWrites

  function TokensOf(tokens: Tokens, field: Field): nat {
    match field
    case InputTokens => tokens.input
    case OutputTokens => tokens.output
    case ReasoningTokens => tokens.reasoning
    case CacheReads => tokens.cacheRead
    case CacheWrites => tokens.cacheWrite
  }

  /** What the last output of an invocation says of one kind of tokens; nothing counts as zero. */
  function LastTokens(events: seq<MetricEvent>, id: string, field: Field): nat {
    match LastOutput(events, id)
    case Some(Some(u)) => if u.tokens.Some? then TokensOf(u.tokens.value, field) else 0
    case _ => 0
  }

  function LastCost(events: seq<MetricEvent>, id: string): real {
    match LastOutput(events, id)
    case Some(Some(u)) => if u.cost.Some? then u.cost.value else 0.0
    case _ => 0.0
  }

  function SumTokens(ids: seq<string>, events: seq<MetricEvent>, field: Field): nat {
    if ids == [] then 0 else SumTokens(ids[..|ids| - 1], events, field) + LastTokens(events, ids[|ids| - 1], field)
  }

  function SumCost(ids: seq<string>, events: seq<MetricEvent>): real {
    if ids == [] then 0.0 else SumCost(ids[..|ids| - 1], events) + LastCost(events, ids[|ids| - 1])
  }

  /** The ids are those of the outputs, and differ. */
  lemma {:induction false} IdsOfOutputs(events: seq<MetricEvent>)
    ensures forall i, j | 0 <= i < j < |OutputIds(events)| :: OutputIds(events)[i] != OutputIds(events)[j]
    ensures forall id :: id in OutputIds(events) <==> LastOutput(events, id).Some?
  {
    if events != [] { IdsOfOutputs(events[..|events| - 1]); }
  }

  function Keys<V>(m: OrderedMap<string, V>): seq<string> {
    if m == [] then [] else [m[0].0] + Keys(m[1..])
  }

  lemma {:induction false} KeysAt<V>(m: OrderedMap<string, V>)
    ensures |Keys(m)| == |m| && forall i | 0 <= i < |m| :: Keys(m)[i] == m[i].0
  {
    if m != [] { KeysAt(m[1..]); }
  }

  lemma {:induction false} PutKeys<V>(m: OrderedMap<string, V>, key: string, value: V)
    ensures Keys(Put(m, key, value)) == if key in Keys(m) then Keys(m) else Keys(m) + [key]
  {
    if m == [] {
      assert [(key, value)][1..] == [];
    } else if m[0].0 == key {
      assert ([(key, value)] + m[1..])[1..] == m[1..];
    } else {
      PutKeys(m[1..], key, value);
      var after := Put(m[1..], key, value);
      assert Put(m, key, value) == [m[0]] + after && ([m[0]] + after)[1..] == after;
    }
  }

  lemma {:induction false} NotedKeys(events: seq<MetricEvent>)
    ensures Keys(NoteAll(events).outputs) == OutputIds(events)
  {
    if events != [] {
      var n := |events| - 1;
      var before, last := NoteAll(events[..n]), events[n];
      NotedKeys(events[..n]);
      assert NoteAll(events) == Note(before, last);
      hide Note, NoteAll;
      if last.Output? {
        NotedOutput(before, last.id, last.metrics);
        PutKeys(before.outputs, last.id, last.metrics);
      } else {
        OutputsStay(before, last);
      }
    }
  }

  lemma {:induction false} OutputsStay(l: Ledger, e: MetricEvent)
    requires !e.Output?
    ensures Note(l, e).outputs == l.outputs
  {
  }

  /** The ledger's outputs are the last ones, under those ids. */
  lemma {:induction false} NotedOutputs(events: seq<MetricEvent>)
    ensures var outputs := NoteAll(events).outputs;
            && |outputs| == |OutputIds(events)|
            && forall i | 0 <= i < |outputs| ::
                 outputs[i].0 == OutputIds(events)[i] && LastOutput(events, outputs[i].0) == Some(outputs[i].1)
  {
    hide NoteAll, Get;
    NotedKeys(events);
    IdsOfOutputs(events);
    var outputs, ids := NoteAll(events).outputs, OutputIds(events);
    KeysAt(outputs);
    forall i | 0 <= i < |outputs| ensures outputs[i].0 == ids[i] && LastOutput(events, outputs[i].0) == Some(outputs[i].1) {
      NotedResult(events, ids[i]);
      assert outputs[i] in outputs && (ids[i], outputs[i].1) == outputs[i];
      MemberIsGet<string, Option<Usage>>(outputs, ids[i], outputs[i].1);
    }
  }

  lemma {:induction false} TotalIsSum(outputs: OrderedMap<string, Option<Usage>>, ids: seq<string>, events: seq<MetricEvent>)
    requires |outputs| == |ids|
    requires forall i | 0 <= i < |ids| :: outputs[i].0 == ids[i] && LastOutput(events, ids[i]) == Some(outputs[i].1)
    ensures var t := Total(outputs);
            && t.input == SumTokens(ids, events, InputTokens) && t.output == SumTokens(ids, events, OutputTokens)
            && t.reasoning == SumTokens(ids, events, ReasoningTokens) && t.cacheRead == SumTokens(ids, events, CacheReads)
            && t.cacheWrite == SumTokens(ids, events, CacheWrites) && t.cost == SumCost(ids, events)
  {
    hide LastOutput;
    if ids != [] {
      TotalIsSum(outputs[..|ids| - 1], ids[..|ids| - 1], events);
    }
  }

  /**
   Each total is the sum, over the invocations that had an output, of what their last output says;
   and the sum of tokens is that of the five kinds.
   */
  lemma {:induction false} TotalsAreSums(events: seq<MetricEvent>, runId: string)
    ensures var ids, m := OutputIds(events), Derive(events, runId);
            && m.totals.input == SumTokens(ids, events, InputTokens) && m.totals.output == SumTokens(ids, events, OutputTokens)
            && m.totals.reasoning == SumTokens(ids, events, ReasoningTokens)
            && m.totals.cacheRead == SumTokens(ids, events, CacheReads)
            && m.totals.cacheWrite == SumTokens(ids, events, CacheWrites)
            && m.totals.cost == SumCost(ids, events)
            && m.totalTokens == m.totals.input + m.totals.output + m.totals.reasoning + m.totals.cacheRead + m.totals.cacheWrite
            && m.runId == runId
  {
    NotedOutputs(events);
    TotalIsSum(NoteAll(events).outputs, OutputIds(events), events);
    hide NoteAll, Total, SumTokens, SumCost, TaskEntries, LongestOf;
  }
}
