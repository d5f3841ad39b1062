/**
 What the nodes of a plan say, in terms of the calls they were built from.
 */
module PlanNodes {
  import opened Wrappers
  import opened Bindings
  import opened NodeIds
  import opened Plans

  /** The value refers to an output of this node, other than the workflow's input. */
  ghost predicate Mentions(v: Value, node: string) {
    node != "__seqlane_input" && exists r <- Refs(v) :: r.node == node
  }

  /** A task that goes on with the session of another node. */
  predicate GoesOn(v: Invocation, from: string) {
    v.runnable.Task? && v.session.Some? && !v.session.value.Isolated? && v.session.value.from == from
  }

  /** The node runs what the invocation names, with its input, and a task in its session; and waits for what that needs. */
  ghost predicate Describes(node: RunnableNode, v: Invocation, id: string) {
    && node.id == id && node.runnable == v.runnable && Same(v.input, node.input)
    && node.session == (if v.runnable.Task? then v.session else None)
    && forall x :: x in node.dependsOn <==> Mentions(v.input, x) || x in v.after || GoesOn(v, x)
  }

  /** A check of the candidate by this checker, and a gate that lets the candidate through after it. */
  ghost predicate IsValidation(check: Node, gate: Node, checker: Checker, candidate: Value) {
    && check.Check? && gate.Gate? && check.source == checker
    && Same(candidate, check.input) && Same(candidate, gate.input)
    && gate.checkId == check.id && check.id in gate.dependsOn
    && forall x :: Mentions(candidate, x) ==> x in check.dependsOn && x in gate.dependsOn
  }

  ghost predicate SameOption(v: Option<Value>, w: Option<Value>) {
    match v case None => w == None case Some(value) => w.Some? && Same(value, w.value)
  }

  /** The nodes a call makes. */
  ghost predicate MadeBy(call: Call, nodes: seq<Node>) {
    match call
    case Run(v) =>
      && nodes != [] && nodes[0].Plain? && Describes(nodes[0].node, v, nodes[0].node.id)
      && if v.runnable.Task? && v.checked.Some?
         then |nodes| == 3 && IsValidation(nodes[1], nodes[2], v.checked.value, RefValue(Ref(nodes[0].node.id, ["output"])))
         else |nodes| == 1
    case Validate(checker, candidate) => |nodes| == 2 && IsValidation(nodes[0], nodes[1], checker, candidate)
    case Repeat(v, until, next) =>
      && |nodes| == 1 && nodes[0].RepeatNode?
      && var node := nodes[0];
         && Same(v.input, node.input) && Same(until, node.until) && SameOption(next, node.next) && node.validation == v.checked
         && node.attempt.id == node.id + ":attempt" && node.attempt.runnable == v.runnable
         && node.attempt.session == (if v.runnable.Task? then v.session else None)
         && node.attempt.input == RefValue(Ref(node.id + ":input", []))
    case Choose(condition, first, second) =>
      && |nodes| == 1 && nodes[0].ChoiceNode?
      && var node := nodes[0];
         && Same(condition, node.condition)
         && Describes(node.thenArm, first, node.id + ":then") && Describes(node.elseArm, second, node.id + ":else")
         && node.thenValidation == first.checked && node.elseValidation == second.checked
  }

  lemma {:induction false} MentionsIsRefers(v: Value, node: string)
    ensures Mentions(v, node) <==> Refers(Refs(v), node)
  {
    hide Refs;
    if Mentions(v, node) {
      var r :| r in Refs(v) && r.node == node;
      var i :| 0 <= i < |Refs(v)| && Refs(v)[i] == r;
    }
  }

  lemma {:induction false} CollectedExactly(v: Value)
    ensures Distinct(Collect(v, [])) && forall x :: x in Collect(v, []) <==> Mentions(v, x)
  {
    hide Collect, Refs, Refers;
    CollectAddsRefs(v, []);
    forall x ensures x in Collect(v, []) <==> Mentions(v, x) { MentionsIsRefers(v, x); }
  }

  lemma {:induction false} InsertedAll(ids: seq<string>, more: seq<string>)
    ensures forall x :: x in InsertAll(ids, more) <==> x in ids || x in more
  {
    if more != [] {
      InsertedAll(ids, more[..|more| - 1]);
      assert more == more[..|more| - 1] + [more[|more| - 1]];
    }
  }

  lemma {:induction false} RunnableDescribes(id: string, v: Invocation)
    ensures Describes(RunnableOf(id, v), v, id)
  {
    hide Collect, Same, Serialize, Mentions;
    SerializedIsSame(v.input);
    CollectedExactly(v.input);
    InsertedAll(Collect(v.input, []), v.after);
  }

  lemma {:induction false} ValidationMade(b: Builder, checker: Checker, candidate: Value)
    ensures exists check, gate :: IsValidation(check, gate, checker, candidate) && AddValidation(b, checker, candidate).nodes == b.nodes + [check, gate]
  {
    hide Collect, Same, Serialize, Mentions;
    SerializedIsSame(candidate);
    CollectedExactly(candidate);
    var after := AddValidation(b, checker, candidate);
    var check, gate := after.nodes[|b.nodes|], after.nodes[|b.nodes| + 1];
    assert IsValidation(check, gate, checker, candidate);
    assert after.nodes == b.nodes + [check, gate];
  }

  lemma {:induction false} RunMade(b: Builder, v: Invocation) returns (nodes: seq<Node>)
    ensures AddRun(b, v).nodes == b.nodes + nodes && MadeBy(Run(v), nodes)
  {
    hide Describes, IsValidation, RunnableOf, AddValidation;
    var id := NextId(b, v.runnable.id);
    RunnableDescribes(id, v);
    var node := RunnableOf(id, v);
    assert node.id == id by { RunnableId(id, v); }
    nodes := [Plain(node)];
    if v.runnable.Task? && v.checked.Some? {
      var ran := Bump(b, v.runnable.id).(nodes := b.nodes + [Plain(node)]);
      OutputRef(id);
      ValidationMade(ran, v.checked.value, OutputOf(id, "output"));
      var check, gate :| IsValidation(check, gate, v.checked.value, OutputOf(id, "output")) &&
                         AddValidation(ran, v.checked.value, OutputOf(id, "output")).nodes == ran.nodes + [check, gate];
      nodes := [Plain(node), check, gate];
      assert b.nodes + [Plain(node)] + [check, gate] == b.nodes + nodes;
    }
  }

  lemma {:induction false} RunnableId(id: string, v: Invocation)
    ensures RunnableOf(id, v).id == id
  {
  }

  lemma {:induction false} OutputRef(id: string)
    ensures OutputOf(id, "output") == RefValue(Ref(id, ["output"]))
  {
  }

  lemma {:induction false} RepeatMade(id: string, v: Invocation, until: Value, next: Option<Value>)
    requires id != ""
    ensures MadeBy(Repeat(v, until, next), [RepeatOf(id, v, until, next)])
  {
    hide Same, Collect, Eligibility, Dependencies, ConditionDependencies, Without;
    var node := RepeatOf(id, v, until, next);
    SerializedIsSame(v.input);
    SerializedIsSame(until);
    if next.Some? { SerializedIsSame(next.value); }
    AttemptInput(id);
    hide Serialize;
  }

  lemma {:induction false} AttemptInput(id: string)
    requires id != ""
    ensures Serialize(RefValue(Ref(id + ":input", []))) == RefValue(Ref(id + ":input", []))
  {
    RefValueIsRef(Ref(id + ":input", []));
    hide AsRef, RefValue;
  }

  lemma {:induction false} ChoiceMade(id: string, condition: Value, first: Invocation, second: Invocation)
    ensures MadeBy(Choose(condition, first, second), [ChoiceOf(id, condition, first, second)])
  {
    hide Describes, Same, Serialize, RunnableOf, Eligibility, Collect, InsertAll;
    SerializedIsSame(condition);
    RunnableDescribes(id + ":then", first);
    RunnableDescribes(id + ":else", second);
  }

  /** What one call adds to the plan. */
  lemma {:induction false} CallMakes(b: Builder, call: Call) returns (nodes: seq<Node>)
    requires !b.failed && !Step(b, call).failed
    ensures Step(b, call).nodes == b.nodes + nodes && MadeBy(call, nodes)
  {
    hide MadeBy, RepeatOf, ChoiceOf, AddRun, AddValidation, NextId;
    match call
    case Run(v) => nodes := RunMade(b, v);
    case Validate(checker, candidate) =>
      ValidationMade(b, checker, candidate);
      var check, gate :| IsValidation(check, gate, checker, candidate) && AddValidation(b, checker, candidate).nodes == b.nodes + [check, gate];
      nodes := [check, gate];
      ValidationIsMade(checker, candidate, check, gate);
    case Repeat(v, until, next) =>
      IdNotEmpty(b);
      RepeatMade(NextId(b, "repeat"), v, until, next);
      nodes := [RepeatOf(NextId(b, "repeat"), v, until, next)];
    case Choose(condition, first, second) =>
      ChoiceMade(NextId(b, "choice"), condition, first, second);
      nodes := [ChoiceOf(NextId(b, "choice"), condition, first, second)];
  }

  lemma {:induction false} ValidationIsMade(checker: Checker, candidate: Value, check: Node, gate: Node)
    requires IsValidation(check, gate, checker, candidate)
    ensures MadeBy(Validate(checker, candidate), [check, gate])
  {
    hide IsValidation;
  }

  lemma {:induction false} IdNotEmpty(b: Builder)
    ensures NextId(b, "repeat") != ""
  {
  }

  function Flatten(parts: seq<seq<Node>>): seq<Node> {
    if parts == [] then [] else Flatten(parts[..|parts| - 1]) + parts[|parts| - 1]
  }

  /** The plan is, call by call, what each call makes. */
  lemma {:induction false} PlanIsMadeByCalls(calls: seq<Call>) returns (parts: seq<seq<Node>>)
    requires !Build(calls).failed
    ensures |parts| == |calls| && Flatten(parts) == Build(calls).nodes
    ensures forall i | 0 <= i < |calls| :: MadeBy(calls[i], parts[i])
  {
    hide MadeBy, Step;
    if calls == [] {
      parts := [];
    } else {
      var n := |calls| - 1;
      FailedStays(Build(calls[..n]), calls[n]);
      var before := PlanIsMadeByCalls(calls[..n]);
      var nodes := CallMakes(Build(calls[..n]), calls[n]);
      parts := before + [nodes];
      hide Build;
      assert parts[..n] == before && parts[n] == nodes;
      forall i | 0 <= i < |calls| ensures MadeBy(calls[i], parts[i]) {
        if i < n { assert calls[i] == calls[..n][i] && parts[i] == before[i]; }
      }
    }
  }

  lemma {:induction false} FailedStays(b: Builder, call: Call)
    ensures b.failed ==> Step(b, call).failed
  {
  }

  // ----- and what they are called ---------------------------------------------------

  /** What the id of a node begins with. */
  function PrefixOf(node: Node): string {
    match node
    case Plain(n) => n.runnable.id
    case Check(_, _, _, _) => "validation.check"
    case Gate(_, _, _, _) => "validation.gate"
    case RepeatNode(_, _, _, _, _, _, _) => "repeat"
    case ChoiceNode(_, _, _, _, _, _, _) => "choice"
  }

  function Uses(nodes: seq<Node>, prefix: string): nat {
    if nodes == [] then 0
    else Uses(nodes[..|nodes| - 1], prefix) + if PrefixOf(nodes[|nodes| - 1]) == prefix then 1 else 0
  }

  ghost predicate NumberedAt(nodes: seq<Node>, i: nat)
    requires i < |nodes|
  {
    IdOf(nodes[i]) == Label(PrefixOf(nodes[i]), Uses(nodes[..i], PrefixOf(nodes[i])) + 1)
  }

  ghost predicate Tallied(b: Builder) {
    forall prefix :: Count(b, prefix) == Uses(b.nodes, prefix)
  }

  ghost predicate InStep(b: Builder) {
    Tallied(b) && forall i | 0 <= i < |b.nodes| :: NumberedAt(b.nodes, i)
  }

  lemma {:induction false} OneMoreTallied(b: Builder, prefix: string, node: Node)
    requires Tallied(b) && PrefixOf(node) == prefix
    ensures Tallied(Bump(b, prefix).(nodes := b.nodes + [node]))
  {
    hide PrefixOf;
    var after := Bump(b, prefix).(nodes := b.nodes + [node]);
    assert after.nodes[..|b.nodes|] == b.nodes;
    forall p ensures Count(after, p) == Uses(after.nodes, p) {
      assert Uses(after.nodes, p) == Uses(b.nodes, p) + if p == prefix then 1 else 0;
    }
  }

  lemma {:induction false} NumberedBefore(nodes: seq<Node>, node: Node, i: nat)
    requires i < |nodes| && NumberedAt(nodes, i)
    ensures NumberedAt(nodes + [node], i)
  {
    hide PrefixOf, Uses;
    assert (nodes + [node])[..i] == nodes[..i] && (nodes + [node])[i] == nodes[i];
  }

  lemma {:induction false} NumberedLast(b: Builder, node: Node)
    requires Tallied(b) && IdOf(node) == NextId(b, PrefixOf(node))
    ensures NumberedAt(b.nodes + [node], |b.nodes|)
  {
    hide PrefixOf, Uses;
    assert (b.nodes + [node])[..|b.nodes|] == b.nodes && (b.nodes + [node])[|b.nodes|] == node;
  }

  lemma {:induction false} OneMoreUse(b: Builder, prefix: string, node: Node)
    requires InStep(b) && PrefixOf(node) == prefix && IdOf(node) == NextId(b, prefix)
    ensures InStep(Bump(b, prefix).(nodes := b.nodes + [node]))
  {
    OneMoreTallied(b, prefix, node);
    NumberedLast(b, node);
    hide NumberedAt, Tallied, PrefixOf;
    var after := Bump(b, prefix).(nodes := b.nodes + [node]);
    forall i | 0 <= i < |after.nodes| ensures NumberedAt(after.nodes, i) {
      if i < |b.nodes| { NumberedBefore(b.nodes, node, i); }
    }
  }

  lemma {:induction false} ValidationInStep(b: Builder, checker: Checker, candidate: Value)
    requires InStep(b)
    ensures InStep(AddValidation(b, checker, candidate))
  {
    hide InStep, Collect, Serialize;
    var needed, input := Collect(candidate, []), Serialize(candidate);
    var check := Check(NextId(b, CHECK), checker, input, needed);
    var once := Bump(b, CHECK).(nodes := b.nodes + [check]);
    OneMoreUse(b, CHECK, check);
    assert CHECK[|CHECK| - 1] != GATE[|GATE| - 1];
    assert NextId(once, GATE) == NextId(b, GATE);
    var gate := Gate(NextId(b, GATE), input, check.id, Insert(needed, check.id));
    OneMoreUse(once, GATE, gate);
    assert b.nodes + [check] + [gate] == b.nodes + [check, gate];
    assert AddValidation(b, checker, candidate) == Bump(once, GATE).(nodes := once.nodes + [gate]);
  }

  lemma {:induction false} StepInStep(b: Builder, call: Call)
    requires InStep(b)
    ensures InStep(Step(b, call))
  {
    hide InStep, AddValidation, Collect, Serialize, Eligibility, Dependencies, InsertAll, Without;
    if b.failed { return; }
    match call
    case Run(v) =>
      var id := NextId(b, v.runnable.id);
      OneMoreUse(b, v.runnable.id, Plain(RunnableOf(id, v)));
      if v.runnable.Task? && v.checked.Some? {
        ValidationInStep(Bump(b, v.runnable.id).(nodes := b.nodes + [Plain(RunnableOf(id, v))]),
                         v.checked.value, OutputOf(id, "output"));
      }
    case Validate(checker, candidate) => ValidationInStep(b, checker, candidate);
    case Repeat(v, until, next) => OneMoreUse(b, "repeat", RepeatOf(NextId(b, "repeat"), v, until, next));
    case Choose(condition, yes, no) =>
      if BadArm(yes) || BadArm(no) {
        FailingInStep(b);
      } else {
        OneMoreUse(b, "choice", ChoiceOf(NextId(b, "choice"), condition, yes, no));
      }
  }

  lemma {:induction false} FailingInStep(b: Builder)
    requires InStep(b)
    ensures InStep(b.(failed := true))
  {
    assert forall prefix :: Count(b.(failed := true), prefix) == Count(b, prefix);
  }

  /** Each node is called by its kind or by what it runs, and numbered among those called so, from 1. */
  lemma {:induction false} NodesAreNumbered(calls: seq<Call>, i: nat)
    requires i < |Build(calls).nodes|
    ensures var node := Build(calls).nodes[i];
            IdOf(node) == Label(PrefixOf(node), Uses(Build(calls).nodes[..i], PrefixOf(node)) + 1)
  {
    BuildInStep(calls);
    hide Build, Label, Uses, PrefixOf, Tallied;
    assert NumberedAt(Build(calls).nodes, i);
  }

  lemma {:induction false} BuildInStep(calls: seq<Call>)
    ensures InStep(Build(calls))
  {
    if calls == [] {
      NothingInStep();
    } else {
      hide InStep, Step;
      BuildInStep(calls[..|calls| - 1]);
      StepInStep(Build(calls[..|calls| - 1]), calls[|calls| - 1]);
    }
  }

  lemma {:induction false} NothingInStep()
    ensures InStep(Builder(map[], [], false))
  {
  }
}
