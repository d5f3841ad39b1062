/**
 The builder of one workflow's plan, whose nodes and id counters grow in place.  Every
 call refines the corresponding step of `Plans`.
 */
module PlanBuilder {
  import opened Wrappers
  import opened Bindings
  import opened Plans
  import NodeIds

  /** Adds the nodes a value refers to, walking its items or fields in order. */
  method CollectDependencies(v: Value, ids: seq<string>) returns (all: seq<string>)
    ensures all == Collect(v, ids)
    decreases v
  {
    var ref := AsRef(v);
    all := ids;
    if ref.Some? {
      if ref.value.node != INPUT && ref.value.node !in all {
        all := all + [ref.value.node];
      }
      return;
    }
    var children := Children(v);
    for i := 0 to |children|
      invariant all == CollectOf(v, i, ids)
    {
      all := CollectDependencies(children[i], all);
    }
  }

  method AddAll(ids: seq<string>, more: seq<string>) returns (all: seq<string>)
    ensures all == InsertAll(ids, more)
  {
    all := ids;
    for i := 0 to |more|
      invariant all == InsertAll(ids, more[..i])
    {
      assert more[..i + 1][..i] == more[..i];
      if more[i] !in all {
        all := all + [more[i]];
      }
    }
    assert more[..|more|] == more;
  }

  method Remove(ids: seq<string>, id: string) returns (kept: seq<string>)
    ensures kept == Without(ids, id)
  {
    kept := [];
    assert ids[0..] == ids;
    for i := 0 to |ids|
      invariant kept + Without(ids[i..], id) == Without(ids, id)
    {
      assert ids[i..][1..] == ids[i + 1..];
      if ids[i] != id {
        kept := kept + [ids[i]];
      }
    }
  }

  method BuildRunnableNode(id: string, v: Invocation) returns (node: RunnableNode, eligibility: seq<string>)
    ensures node == RunnableOf(id, v) && eligibility == Eligibility(v)
  {
    var dependencies := CollectDependencies(v.input, []);
    dependencies := AddAll(dependencies, v.after);
    eligibility := dependencies;
    if v.runnable.Flow? {
      node := RunnableNode(id, v.runnable, None, Serialize(v.input), dependencies);
      return;
    }
    if v.session.Some? && !v.session.value.Isolated? && v.session.value.from !in dependencies {
      dependencies := dependencies + [v.session.value.from];
    }
    node := RunnableNode(id, v.runnable, v.session, Serialize(v.input), dependencies);
  }

  method BuildRepeatNode(id: string, v: Invocation, until: Value, next: Option<Value>) returns (node: Node)
    ensures node == RepeatOf(id, v, until, next)
  {
    hide Serialize, Collect;
    var attemptInput, attemptId := id + ":input", id + ":attempt";
    var built, _ := BuildRunnableNode(attemptId, v.(input := RefValue(Ref(attemptInput, []))));
    var attemptDependencies := Remove(built.dependsOn, attemptInput);
    var attempt := built.(dependsOn := attemptDependencies);
    var dependencies := CollectDependencies(v.input, []);
    dependencies := AddAll(dependencies, v.after);
    dependencies := AddAll(dependencies, attemptDependencies);
    var conditions := CollectDependencies(until, []);
    if next.Some? {
      conditions := CollectDependencies(next.value, conditions);
    }
    conditions := Remove(conditions, attemptInput);
    conditions := Remove(conditions, attemptId);
    dependencies := AddAll(dependencies, conditions);
    node := RepeatNode(id, Serialize(v.input), dependencies, attempt, Serialize(until),
                       if next.Some? then Some(Serialize(next.value)) else None, v.checked);
  }

  class WorkflowPlanBuilder {
    var nodes: seq<Node>
    var nodeCounts: map<string, nat>
    var failed: bool

    ghost function View(): Builder reads this {
      Builder(nodeCounts, nodes, failed)
    }

    constructor ()
      ensures View() == Build([])
    {
      nodes, nodeCounts, failed := [], map[], false;
    }

    method NextNodeId(prefix: string) returns (id: string)
      modifies this`nodeCounts
      ensures View() == Bump(old(View()), prefix) && id == NextId(old(View()), prefix)
    {
      var count := if prefix in nodeCounts then nodeCounts[prefix] else 0;
      nodeCounts := nodeCounts[prefix := count + 1];
      id := prefix + ":" + NodeIds.Decimal(count + 1);
    }

    method Validate(checker: Checker, candidate: Value) returns (checkId: string, gateId: string)
      requires !failed
      modifies this
      ensures View() == Step(old(View()), Call.Validate(checker, candidate))
      ensures checkId == NextId(old(View()), CHECK) && gateId == NextId(old(View()), GATE)
    {
      hide Serialize, Collect;
      assert CHECK[|CHECK| - 1] != GATE[|GATE| - 1];
      checkId := NextNodeId(CHECK);
      gateId := NextNodeId(GATE);
      var input := Serialize(candidate);
      var needed := CollectDependencies(candidate, []);
      nodes := nodes + [Check(checkId, checker, input, needed)];
      var all := AddAll(needed, [checkId]);
      assert InsertAll(needed, [checkId]) == Insert(needed, checkId);
      nodes := nodes + [Gate(gateId, input, checkId, all)];
      assert old(nodes) + [Check(checkId, checker, input, needed)] + [Gate(gateId, input, checkId, all)]
          == old(nodes) + [Check(checkId, checker, input, needed), Gate(gateId, input, checkId, all)];
    }

    /** The handle's node, and the node its output refers to: the gate when the output is validated. */
    method Run(v: Invocation) returns (id: string, outputId: string)
      requires !failed
      modifies this
      ensures View() == Step(old(View()), Call.Run(v)) && id == NextId(old(View()), v.runnable.id)
    {
      hide Serialize, Collect, AddValidation, Dependencies, Eligibility;
      id := NextNodeId(v.runnable.id);
      outputId := id;
      var node, _ := BuildRunnableNode(id, v);
      nodes := nodes + [Plain(node)];
      if v.runnable.Task? && v.checked.Some? {
        var checkId, gateId := Validate(v.checked.value, OutputOf(id, "output"));
        outputId := gateId;
      }
    }

    method Repeat(v: Invocation, until: Value, next: Option<Value>) returns (id: string)
      requires !failed
      modifies this
      ensures View() == Step(old(View()), Call.Repeat(v, until, next)) && id == NextId(old(View()), "repeat")
    {
      hide RepeatOf;
      id := NextNodeId("repeat");
      var node := BuildRepeatNode(id, v, until, next);
      nodes := nodes + [node];
    }

    /** A workflow arm with task options throws, and the workflow is not built. */
    method Choose(condition: Value, yes: Invocation, no: Invocation) returns (id: string)
      requires !failed
      modifies this
      ensures failed == Step(old(View()), Call.Choose(condition, yes, no)).failed
      ensures !failed ==> View() == Step(old(View()), Call.Choose(condition, yes, no)) && id == NextId(old(View()), "choice")
    {
      hide RunnableOf, Eligibility, Collect, Serialize;
      id := NextNodeId("choice");
      if yes.runnable.Flow? && (yes.session.Some? || yes.checked.Some?) {
        failed := true;
        return;
      }
      var thenArm, thenNeeds := BuildRunnableNode(id + ":then", yes);
      if no.runnable.Flow? && (no.session.Some? || no.checked.Some?) {
        failed := true;
        return;
      }
      var elseArm, elseNeeds := BuildRunnableNode(id + ":else", no);
      var dependencies := CollectDependencies(condition, []);
      dependencies := AddAll(dependencies, thenNeeds);
      dependencies := AddAll(dependencies, elseNeeds);
      nodes := nodes + [ChoiceNode(id, Serialize(condition), thenArm, elseArm, dependencies, yes.checked, no.checked)];
    }
  }
}
