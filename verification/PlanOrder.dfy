/**
 Dependencies of a plan: they are exactly what a node needs, they cover every reference
 left in its inputs, and they make the node list a topological order.
 */
module PlanOrder {
  import opened Wrappers
  import opened Bindings
  import opened Plans

  // ----- sets that remember insertion ---------------------------------------

  lemma {:induction false} InInsertAll(ids: seq<string>, more: seq<string>)
    requires Distinct(ids)
    ensures Distinct(InsertAll(ids, more))
    ensures forall x :: x in InsertAll(ids, more) <==> x in ids || x in more
  {
    if more != [] {
      var n := |more| - 1;
      InInsertAll(ids, more[..n]);
      InsertAdds(InsertAll(ids, more[..n]), more[n]);
      assert more == more[..n] + [more[n]];
    }
  }

  lemma {:induction false} InWithout(ids: seq<string>, id: string)
    ensures forall x :: x in Without(ids, id) <==> x in ids && x != id
    ensures Distinct(ids) ==> Distinct(Without(ids, id))
  {
    if ids != [] {
      InWithout(ids[1..], id);
      assert ids == [ids[0]] + ids[1..];
      if Distinct(ids) {
        assert Distinct(ids[1..]);
        assert ids[0] !in ids[1..];
      }
    }
  }

  lemma {:induction false} InEligibility(v: Invocation)
    ensures Distinct(Eligibility(v))
    ensures forall x :: x in Eligibility(v) <==> Refers(Refs(v.input), x) || x in v.after
  {
    hide Distinct;
    EmptyDistinct();
    CollectAddsRefs(v.input, []);
    InInsertAll(Collect(v.input, []), v.after);
  }

  lemma {:induction false} EmptyDistinct()
    ensures Distinct([])
  {
  }

  ghost predicate ResumesFrom(v: Invocation, id: string) {
    Resumes(v) && v.session.value.from == id
  }

  /** A task depends on what its input refers to, on what it was told to wait for, and on the session it resumes. */
  lemma {:induction false} InDependencies(v: Invocation)
    ensures Distinct(Dependencies(v))
    ensures forall x :: x in Dependencies(v) <==> Refers(Refs(v.input), x) || x in v.after || ResumesFrom(v, x)
  {
    hide Distinct, Refers, Eligibility;
    InEligibility(v);
    if Resumes(v) { InsertAdds(Eligibility(v), v.session.value.from); }
  }

  lemma {:induction false} OneRef(node: string, path: seq<string>)
    requires node != ""
    ensures Refs(RefValue(Ref(node, path))) == [Ref(node, path)]
    ensures forall x :: Refers(Refs(RefValue(Ref(node, path))), x) <==> x == node && x != INPUT
  {
    hide RefValue, AsRef;
    RefValueIsRef(Ref(node, path));
    assert [Ref(node, path)][0].node == node;
  }

  /** The input of an attempt is local to its repeat. */
  lemma {:induction false} InAttempt(id: string, v: Invocation)
    ensures Refs(Attempt(id, v).input) == [Ref(id + ":input", [])]
    ensures Distinct(Attempt(id, v).dependsOn)
    ensures forall x :: x in Attempt(id, v).dependsOn <==> x != id + ":input" && (x in v.after || ResumesFrom(v, x))
  {
    hide Distinct, Refers, Dependencies, Refs, RefValue, Serialize;
    var local := RefValue(Ref(id + ":input", []));
    OneRef(id + ":input", []);
    SerializeKeepsRefs(local);
    InDependencies(v.(input := local));
    InWithout(Dependencies(v.(input := local)), id + ":input");
  }

  lemma {:induction false} InConditions(until: Value, next: Option<Value>)
    ensures Distinct(ConditionDependencies(until, next))
    ensures forall x :: x in ConditionDependencies(until, next) <==>
              Refers(Refs(until), x) || (next.Some? && Refers(Refs(next.value), x))
  {
    hide Distinct, Refers, Refs, Collect;
    EmptyDistinct();
    CollectAddsRefs(until, []);
    if next.Some? { CollectAddsRefs(next.value, Collect(until, [])); }
  }

  /** What a repeat waits for: everything its attempts need from outside of it. */
  lemma {:induction false} InRepeat(id: string, v: Invocation, until: Value, next: Option<Value>)
    ensures var r := RepeatOf(id, v, until, next);
            && Distinct(r.dependsOn)
            && (forall x :: x in r.dependsOn <==>
                  || Refers(Refs(v.input), x) || x in v.after
                  || (x != id + ":input" && ResumesFrom(v, x))
                  || (x != id + ":input" && x != id + ":attempt" &&
                      (Refers(Refs(until), x) || (next.Some? && Refers(Refs(next.value), x)))))
  {
    hide Distinct, Refers, Refs, Eligibility, Attempt, ConditionDependencies, Serialize;
    InEligibility(v);
    InAttempt(id, v);
    InInsertAll(Eligibility(v), Attempt(id, v).dependsOn);
    InConditions(until, next);
    InWithout(ConditionDependencies(until, next), id + ":input");
    InWithout(Without(ConditionDependencies(until, next), id + ":input"), id + ":attempt");
    InInsertAll(InsertAll(Eligibility(v), Attempt(id, v).dependsOn),
                Without(Without(ConditionDependencies(until, next), id + ":input"), id + ":attempt"));
  }

  /** What a choice waits for: its condition and what makes either arm eligible, but not the arms' sessions. */
  lemma {:induction false} InChoice(id: string, condition: Value, yes: Invocation, no: Invocation)
    ensures var c := ChoiceOf(id, condition, yes, no);
            && Distinct(c.dependsOn)
            && (forall x :: x in c.dependsOn <==>
                  || Refers(Refs(condition), x)
                  || Refers(Refs(yes.input), x) || x in yes.after || Refers(Refs(no.input), x) || x in no.after)
  {
    hide Distinct, Refers, Refs, Eligibility, RunnableOf, Serialize;
    EmptyDistinct();
    CollectAddsRefs(condition, []);
    InEligibility(yes);
    InEligibility(no);
    InInsertAll(Collect(condition, []), Eligibility(yes));
    InInsertAll(InsertAll(Collect(condition, []), Eligibility(yes)), Eligibility(no));
  }

  // ----- every reference left in a node is covered ---------------------------

  ghost predicate Within(v: Value, ids: seq<string>) {
    forall x :: Refers(Refs(v), x) ==> x in ids
  }

  ghost predicate RunnableCovered(node: RunnableNode) {
    Within(node.input, node.dependsOn) && Distinct(node.dependsOn)
  }

  /** The runtime can resolve every reference of a node from the workflow's input and its dependencies. */
  ghost predicate Covered(node: Node) {
    match node
    case Plain(r) => RunnableCovered(r)
    case Check(_, _, input, dependsOn) => Within(input, dependsOn) && Distinct(dependsOn)
    case Gate(_, input, checkId, dependsOn) => Within(input, dependsOn) && checkId in dependsOn && Distinct(dependsOn)
    case RepeatNode(id, input, dependsOn, attempt, until, next, _) =>
      && Within(input, dependsOn) && Distinct(dependsOn)
      && Within(attempt.input, [id + ":input"])
      && (forall x <- attempt.dependsOn :: x in dependsOn)
      && Within(until, dependsOn + [id + ":input", attempt.id])
      && (next.Some? ==> Within(next.value, dependsOn + [id + ":input", attempt.id]))
    case ChoiceNode(_, condition, yes, no, dependsOn, _, _) =>
      && Within(condition, dependsOn) && Distinct(dependsOn)
      && RunnableCovered(yes) && RunnableCovered(no) && Within(yes.input, dependsOn) && Within(no.input, dependsOn)
  }

  lemma {:induction false} RunnableIsCovered(id: string, v: Invocation)
    ensures RunnableCovered(RunnableOf(id, v))
  {
    hide Refers, Distinct, Dependencies, Refs;
    InDependencies(v);
    SerializeKeepsRefs(v.input);
  }

  lemma {:induction false} RepeatIsCovered(id: string, v: Invocation, until: Value, next: Option<Value>)
    ensures Covered(RepeatOf(id, v, until, next))
  {
    hide Distinct, Refs, Eligibility, Attempt, ConditionDependencies, Serialize, InsertAll, Without;
    var r := RepeatOf(id, v, until, next);
    assert r.attempt == Attempt(id, v) && r.attempt.id == id + ":attempt" by { AttemptId(id, v); }
    InRepeat(id, v, until, next);
    InAttempt(id, v);
    SerializeKeepsRefs(v.input);
    SerializeKeepsRefs(until);
    if next.Some? { SerializeKeepsRefs(next.value); }
    assert r.until == Serialize(until) && r.input == Serialize(v.input);
    assert next.Some? ==> r.next == Some(Serialize(next.value));
    assert Within(r.attempt.input, [id + ":input"]);
  }

  lemma {:induction false} AttemptId(id: string, v: Invocation)
    ensures Attempt(id, v).id == id + ":attempt"
  {
  }

  lemma {:induction false} ChoiceIsCovered(id: string, condition: Value, yes: Invocation, no: Invocation)
    ensures Covered(ChoiceOf(id, condition, yes, no))
  {
    hide Distinct, Refers, Refs, Eligibility, Serialize, InsertAll, RunnableCovered;
    InChoice(id, condition, yes, no);
    RunnableIsCovered(id + ":then", yes);
    RunnableIsCovered(id + ":else", no);
    SerializeKeepsRefs(condition);
    SerializeKeepsRefs(yes.input);
    SerializeKeepsRefs(no.input);
  }

  ghost predicate AllCovered(nodes: seq<Node>) {
    forall i | 0 <= i < |nodes| :: Covered(nodes[i])
  }

  lemma {:induction false} ValidationIsCovered(b: Builder, checker: Checker, candidate: Value)
    requires AllCovered(b.nodes)
    ensures AllCovered(AddValidation(b, checker, candidate).nodes)
  {
    hide Distinct, Refers, Refs, Serialize, Collect;
    EmptyDistinct();
    CollectAddsRefs(candidate, []);
    SerializeKeepsRefs(candidate);
    InsertAdds(Collect(candidate, []), NextId(b, CHECK));
  }

  lemma {:induction false} StepCovered(b: Builder, call: Call)
    requires AllCovered(b.nodes)
    ensures AllCovered(Step(b, call).nodes)
  {
    hide Covered, AddValidation, RunnableOf, RepeatOf, ChoiceOf, NextId, Bump;
    match call
    case Run(v) =>
      var id := NextId(b, v.runnable.id);
      RunnableIsCovered(id, v);
      PlainCovered(RunnableOf(id, v));
      var ran := Bump(b, v.runnable.id).(nodes := b.nodes + [Plain(RunnableOf(id, v))]);
      if v.runnable.Task? && v.checked.Some? { ValidationIsCovered(ran, v.checked.value, OutputOf(id, "output")); }
    case Validate(checker, candidate) => ValidationIsCovered(b, checker, candidate);
    case Repeat(v, until, next) => RepeatIsCovered(NextId(b, "repeat"), v, until, next);
    case Choose(condition, yes, no) => ChoiceIsCovered(NextId(b, "choice"), condition, yes, no);
  }

  lemma {:induction false} PlainCovered(node: RunnableNode)
    requires RunnableCovered(node)
    ensures Covered(Plain(node))
  {
  }

  /** Whatever a workflow calls, every reference in its plan is the input, a dependency, or local to its node. */
  lemma {:induction false} PlanIsCovered(calls: seq<Call>)
    ensures forall i | 0 <= i < |Build(calls).nodes| :: Covered(Build(calls).nodes[i])
  {
    hide Step, Covered;
    if calls != [] {
      PlanIsCovered(calls[..|calls| - 1]);
      StepCovered(Build(calls[..|calls| - 1]), calls[|calls| - 1]);
    }
  }

  // ----- the node list is a topological order --------------------------------

  ghost predicate Named(nodes: seq<Node>, id: string) {
    exists i | 0 <= i < |nodes| :: IdOf(nodes[i]) == id
  }

  ghost predicate ValueInScope(nodes: seq<Node>, v: Value) {
    forall x :: Refers(Refs(v), x) ==> Named(nodes, x)
  }

  ghost predicate InScope(nodes: seq<Node>, v: Invocation) {
    && ValueInScope(nodes, v.input) && (forall x <- v.after :: Named(nodes, x))
    && (forall x :: ResumesFrom(v, x) ==> Named(nodes, x))
  }

  /** The conditions of a repeat may also use its own attempt and the attempt's input. */
  ghost predicate ConditionInScope(nodes: seq<Node>, id: string, v: Value) {
    forall x :: Refers(Refs(v), x) ==> Named(nodes, x) || x == id + ":input" || x == id + ":attempt"
  }

  /** A call uses only handles that earlier calls have returned. */
  ghost predicate CallInScope(b: Builder, call: Call) {
    match call
    case Run(v) => InScope(b.nodes, v)
    case Validate(_, candidate) => ValueInScope(b.nodes, candidate)
    case Repeat(v, until, next) =>
      && InScope(b.nodes, v) && ConditionInScope(b.nodes, NextId(b, "repeat"), until)
      && (next.Some? ==> ConditionInScope(b.nodes, NextId(b, "repeat"), next.value))
    case Choose(condition, yes, no) => ValueInScope(b.nodes, condition) && InScope(b.nodes, yes) && InScope(b.nodes, no)
  }

  /** The dependencies of a node and of its parts. */
  function Needs(node: Node): seq<string> {
    match node
    case Plain(r) => r.dependsOn
    case RepeatNode(_, _, dependsOn, attempt, _, _, _) => dependsOn + attempt.dependsOn
    case ChoiceNode(_, _, yes, no, dependsOn, _, _) => dependsOn + yes.dependsOn + no.dependsOn
    case _ => node.dependsOn
  }

  ghost predicate AllNamed(nodes: seq<Node>, ids: seq<string>) {
    forall i | 0 <= i < |ids| :: Named(nodes, ids[i])
  }

  /** Every node comes after all that it needs. */
  ghost predicate Ordered(nodes: seq<Node>) {
    forall i | 0 <= i < |nodes| :: AllNamed(nodes[..i], Needs(nodes[i]))
  }

  lemma {:induction false} NamedOneMore(nodes: seq<Node>, node: Node, id: string)
    ensures Named(nodes + [node], id) <==> Named(nodes, id) || IdOf(node) == id
  {
    if Named(nodes, id) {
      var i :| 0 <= i < |nodes| && IdOf(nodes[i]) == id;
      assert IdOf((nodes + [node])[i]) == id;
    }
    if IdOf(node) == id { assert IdOf((nodes + [node])[|nodes|]) == id; }
    if Named(nodes + [node], id) {
      var i :| 0 <= i < |nodes + [node]| && IdOf((nodes + [node])[i]) == id;
      assert i < |nodes| ==> IdOf(nodes[i]) == id;
    }
  }

  lemma {:induction false} OrderedOneMore(nodes: seq<Node>, node: Node)
    requires Ordered(nodes) && AllNamed(nodes, Needs(node))
    ensures Ordered(nodes + [node])
  {
    hide AllNamed, Needs;
    forall i | 0 <= i < |nodes + [node]| ensures AllNamed((nodes + [node])[..i], Needs((nodes + [node])[i])) {
      assert (nodes + [node])[..i] == nodes[..i];
      assert nodes[..|nodes|] == nodes;
    }
  }

  lemma {:induction false} RunnableNamed(nodes: seq<Node>, id: string, v: Invocation)
    requires InScope(nodes, v)
    ensures AllNamed(nodes, RunnableOf(id, v).dependsOn)
  {
    hide Named, Dependencies, Refers, Refs, Distinct;
    InDependencies(v);
    assert forall i | 0 <= i < |Dependencies(v)| :: Dependencies(v)[i] in Dependencies(v);
  }

  lemma {:induction false} ValidationOrdered(b: Builder, checker: Checker, candidate: Value)
    requires Ordered(b.nodes) && ValueInScope(b.nodes, candidate)
    ensures Ordered(AddValidation(b, checker, candidate).nodes)
  {
    hide Named, Collect, Refers, Refs, Distinct, Ordered, Serialize, Bump, NextId;
    EmptyDistinct();
    CollectAddsRefs(candidate, []);
    var needed, input := Collect(candidate, []), Serialize(candidate);
    var check := Check(NextId(b, CHECK), checker, input, needed);
    var gate := Gate(NextId(b, GATE), input, check.id, Insert(needed, check.id));
    assert AllNamed(b.nodes, needed) by { assert forall i | 0 <= i < |needed| :: needed[i] in needed; }
    OrderedOneMore(b.nodes, check);
    forall x ensures Named(b.nodes + [check], x) <==> Named(b.nodes, x) || x == check.id {
      NamedOneMore(b.nodes, check, x);
    }
    InsertAdds(needed, check.id);
    assert AllNamed(b.nodes + [check], gate.dependsOn) by {
      assert forall i | 0 <= i < |gate.dependsOn| :: gate.dependsOn[i] in gate.dependsOn;
    }
    OrderedOneMore(b.nodes + [check], gate);
    assert b.nodes + [check] + [gate] == b.nodes + [check, gate];
  }

  lemma {:induction false} RepeatNamed(b: Builder, id: string, v: Invocation, until: Value, next: Option<Value>)
    requires InScope(b.nodes, v) && ConditionInScope(b.nodes, id, until)
    requires next.Some? ==> ConditionInScope(b.nodes, id, next.value)
    ensures AllNamed(b.nodes, Needs(RepeatOf(id, v, until, next)))
  {
    hide Named, Refers, Refs, Distinct, Attempt, Eligibility, ConditionDependencies, Serialize, InsertAll, Without;
    InRepeat(id, v, until, next);
    InAttempt(id, v);
    var r := RepeatOf(id, v, until, next);
    assert r.attempt == Attempt(id, v);
    var needs := Needs(r);
    forall i | 0 <= i < |needs| ensures Named(b.nodes, needs[i]) {
      assert needs[i] in r.dependsOn;
    }
  }

  lemma {:induction false} ChoiceNamed(b: Builder, id: string, condition: Value, yes: Invocation, no: Invocation)
    requires ValueInScope(b.nodes, condition) && InScope(b.nodes, yes) && InScope(b.nodes, no)
    ensures AllNamed(b.nodes, Needs(ChoiceOf(id, condition, yes, no)))
  {
    hide Named, Refers, Refs, Distinct, Eligibility, Serialize, InsertAll, RunnableOf;
    InChoice(id, condition, yes, no);
    RunnableNamed(b.nodes, id + ":then", yes);
    RunnableNamed(b.nodes, id + ":else", no);
    var c := ChoiceOf(id, condition, yes, no);
    var needs := Needs(c);
    forall i | 0 <= i < |needs| ensures Named(b.nodes, needs[i]) {
      assert needs[i] in c.dependsOn || needs[i] in c.thenArm.dependsOn || needs[i] in c.elseArm.dependsOn;
    }
  }

  lemma {:induction false} StepOrdered(b: Builder, call: Call)
    requires Ordered(b.nodes) && CallInScope(b, call)
    ensures Ordered(Step(b, call).nodes)
  {
    hide Ordered, AddValidation, InScope, RunnableOf, RepeatOf, ChoiceOf, Bump, NextId, Named;
    match call
    case Run(v) =>
      var id := NextId(b, v.runnable.id);
      RunnableNamed(b.nodes, id, v);
      OrderedOneMore(b.nodes, Plain(RunnableOf(id, v)));
      var ran := Bump(b, v.runnable.id).(nodes := b.nodes + [Plain(RunnableOf(id, v))]);
      if v.runnable.Task? && v.checked.Some? {
        NextIdNotEmpty(b, v.runnable.id);
        OutputInScope(b.nodes, id, v);
        ValidationOrdered(ran, v.checked.value, OutputOf(id, "output"));
      }
    case Validate(checker, candidate) => ValidationOrdered(b, checker, candidate);
    case Repeat(v, until, next) =>
      RepeatNamed(b, NextId(b, "repeat"), v, until, next);
      OrderedOneMore(b.nodes, RepeatOf(NextId(b, "repeat"), v, until, next));
    case Choose(condition, yes, no) =>
      ChoiceNamed(b, NextId(b, "choice"), condition, yes, no);
      OrderedOneMore(b.nodes, ChoiceOf(NextId(b, "choice"), condition, yes, no));
  }

  lemma {:induction false} OutputInScope(nodes: seq<Node>, id: string, v: Invocation)
    requires id != ""
    ensures ValueInScope(nodes + [Plain(RunnableOf(id, v))], OutputOf(id, "output"))
  {
    hide Refers, Refs, Named, RefValue, Dependencies, Serialize;
    NamedOneMore(nodes, Plain(RunnableOf(id, v)), id);
    OneRef(id, ["output"]);
  }

  lemma {:induction false} NextIdNotEmpty(b: Builder, prefix: string)
    ensures NextId(b, prefix) != ""
  {
  }

  /** If every call uses only handles of earlier calls, every node of the plan follows what it depends on. */
  lemma {:induction false} PlanIsOrdered(calls: seq<Call>)
    requires forall i | 0 <= i < |calls| :: CallInScope(Build(calls[..i]), calls[i])
    ensures Ordered(Build(calls).nodes)
  {
    if calls != [] {
      hide Step, CallInScope, Ordered;
      var n := |calls| - 1;
      forall i | 0 <= i < n ensures CallInScope(Build(calls[..n][..i]), calls[..n][i]) {
        assert calls[..n][..i] == calls[..i];
      }
      PlanIsOrdered(calls[..n]);
      StepOrdered(Build(calls[..n]), calls[n]);
    }
  }

}
