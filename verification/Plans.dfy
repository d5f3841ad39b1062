/**
 Plans as they are built call by call: node ids, serialised inputs and dependencies.
 */
module Plans {
  import opened Wrappers
  import opened Bindings
  import opened NodeIds

  /** A task or a workflow to run; `definition` is its identity, as two definitions may share an id. */
  datatype Runnable = Task(id: string, definition: nat) | Flow(id: string, definition: nat)

  datatype Session = Isolated | Reuse(from: string) | Fork(from: string)

  datatype Checker = Mechanical(id: string, definition: nat) | ByTask(id: string, definition: nat)

  /** `after` holds the node ids of the handles given as `dependsOn`. */
  datatype Invocation = Invocation(runnable: Runnable, input: Value, after: seq<string>, session: Option<Session>,
                                   checked: Option<Checker>)

  /** The calls an authored workflow makes; a repeat's `input` is its initial input. */
  datatype Call = Run(invocation: Invocation) | Validate(checker: Checker, candidate: Value)
                | Repeat(invocation: Invocation, until: Value, next: Option<Value>)
                | Choose(condition: Value, thenArm: Invocation, elseArm: Invocation)

  datatype RunnableNode = RunnableNode(id: string, runnable: Runnable, session: Option<Session>, input: Value,
                                       dependsOn: seq<string>)

  datatype Node = Plain(node: RunnableNode)
                | Check(id: string, source: Checker, input: Value, dependsOn: seq<string>)
                | Gate(id: string, input: Value, checkId: string, dependsOn: seq<string>)
                | RepeatNode(id: string, input: Value, dependsOn: seq<string>, attempt: RunnableNode, until: Value,
                             next: Option<Value>, validation: Option<Checker>)
                | ChoiceNode(id: string, condition: Value, thenArm: RunnableNode, elseArm: RunnableNode,
                             dependsOn: seq<string>, thenValidation: Option<Checker>, elseValidation: Option<Checker>)

  /** `failed` once a call has thrown. */
  datatype Builder = Builder(counts: map<string, nat>, nodes: seq<Node>, failed: bool)

  const CHECK := "validation.check"
  const GATE := "validation.gate"

  function Count(b: Builder, prefix: string): nat {
    if prefix in b.counts then b.counts[prefix] else 0
  }

  function NextId(b: Builder, prefix: string): string {
    Label(prefix, Count(b, prefix) + 1)
  }

  function Bump(b: Builder, prefix: string): Builder {
    b.(counts := b.counts[prefix := Count(b, prefix) + 1])
  }

  function OutputOf(id: string, field: string): Value {
    RefValue(Ref(id, [field]))
  }

  function InsertAll(ids: seq<string>, more: seq<string>): seq<string> {
    if more == [] then ids else Insert(InsertAll(ids, more[..|more| - 1]), more[|more| - 1])
  }

  /** What makes a runnable eligible: its input and its explicit dependencies. */
  function Eligibility(v: Invocation): seq<string> {
    InsertAll(Collect(v.input, []), v.after)
  }

  predicate Resumes(v: Invocation) {
    v.runnable.Task? && v.session.Some? && !v.session.value.Isolated?
  }

  function Dependencies(v: Invocation): seq<string> {
    if Resumes(v) then Insert(Eligibility(v), v.session.value.from) else Eligibility(v)
  }

  function RunnableOf(id: string, v: Invocation): RunnableNode {
    RunnableNode(id, v.runnable, if v.runnable.Task? then v.session else None, Serialize(v.input), Dependencies(v))
  }

  /** A validation: the check of a value, and the gate that waits for it. */
  function AddValidation(b: Builder, checker: Checker, candidate: Value): Builder {
    var checkId, gateId := NextId(b, CHECK), NextId(b, GATE);
    var needed, input := Collect(candidate, []), Serialize(candidate);
    Bump(Bump(b, CHECK), GATE).(nodes := b.nodes + [Check(checkId, checker, input, needed),
                                                     Gate(gateId, input, checkId, Insert(needed, checkId))])
  }

  function AddRun(b: Builder, v: Invocation): Builder {
    var id := NextId(b, v.runnable.id);
    var ran := Bump(b, v.runnable.id).(nodes := b.nodes + [Plain(RunnableOf(id, v))]);
    if v.runnable.Task? && v.checked.Some? then AddValidation(ran, v.checked.value, OutputOf(id, "output")) else ran
  }

  function Without(ids: seq<string>, id: string): seq<string> {
    if ids == [] then []
    else if ids[0] == id then Without(ids[1..], id)
    else [ids[0]] + Without(ids[1..], id)
  }

  function Attempt(id: string, v: Invocation): RunnableNode {
    var built := RunnableOf(id + ":attempt", v.(input := RefValue(Ref(id + ":input", []))));
    built.(dependsOn := Without(built.dependsOn, id + ":input"))
  }

  function ConditionDependencies(until: Value, next: Option<Value>): seq<string> {
    if next.Some? then Collect(next.value, Collect(until, [])) else Collect(until, [])
  }

  function RepeatOf(id: string, v: Invocation, until: Value, next: Option<Value>): Node {
    var attempt := Attempt(id, v);
    var early := InsertAll(Eligibility(v), attempt.dependsOn);
    var late := Without(Without(ConditionDependencies(until, next), id + ":input"), id + ":attempt");
    RepeatNode(id, Serialize(v.input), InsertAll(early, late), attempt, Serialize(until),
               if next.Some? then Some(Serialize(next.value)) else None, v.checked)
  }

  function ChoiceOf(id: string, condition: Value, yes: Invocation, no: Invocation): Node {
    ChoiceNode(id, Serialize(condition), RunnableOf(id + ":then", yes), RunnableOf(id + ":else", no),
               InsertAll(InsertAll(Collect(condition, []), Eligibility(yes)), Eligibility(no)), yes.checked, no.checked)
  }

  /** An arm that is a workflow takes no task options. */
  predicate BadArm(arm: Invocation) {
    arm.runnable.Flow? && (arm.session.Some? || arm.checked.Some?)
  }

  function Step(b: Builder, call: Call): Builder {
    if b.failed then b
    else match call
      case Run(v) => AddRun(b, v)
      case Validate(checker, candidate) => AddValidation(b, checker, candidate)
      case Repeat(v, until, next) =>
        Bump(b, "repeat").(nodes := b.nodes + [RepeatOf(NextId(b, "repeat"), v, until, next)])
      case Choose(condition, yes, no) =>
        if BadArm(yes) || BadArm(no) then b.(failed := true)
        else Bump(b, "choice").(nodes := b.nodes + [ChoiceOf(NextId(b, "choice"), condition, yes, no)])
  }

  function Build(calls: seq<Call>): Builder {
    if calls == [] then Builder(map[], [], false) else Step(Build(calls[..|calls| - 1]), calls[|calls| - 1])
  }

  function IdOf(node: Node): string {
    if node.Plain? then node.node.id else node.id
  }

  /** Every id of a node: its own first, then those of its parts. */
  function AllIds(node: Node): seq<string> {
    match node
    case RepeatNode(id, _, _, attempt, _, _, _) => [id, attempt.id, id + ":input"]
    case ChoiceNode(id, _, yes, no, _, _, _) => [id, yes.id, no.id]
    case _ => [IdOf(node)]
  }

  // ----- ids are distinct --------------------------------------------------

  /** The id was given out by a builder with these counts. */
  ghost predicate Issued(b: Builder, id: string) {
    exists prefix, k :: 1 <= k <= Count(b, prefix) && id == Label(prefix, k)
  }

  predicate Parted(node: Node) {
    match node
    case RepeatNode(id, _, _, attempt, _, _, _) => attempt.id == id + ":" + "attempt"
    case ChoiceNode(id, _, yes, no, _, _, _) => yes.id == id + ":" + "then" && no.id == id + ":" + "else"
    case _ => true
  }

  ghost predicate WellNumbered(b: Builder) {
    && (forall i | 0 <= i < |b.nodes| :: Issued(b, IdOf(b.nodes[i])) && Parted(b.nodes[i]))
    && (forall i, j | 0 <= i < j < |b.nodes| :: IdOf(b.nodes[i]) != IdOf(b.nodes[j]))
  }

  lemma {:induction false} BumpKeepsIssued(b: Builder, prefix: string, id: string)
    requires Issued(b, id)
    ensures Issued(Bump(b, prefix), id)
  {
    var p, k :| 1 <= k <= Count(b, p) && id == Label(p, k);
    assert k <= Count(Bump(b, prefix), p);
  }

  lemma {:induction false} NextIsNew(b: Builder, prefix: string)
    ensures !Issued(b, NextId(b, prefix)) && Issued(Bump(b, prefix), NextId(b, prefix))
  {
    if Issued(b, NextId(b, prefix)) {
      var p, k :| 1 <= k <= Count(b, p) && NextId(b, prefix) == Label(p, k);
      LabelIdentifies(p, k, prefix, Count(b, prefix) + 1);
      assert false;
    }
    assert Count(Bump(b, prefix), prefix) == Count(b, prefix) + 1;
  }

  lemma {:induction false} AddNodeNumbered(b: Builder, prefix: string, node: Node)
    requires WellNumbered(b) && IdOf(node) == NextId(b, prefix) && Parted(node)
    ensures WellNumbered(Bump(b, prefix).(nodes := b.nodes + [node]))
  {
    hide Issued;
    var after := Bump(b, prefix).(nodes := b.nodes + [node]);
    NextIsNew(b, prefix);
    forall i | 0 <= i < |after.nodes| ensures Issued(after, IdOf(after.nodes[i])) && Parted(after.nodes[i]) {
      if i < |b.nodes| {
        assert after.nodes[i] == b.nodes[i];
        BumpKeepsIssued(b, prefix, IdOf(b.nodes[i]));
        SameCounts(Bump(b, prefix), after, IdOf(b.nodes[i]));
      } else {
        SameCounts(Bump(b, prefix), after, IdOf(node));
      }
    }
  }

  lemma {:induction false} SameCounts(a: Builder, b: Builder, id: string)
    requires Issued(a, id) && a.counts == b.counts
    ensures Issued(b, id)
  {
    var p, k :| 1 <= k <= Count(a, p) && id == Label(p, k);
    assert k <= Count(b, p);
  }

  lemma {:induction false} AddValidationNumbered(b: Builder, checker: Checker, candidate: Value)
    requires WellNumbered(b)
    ensures WellNumbered(AddValidation(b, checker, candidate))
  {
    hide WellNumbered, Collect, Serialize;
    var needed, input := Collect(candidate, []), Serialize(candidate);
    var check := Check(NextId(b, CHECK), checker, input, needed);
    var once := Bump(b, CHECK).(nodes := b.nodes + [check]);
    AddNodeNumbered(b, CHECK, check);
    assert CHECK[|CHECK| - 1] != GATE[|GATE| - 1];
    assert NextId(once, GATE) == NextId(b, GATE);
    var gate := Gate(NextId(b, GATE), input, check.id, Insert(needed, check.id));
    AddNodeNumbered(once, GATE, gate);
    assert b.nodes + [check] + [gate] == b.nodes + [check, gate];
    assert AddValidation(b, checker, candidate) == Bump(once, GATE).(nodes := once.nodes + [gate]);
  }

  lemma {:induction false} StepNumbered(b: Builder, call: Call)
    requires WellNumbered(b)
    ensures WellNumbered(Step(b, call))
  {
    hide WellNumbered, AddValidation, Collect, Serialize, Eligibility, Dependencies, InsertAll, Without;
    if b.failed { return; }
    match call
    case Run(v) =>
      var id := NextId(b, v.runnable.id);
      AddNodeNumbered(b, v.runnable.id, Plain(RunnableOf(id, v)));
      if v.runnable.Task? && v.checked.Some? {
        AddValidationNumbered(Bump(b, v.runnable.id).(nodes := b.nodes + [Plain(RunnableOf(id, v))]),
                              v.checked.value, OutputOf(id, "output"));
      }
    case Validate(checker, candidate) => AddValidationNumbered(b, checker, candidate);
    case Repeat(v, until, next) => AddNodeNumbered(b, "repeat", RepeatOf(NextId(b, "repeat"), v, until, next));
    case Choose(condition, yes, no) =>
      if BadArm(yes) || BadArm(no) {
        FailingKeepsNumbers(b);
      } else {
        AddNodeNumbered(b, "choice", ChoiceOf(NextId(b, "choice"), condition, yes, no));
      }
  }

  lemma {:induction false} FailingKeepsNumbers(b: Builder)
    requires WellNumbered(b)
    ensures WellNumbered(b.(failed := true))
  {
    forall i | 0 <= i < |b.nodes| ensures Issued(b.(failed := true), IdOf(b.nodes[i])) {
      SameCounts(b, b.(failed := true), IdOf(b.nodes[i]));
    }
  }

  lemma {:induction false} BuildNumbered(calls: seq<Call>)
    ensures WellNumbered(Build(calls))
  {
    hide Step;
    if calls != [] {
      BuildNumbered(calls[..|calls| - 1]);
      StepNumbered(Build(calls[..|calls| - 1]), calls[|calls| - 1]);
    }
  }

  /** No two nodes of a plan, nor parts of nodes, have the same id; the workflow's input is none of them. */
  lemma {:induction false} AllIdsDiffer(calls: seq<Call>, i: nat, x: nat, j: nat, y: nat)
    requires var nodes := Build(calls).nodes;
             i < |nodes| && x < |AllIds(nodes[i])| && j < |nodes| && y < |AllIds(nodes[j])|
    ensures var nodes := Build(calls).nodes;
            && (AllIds(nodes[i])[x] == AllIds(nodes[j])[y] ==> i == j && x == y)
            && AllIds(nodes[i])[x] != INPUT
  {
    BuildNumbered(calls);
    hide Build;
    var nodes := Build(calls).nodes;
    if AllIds(nodes[i])[x] == AllIds(nodes[j])[y] { PartsIdentify(Build(calls), nodes[i], x, nodes[j], y); }
    IdHasColon(Build(calls), nodes[i], x);
  }

  lemma {:induction false} IdHasColon(b: Builder, node: Node, x: nat)
    requires Issued(b, IdOf(node)) && Parted(node) && x < |AllIds(node)|
    ensures AllIds(node)[x] != INPUT
  {
    var p, k :| 1 <= k <= Count(b, p) && IdOf(node) == Label(p, k);
    assert IdOf(node)[|p|] == ':';
    assert AllIds(node)[x][|p|] == ':';
    assert forall i | 0 <= i < |INPUT| :: INPUT[i] != ':';
  }

  /** The part of a node that one of its ids names, if it is not the node itself. */
  function PartName(node: Node, x: nat): string
    requires x < |AllIds(node)|
    ensures x > 0 ==> IsWord(PartName(node, x))
  {
    if x == 0 then ""
    else if node.RepeatNode? then (if x == 1 then "attempt" else "input")
    else (if x == 1 then "then" else "else")
  }

  lemma {:induction false} PartNames(node: Node, x: nat)
    requires Parted(node) && x < |AllIds(node)|
    ensures AllIds(node)[x] == if x == 0 then IdOf(node) else IdOf(node) + ":" + PartName(node, x)
  {
  }

  lemma {:induction false} PartNamesDiffer(node: Node, x: nat, y: nat)
    requires x < |AllIds(node)| && y < |AllIds(node)| && PartName(node, x) == PartName(node, y)
    ensures x == y
  {
    assert "attempt"[0] != "input"[0] && "then"[0] != "else"[0];
  }

  lemma {:induction false} PartsIdentify(b: Builder, m: Node, x: nat, n: Node, y: nat)
    requires WellNumbered(b) && m in b.nodes && n in b.nodes
    requires x < |AllIds(m)| && y < |AllIds(n)| && AllIds(m)[x] == AllIds(n)[y]
    ensures IdOf(m) == IdOf(n) && m == n && x == y
  {
    hide AllIds, PartName;
    PartNames(m, x);
    PartNames(n, y);
    if x == 0 && y > 0 { OwnIsNoPart(b, IdOf(m), IdOf(n), PartName(n, y)); }
    if y == 0 && x > 0 { OwnIsNoPart(b, IdOf(n), IdOf(m), PartName(m, x)); }
    if x > 0 && y > 0 { PartIdentifies(IdOf(m), PartName(m, x), IdOf(n), PartName(n, y)); }
    PartNamesDiffer(m, x, y);
  }

  lemma {:induction false} OwnIsNoPart(b: Builder, id: string, other: string, part: string)
    requires Issued(b, id) && IsWord(part)
    ensures id != other + ":" + part
  {
    var p, k :| 1 <= k <= Count(b, p) && id == Label(p, k);
    PartIsNoLabel(other, part, p, k);
  }
}
