/**
 Composition of workflows: building a workflow builds every workflow it nests, rejects a
 nested id that is being built already and a workflow arm with task options, and collects
 one registry of definitions.
 */
module Composition {
  import opened Wrappers
  import opened Bindings
  import opened Plans

  /**
   A definition a call registers, or that it refuses to.  Definitions are told apart by
   identity, workflows by their place in the table.
   */
  datatype Mention = TaskDefinition(id: string, identity: nat) | ValidatorDefinition(id: string, identity: nat)
                   | Nested(which: nat) | Refused

  datatype Workflow = Workflow(id: string, calls: seq<Call>)

  /** The three registries in one, keyed by kind and id. */
  datatype Key = TaskKey(id: string) | ValidatorKey(id: string) | WorkflowKey(id: string) | NoKey

  type Registry = map<Key, nat>

  function MentionOf(r: Runnable): Mention {
    if r.Task? then TaskDefinition(r.id, r.definition) else Nested(r.definition)
  }

  function CheckerMention(checker: Option<Checker>): seq<Mention> {
    match checker
    case None => []
    case Some(Mechanical(id, identity)) => [ValidatorDefinition(id, identity)]
    case Some(ByTask(id, identity)) => [TaskDefinition(id, identity)]
  }

  function ArmMentions(arm: Invocation): seq<Mention> {
    if BadArm(arm) then [Refused] else [MentionOf(arm.runnable)] + CheckerMention(arm.checked)
  }

  /** What a call registers, in order; running a workflow ignores a validator. */
  function MentionsOf(call: Call): seq<Mention> {
    match call
    case Run(v) => [MentionOf(v.runnable)] + CheckerMention(if v.runnable.Task? then v.checked else None)
    case Validate(checker, _) => CheckerMention(Some(checker))
    case Repeat(v, _, _) => [MentionOf(v.runnable)] + CheckerMention(v.checked)
    case Choose(_, yes, no) => ArmMentions(yes) + ArmMentions(no)
  }

  function Mentions(calls: seq<Call>): seq<Mention> {
    if calls == [] then [] else Mentions(calls[..|calls| - 1]) + MentionsOf(calls[|calls| - 1])
  }

  /** What a call runs; an arm that is a workflow with task options is refused. */
  predicate Runs(call: Call, r: Runnable) {
    match call
    case Run(v) => v.runnable == r
    case Validate(_, _) => false
    case Repeat(v, _, _) => v.runnable == r
    case Choose(_, yes, no) => (yes.runnable == r && !TooManyOptions(yes)) || (no.runnable == r && !TooManyOptions(no))
  }

  predicate TooManyOptions(arm: Invocation) {
    !arm.runnable.Task? && (arm.session != None || arm.checked != None)
  }

  predicate ChecksWith(call: Call, checker: Checker) {
    match call
    case Run(v) => v.runnable.Task? && v.checked == Some(checker)
    case Validate(source, _) => source == checker
    case Repeat(v, _, _) => v.checked == Some(checker)
    case Choose(_, yes, no) =>
      (yes.checked == Some(checker) && yes.runnable.Task?) || (no.checked == Some(checker) && no.runnable.Task?)
  }

  /** The call runs the definition, or checks with it. */
  ghost predicate Names(call: Call, m: Mention) {
    match m
    case TaskDefinition(id, identity) => Runs(call, Task(id, identity)) || ChecksWith(call, ByTask(id, identity))
    case ValidatorDefinition(id, identity) => ChecksWith(call, Mechanical(id, identity))
    case Nested(which) => exists id :: Runs(call, Flow(id, which))
    case Refused => call.Choose? && (TooManyOptions(call.thenArm) || TooManyOptions(call.elseArm))
  }

  lemma {:induction false} ArmNames(arm: Invocation, m: Mention)
    ensures m in ArmMentions(arm) <==>
            if TooManyOptions(arm) then m == Refused
            else m == MentionOf(arm.runnable) || m in CheckerMention(arm.checked)
    ensures TooManyOptions(arm) <==> BadArm(arm)
  {
  }

  lemma {:induction false} CheckerNamed(checked: Option<Checker>, m: Mention)
    ensures m in CheckerMention(checked) <==>
            || (m.TaskDefinition? && checked == Some(ByTask(m.id, m.identity)))
            || (m.ValidatorDefinition? && checked == Some(Mechanical(m.id, m.identity)))
  {
  }

  lemma {:induction false} RunnableNamed(r: Runnable, m: Mention)
    ensures m == MentionOf(r) <==>
            || (m.TaskDefinition? && r == Task(m.id, m.identity)) || (m.Nested? && r == Flow(r.id, m.which))
  {
  }

  lemma {:induction false} CallNames(call: Call, m: Mention)
    ensures m in MentionsOf(call) <==> Names(call, m)
  {
    hide ArmMentions, CheckerMention, MentionOf;
    match call
    case Run(v) =>
      CheckerNamed(if v.runnable.Task? then v.checked else None, m);
      RunnableNamed(v.runnable, m);
      FlowNamed(call, m, v.runnable.id);
    case Validate(checker, _) => CheckerNamed(Some(checker), m);
    case Repeat(v, _, _) =>
      CheckerNamed(v.checked, m);
      RunnableNamed(v.runnable, m);
      FlowNamed(call, m, v.runnable.id);
    case Choose(_, yes, no) =>
      ArmNames(yes, m);
      ArmNames(no, m);
      CheckerNamed(yes.checked, m);
      CheckerNamed(no.checked, m);
      RunnableNamed(yes.runnable, m);
      RunnableNamed(no.runnable, m);
      FlowNamed(call, m, yes.runnable.id);
      FlowNamed(call, m, no.runnable.id);
  }

  lemma {:induction false} FlowNamed(call: Call, m: Mention, id: string)
    ensures m.Nested? && Runs(call, Flow(id, m.which)) ==> Names(call, m)
  {
  }

  /** A workflow mentions exactly what one of its calls runs or checks with. */
  lemma {:induction false} MentionedExactly(calls: seq<Call>, m: Mention)
    ensures m in Mentions(calls) <==> exists i | 0 <= i < |calls| :: Names(calls[i], m)
  {
    hide MentionsOf, Names;
    if calls != [] {
      var n := |calls| - 1;
      MentionedExactly(calls[..n], m);
      CallNames(calls[n], m);
      assert forall i | 0 <= i < n :: calls[..n][i] == calls[i];
    }
  }

  /** Every nested workflow is in the table. */
  predicate Closed(table: seq<Workflow>) {
    forall w | 0 <= w < |table| :: forall i | 0 <= i < |Mentions(table[w].calls)| ::
      Mentions(table[w].calls)[i].Nested? ==> Mentions(table[w].calls)[i].which < |table|
  }

  function Of(table: seq<Workflow>, w: nat): seq<Mention>
    requires w < |table|
  {
    Mentions(table[w].calls)
  }

  function KeyOf(table: seq<Workflow>, m: Mention): Key {
    match m
    case TaskDefinition(id, _) => TaskKey(id)
    case ValidatorDefinition(id, _) => ValidatorKey(id)
    case Nested(u) => WorkflowKey(if u < |table| then table[u].id else "")
    case Refused => NoKey
  }

  function ValueOf(m: Mention): nat {
    match m
    case TaskDefinition(_, identity) => identity
    case ValidatorDefinition(_, identity) => identity
    case Nested(u) => u
    case Refused => 0
  }

  function Register(r: Registry, k: Key, value: nat): Option<Registry> {
    if k in r && r[k] != value then None else Some(r[k := value])
  }

  predicate Agree(r: Registry, s: Registry) {
    forall k <- s :: k in r ==> r[k] == s[k]
  }

  function Merge(r: Registry, s: Registry): Option<Registry> {
    if Agree(r, s) then Some(r + s) else None
  }

  function Ids(table: seq<Workflow>): set<string> {
    set w | 0 <= w < |table| :: table[w].id
  }

  lemma {:induction false} MoreBuilding(table: seq<Workflow>, building: set<string>, u: nat)
    requires u < |table| && table[u].id !in building
    ensures |Ids(table) - (building + {table[u].id})| < |Ids(table) - building|
  {
    assert table[u].id in Ids(table);
    assert Ids(table) - building == (Ids(table) - (building + {table[u].id})) + {table[u].id};
  }

  /**
   The registry after the first `n` mentions of a workflow; nothing when one of them throws.
   Each nested build has one id less that is not yet being built.
   */
  function BuildFirst(table: seq<Workflow>, w: nat, n: nat, building: set<string>): Option<Registry>
    requires Closed(table) && w < |table| && n <= |Of(table, w)|
    decreases |Ids(table) - building|, n
  {
    if n == 0 then Some(map[])
    else
      var m, before := Of(table, w)[n - 1], BuildFirst(table, w, n - 1, building);
      if before.None? || m.Refused? then None
      else if !m.Nested? then Register(before.value, KeyOf(table, m), ValueOf(m))
      else if table[m.which].id in building then None
      else
        MoreBuilding(table, building, m.which);
        var nested := BuildFirst(table, m.which, |Of(table, m.which)|, building + {table[m.which].id});
        if nested.None? then None
        else
          var known := Register(before.value, KeyOf(table, m), ValueOf(m));
          if known.None? then None else Merge(known.value, nested.value)
  }

  function BuildAll(table: seq<Workflow>, w: nat): Option<Registry>
    requires Closed(table) && w < |table|
  {
    BuildFirst(table, w, |Of(table, w)|, {table[w].id})
  }

  // ----- what is nested ------------------------------------------------------

  /** A workflow, one it nests, one that one nests, and so on. */
  ghost predicate Chain(table: seq<Workflow>, p: seq<nat>) {
    && |p| > 0 && (forall i | 0 <= i < |p| :: p[i] < |table|)
    && (forall i | 0 < i < |p| :: Nested(p[i]) in Of(table, p[i - 1]))
  }

  ghost predicate ChainFrom(table: seq<Workflow>, w: nat, p: seq<nat>) {
    Chain(table, p) && p[0] == w
  }

  /** Some workflow nested in `w` at any depth, or `w` itself, makes the mention. */
  ghost predicate Reaches(table: seq<Workflow>, w: nat, m: Mention) {
    exists p :: ChainFrom(table, w, p) && m in Of(table, p[|p| - 1])
  }

  ghost predicate ReachesFirst(table: seq<Workflow>, w: nat, n: nat, m: Mention)
    requires w < |table| && n <= |Of(table, w)|
  {
    exists i | 0 <= i < n :: Of(table, w)[i] == m || (Of(table, w)[i].Nested? && Reaches(table, Of(table, w)[i].which, m))
  }

  lemma {:induction false} ChainCons(table: seq<Workflow>, w: nat, u: nat, p: seq<nat>)
    requires w < |table| && ChainFrom(table, u, p) && Nested(u) in Of(table, w)
    ensures ChainFrom(table, w, [w] + p) && ([w] + p)[1..] == p && ([w] + p)[|p|] == p[|p| - 1]
  {
    hide Of;
    var q := [w] + p;
    assert forall i | 0 < i < |q| :: q[i] == p[i - 1];
    forall i | 0 < i < |q| ensures Nested(q[i]) in Of(table, q[i - 1]) {
      assert i > 1 ==> q[i - 1] == p[i - 2];
    }
  }

  lemma {:induction false} ChainTail(table: seq<Workflow>, w: nat, p: seq<nat>)
    requires ChainFrom(table, w, p) && |p| > 1
    ensures ChainFrom(table, p[1], p[1..]) && Nested(p[1]) in Of(table, w) && p[1..][|p| - 2] == p[|p| - 1]
  {
    hide Of;
    var q := p[1..];
    forall i | 0 < i < |q| ensures Nested(q[i]) in Of(table, q[i - 1]) {
      assert q[i] == p[i + 1] && q[i - 1] == p[i];
    }
  }

  lemma {:induction false} ReachesByNesting(table: seq<Workflow>, w: nat, u: nat, m: Mention)
    requires w < |table| && Nested(u) in Of(table, w) && Reaches(table, u, m)
    ensures Reaches(table, w, m)
  {
    hide Of;
    var p :| ChainFrom(table, u, p) && m in Of(table, p[|p| - 1]);
    ChainCons(table, w, u, p);
  }

  lemma {:induction false} ReachesDirectly(table: seq<Workflow>, w: nat, m: Mention)
    requires w < |table| && m in Of(table, w)
    ensures Reaches(table, w, m)
  {
    assert ChainFrom(table, w, [w]) && [w][|[w]| - 1] == w;
  }

  lemma {:induction false} ReachesIsFirst(table: seq<Workflow>, w: nat, m: Mention)
    requires w < |table|
    ensures Reaches(table, w, m) <==> ReachesFirst(table, w, |Of(table, w)|, m)
  {
    hide Mentions, Chain;
    var mentions := Of(table, w);
    if ReachesFirst(table, w, |mentions|, m) {
      var i :| 0 <= i < |mentions| && (mentions[i] == m || (mentions[i].Nested? && Reaches(table, mentions[i].which, m)));
      if mentions[i] == m { ReachesDirectly(table, w, m); } else { ReachesByNesting(table, w, mentions[i].which, m); }
    }
    if Reaches(table, w, m) {
      ReachedIsFirst(table, w, m);
    }
  }

  lemma {:induction false} ReachedIsFirst(table: seq<Workflow>, w: nat, m: Mention)
    requires w < |table| && Reaches(table, w, m)
    ensures ReachesFirst(table, w, |Of(table, w)|, m)
  {
    hide Of;
    var mentions := Of(table, w);
    var p :| ChainFrom(table, w, p) && m in Of(table, p[|p| - 1]);
    if |p| == 1 {
      var i :| 0 <= i < |mentions| && mentions[i] == m;
    } else {
      ChainTail(table, w, p);
      assert Reaches(table, p[1], m);
      var i :| 0 <= i < |mentions| && mentions[i] == Nested(p[1]);
    }
  }

  /** The ids along the chain are new and differ from one another. */
  ghost predicate Fresh(table: seq<Workflow>, p: seq<nat>, building: set<string>)
    requires forall i | 0 <= i < |p| :: p[i] < |table|
  {
    && (forall i | 0 <= i < |p| :: table[p[i]].id !in building)
    && (forall i, j | 0 <= i < j < |p| :: table[p[i]].id != table[p[j]].id)
  }

  ghost predicate NoCycle(table: seq<Workflow>, w: nat, building: set<string>) {
    forall p | ChainFrom(table, w, p) :: Fresh(table, p[1..], building)
  }

  ghost predicate NoCycleFirst(table: seq<Workflow>, w: nat, n: nat, building: set<string>)
    requires Closed(table) && w < |table| && n <= |Of(table, w)|
  {
    forall i | 0 <= i < n && Of(table, w)[i].Nested? ::
      var u := Of(table, w)[i].which;
      table[u].id !in building && NoCycle(table, u, building + {table[u].id})
  }

  lemma {:induction false} NoCycleIsFirst(table: seq<Workflow>, w: nat, building: set<string>)
    requires Closed(table) && w < |table|
    ensures NoCycle(table, w, building) <==> NoCycleFirst(table, w, |Of(table, w)|, building)
  {
    if NoCycle(table, w, building) {
      forall i | 0 <= i < |Of(table, w)| && Of(table, w)[i].Nested?
        ensures var u := Of(table, w)[i].which; table[u].id !in building && NoCycle(table, u, building + {table[u].id})
      {
        NoCycleNested(table, w, Of(table, w)[i].which, building);
      }
    }
    if NoCycleFirst(table, w, |Of(table, w)|, building) {
      forall p | ChainFrom(table, w, p) ensures Fresh(table, p[1..], building) {
        FreshTail(table, w, p, building);
      }
    }
  }

  lemma {:induction false} NoCycleNested(table: seq<Workflow>, w: nat, u: nat, building: set<string>)
    requires Closed(table) && w < |table| && Nested(u) in Of(table, w) && NoCycle(table, w, building)
    ensures u < |table| && table[u].id !in building && NoCycle(table, u, building + {table[u].id})
  {
    hide Mentions;
    assert ChainFrom(table, w, [w, u]);
    assert Fresh(table, [w, u][1..], building) && [w, u][1..][0] == u;
    forall p | ChainFrom(table, u, p) ensures Fresh(table, p[1..], building + {table[u].id}) {
      ChainCons(table, w, u, p);
      assert Fresh(table, ([w] + p)[1..], building);
    }
  }

  lemma {:induction false} FreshTail(table: seq<Workflow>, w: nat, p: seq<nat>, building: set<string>)
    requires Closed(table) && w < |table| && ChainFrom(table, w, p)
    requires NoCycleFirst(table, w, |Of(table, w)|, building)
    ensures Fresh(table, p[1..], building)
  {
    hide Mentions;
    if |p| > 1 {
      var q := p[1..];
      ChainTail(table, w, p);
      var i :| 0 <= i < |Of(table, w)| && Of(table, w)[i] == Nested(p[1]);
      assert NoCycle(table, p[1], building + {table[p[1]].id});
      assert Fresh(table, q[1..], building + {table[p[1]].id});
      assert q == [p[1]] + q[1..];
      assert forall i | 0 < i < |q| :: q[i] == q[1..][i - 1];
    }
  }

  // ----- a build that succeeds -------------------------------------------------

  predicate Has(table: seq<Workflow>, r: Registry, m: Mention) {
    !m.Refused? && KeyOf(table, m) in r && r[KeyOf(table, m)] == ValueOf(m)
  }

  /** The mention an entry of the registry comes from. */
  function MentionAt(k: Key, value: nat): Mention {
    match k
    case TaskKey(id) => TaskDefinition(id, value)
    case ValidatorKey(id) => ValidatorDefinition(id, value)
    case WorkflowKey(_) => Nested(value)
    case NoKey => Refused
  }

  /** The registry holds what the first `n` mentions reach, and nothing else; nothing reached is refused. */
  ghost predicate ExactFirst(table: seq<Workflow>, w: nat, n: nat, r: Registry)
    requires w < |table| && n <= |Of(table, w)|
  {
    && (forall m :: ReachesFirst(table, w, n, m) ==> Has(table, r, m))
    && (forall k <- r :: Entered(table, w, n, k, r[k]))
  }

  ghost predicate Entered(table: seq<Workflow>, w: nat, n: nat, k: Key, value: nat)
    requires w < |table| && n <= |Of(table, w)|
  {
    KeyOf(table, MentionAt(k, value)) == k && ReachesFirst(table, w, n, MentionAt(k, value))
  }

  lemma {:induction false} OneMoreMention(table: seq<Workflow>, w: nat, n: nat, m: Mention)
    requires w < |table| && 0 < n <= |Of(table, w)|
    ensures ReachesFirst(table, w, n, m) <==>
              var last := Of(table, w)[n - 1];
              ReachesFirst(table, w, n - 1, m) || last == m || (last.Nested? && Reaches(table, last.which, m))
  {
    hide Reaches;
    var last := Of(table, w)[n - 1];
    if last == m || (last.Nested? && Reaches(table, last.which, m)) {
      assert ReachesFirst(table, w, n, m);
    }
  }

  lemma {:induction false} RegisterIsExact(table: seq<Workflow>, w: nat, n: nat, before: Registry)
    requires Closed(table) && w < |table| && 0 < n <= |Of(table, w)| && ExactFirst(table, w, n - 1, before)
    requires !Of(table, w)[n - 1].Nested? && !Of(table, w)[n - 1].Refused?
    requires Register(before, KeyOf(table, Of(table, w)[n - 1]), ValueOf(Of(table, w)[n - 1])).Some?
    ensures ExactFirst(table, w, n, Register(before, KeyOf(table, Of(table, w)[n - 1]), ValueOf(Of(table, w)[n - 1])).value)
  {
    hide ReachesFirst, Reaches, Of, Closed;
    var last := Of(table, w)[n - 1];
    var r := Register(before, KeyOf(table, last), ValueOf(last)).value;
    forall m | ReachesFirst(table, w, n, m) ensures Has(table, r, m) {
      OneMoreMention(table, w, n, m);
    }
    forall k | k in r ensures Entered(table, w, n, k, r[k]) {
      if k != KeyOf(table, last) { assert Entered(table, w, n - 1, k, r[k]); }
      OneMoreMention(table, w, n, MentionAt(k, r[k]));
    }
  }

  lemma {:induction false} MergeIsExact(table: seq<Workflow>, w: nat, n: nat, before: Registry, nested: Registry)
    requires Closed(table) && w < |table| && 0 < n <= |Of(table, w)| && ExactFirst(table, w, n - 1, before)
    requires Of(table, w)[n - 1].Nested? && Of(table, w)[n - 1].which < |table|
    requires var u := Of(table, w)[n - 1].which; ExactFirst(table, u, |Of(table, u)|, nested)
    requires Register(before, KeyOf(table, Of(table, w)[n - 1]), ValueOf(Of(table, w)[n - 1])).Some?
    requires Merge(Register(before, KeyOf(table, Of(table, w)[n - 1]), ValueOf(Of(table, w)[n - 1])).value, nested).Some?
    ensures ExactFirst(table, w, n,
              Merge(Register(before, KeyOf(table, Of(table, w)[n - 1]), ValueOf(Of(table, w)[n - 1])).value, nested).value)
  {
    hide ReachesFirst, Reaches, Of, Closed;
    var last := Of(table, w)[n - 1];
    var known := Register(before, KeyOf(table, last), ValueOf(last)).value;
    var r := Merge(known, nested).value;
    assert forall k <- known :: k in r && r[k] == known[k];
    forall m | ReachesFirst(table, w, n, m) ensures Has(table, r, m) {
      OneMoreMention(table, w, n, m);
      ReachesIsFirst(table, last.which, m);
      if m == last { assert Has(table, known, m); }
      else if ReachesFirst(table, w, n - 1, m) { assert Has(table, before, m); }
      else { assert Has(table, nested, m); }
    }
    forall k | k in r ensures Entered(table, w, n, k, r[k]) {
      OneMoreMention(table, w, n, MentionAt(k, r[k]));
      ReachesIsFirst(table, last.which, MentionAt(k, r[k]));
      if k in nested {
        assert Entered(table, last.which, |Of(table, last.which)|, k, r[k]);
      } else if k != KeyOf(table, last) {
        assert Entered(table, w, n - 1, k, r[k]);
      }
    }
  }

  lemma {:induction false} NothingFirst(table: seq<Workflow>, w: nat, building: set<string>)
    requires Closed(table) && w < |table|
    ensures ExactFirst(table, w, 0, map[]) && NoCycleFirst(table, w, 0, building)
  {
  }

  lemma {:induction false} OneMoreNested(table: seq<Workflow>, w: nat, n: nat, building: set<string>)
    requires Closed(table) && w < |table| && 0 < n <= |Of(table, w)|
    ensures NoCycleFirst(table, w, n, building) <==>
              var last := Of(table, w)[n - 1];
              NoCycleFirst(table, w, n - 1, building) &&
              (last.Nested? ==> table[last.which].id !in building &&
                                NoCycle(table, last.which, building + {table[last.which].id}))
  {
    hide NoCycle;
  }

  lemma {:induction false} NestedInTable(table: seq<Workflow>, w: nat, i: nat)
    requires Closed(table) && w < |table| && i < |Of(table, w)| && Of(table, w)[i].Nested?
    ensures Of(table, w)[i].which < |table|
  {
    hide Mentions;
  }

  /** A build that succeeds met no cycle, and its registry is exactly what is nested. */
  lemma {:induction false} BuildIsSound(table: seq<Workflow>, w: nat, n: nat, building: set<string>)
    requires Closed(table) && w < |table| && n <= |Of(table, w)| && BuildFirst(table, w, n, building).Some?
    ensures ExactFirst(table, w, n, BuildFirst(table, w, n, building).value)
    ensures NoCycleFirst(table, w, n, building)
    decreases |Ids(table) - building|, n
  {
    hide ExactFirst, NoCycleFirst, NoCycle, Of, Closed, Register, Merge;
    if n == 0 {
      NothingFirst(table, w, building);
    } else {
      var last := Of(table, w)[n - 1];
      BuildIsSound(table, w, n - 1, building);
      OneMoreNested(table, w, n, building);
      var before := BuildFirst(table, w, n - 1, building).value;
      if last.Nested? {
        var u := last.which;
        NestedInTable(table, w, n - 1);
        MoreBuilding(table, building, u);
        BuildIsSound(table, u, |Of(table, u)|, building + {table[u].id});
        NoCycleIsFirst(table, u, building + {table[u].id});
        MergeIsExact(table, w, n, before, BuildFirst(table, u, |Of(table, u)|, building + {table[u].id}).value);
      } else {
        RegisterIsExact(table, w, n, before);
      }
    }
  }

  // ----- when a build succeeds ------------------------------------------------

  ghost predicate OneDefinitionFirst(table: seq<Workflow>, w: nat, n: nat)
    requires w < |table| && n <= |Of(table, w)|
  {
    forall m, o | ReachesFirst(table, w, n, m) && ReachesFirst(table, w, n, o) && KeyOf(table, m) == KeyOf(table, o) ::
      ValueOf(m) == ValueOf(o)
  }

  lemma {:induction false} FewerDefinitions(table: seq<Workflow>, w: nat, n: nat)
    requires Closed(table) && w < |table| && 0 < n <= |Of(table, w)| && OneDefinitionFirst(table, w, n)
    ensures OneDefinitionFirst(table, w, n - 1)
    ensures var last := Of(table, w)[n - 1];
            last.Nested? && last.which < |table| ==> OneDefinitionFirst(table, last.which, |Of(table, last.which)|)
  {
    hide Reaches, ReachesFirst, Of, Closed;
    forall m ensures ReachesFirst(table, w, n - 1, m) ==> ReachesFirst(table, w, n, m) {
      OneMoreMention(table, w, n, m);
    }
    var last := Of(table, w)[n - 1];
    if last.Nested? && last.which < |table| {
      forall m ensures ReachesFirst(table, last.which, |Of(table, last.which)|, m) ==> ReachesFirst(table, w, n, m) {
        OneMoreMention(table, w, n, m);
        ReachesIsFirst(table, last.which, m);
      }
    }
  }

  lemma {:induction false} Agreement(table: seq<Workflow>, w: nat, n: nat, before: Registry)
    requires Closed(table) && w < |table| && 0 < n <= |Of(table, w)| && OneDefinitionFirst(table, w, n)
    requires ExactFirst(table, w, n - 1, before)
    ensures Register(before, KeyOf(table, Of(table, w)[n - 1]), ValueOf(Of(table, w)[n - 1])).Some?
  {
    hide Reaches, ReachesFirst, Of, Closed;
    var last := Of(table, w)[n - 1];
    var k := KeyOf(table, last);
    OneMoreMention(table, w, n, last);
    if k in before {
      assert Entered(table, w, n - 1, k, before[k]);
      OneMoreMention(table, w, n, MentionAt(k, before[k]));
    }
  }

  lemma {:induction false} NestedAgreement(table: seq<Workflow>, w: nat, n: nat, before: Registry, nested: Registry)
    requires Closed(table) && w < |table| && 0 < n <= |Of(table, w)| && OneDefinitionFirst(table, w, n)
    requires ExactFirst(table, w, n - 1, before)
    requires Of(table, w)[n - 1].Nested? && Of(table, w)[n - 1].which < |table|
    requires var u := Of(table, w)[n - 1].which; ExactFirst(table, u, |Of(table, u)|, nested)
    requires Register(before, KeyOf(table, Of(table, w)[n - 1]), ValueOf(Of(table, w)[n - 1])).Some?
    ensures Merge(Register(before, KeyOf(table, Of(table, w)[n - 1]), ValueOf(Of(table, w)[n - 1])).value, nested).Some?
  {
    hide Reaches, ReachesFirst, Of, Closed;
    var last := Of(table, w)[n - 1];
    var known := Register(before, KeyOf(table, last), ValueOf(last)).value;
    forall k | k in nested && k in known ensures known[k] == nested[k] {
      var m := MentionAt(k, nested[k]);
      assert Entered(table, last.which, |Of(table, last.which)|, k, nested[k]);
      OneMoreMention(table, w, n, m);
      ReachesIsFirst(table, last.which, m);
      OneMoreMention(table, w, n, last);
      if k != KeyOf(table, last) {
        assert Entered(table, w, n - 1, k, before[k]);
        OneMoreMention(table, w, n, MentionAt(k, before[k]));
      }
    }
  }

  lemma {:induction false} BuildIsComplete(table: seq<Workflow>, w: nat, n: nat, building: set<string>)
    requires Closed(table) && w < |table| && n <= |Of(table, w)|
    requires NoCycleFirst(table, w, n, building) && OneDefinitionFirst(table, w, n)
    requires !ReachesFirst(table, w, n, Refused)
    ensures BuildFirst(table, w, n, building).Some?
    decreases |Ids(table) - building|, n
  {
    hide ExactFirst, NoCycleFirst, NoCycle, Of, Closed, Register, Merge, OneDefinitionFirst, Reaches, ReachesFirst;
    if n > 0 {
      var last := Of(table, w)[n - 1];
      OneMoreNested(table, w, n, building);
      OneMoreMention(table, w, n, Refused);
      FewerDefinitions(table, w, n);
      BuildIsComplete(table, w, n - 1, building);
      BuildIsSound(table, w, n - 1, building);
      var before := BuildFirst(table, w, n - 1, building).value;
      Agreement(table, w, n, before);
      if last.Nested? {
        var u := last.which;
        NestedInTable(table, w, n - 1);
        MoreBuilding(table, building, u);
        NoCycleIsFirst(table, u, building + {table[u].id});
        ReachesIsFirst(table, u, Refused);
        BuildIsComplete(table, u, |Of(table, u)|, building + {table[u].id});
        BuildIsSound(table, u, |Of(table, u)|, building + {table[u].id});
        NestedAgreement(table, w, n, before, BuildFirst(table, u, |Of(table, u)|, building + {table[u].id}).value);
      }
    }
  }

  /** No id occurs twice along any chain of nested workflows. */
  ghost predicate Acyclic(table: seq<Workflow>, w: nat) {
    forall p | ChainFrom(table, w, p) :: forall i, j | 0 <= i < j < |p| :: table[p[i]].id != table[p[j]].id
  }

  /** Nothing nested at any depth has two definitions under one id. */
  ghost predicate OneDefinition(table: seq<Workflow>, w: nat) {
    forall m, o | Reaches(table, w, m) && Reaches(table, w, o) && KeyOf(table, m) == KeyOf(table, o) ::
      ValueOf(m) == ValueOf(o)
  }

  lemma {:induction false} AcyclicIsNoCycle(table: seq<Workflow>, w: nat)
    requires w < |table|
    ensures Acyclic(table, w) <==> NoCycle(table, w, {table[w].id})
  {
    if NoCycle(table, w, {table[w].id}) {
      forall p | ChainFrom(table, w, p)
        ensures forall i, j | 0 <= i < j < |p| :: table[p[i]].id != table[p[j]].id
      {
        assert Fresh(table, p[1..], {table[w].id});
        assert forall i | 0 < i < |p| :: p[i] == p[1..][i - 1];
      }
    }
  }

  /** The plan of every workflow nested at any depth, and of `w` itself, can be built from its calls. */
  ghost predicate PlansBuild(table: seq<Workflow>, w: nat) {
    forall p | ChainFrom(table, w, p) :: !Build(table[p[|p| - 1]].calls).failed
  }

  lemma {:induction false} RefusedInCall(b: Builder, call: Call)
    ensures Step(b, call).failed <==> b.failed || Refused in MentionsOf(call)
  {
    hide RunnableOf, RepeatOf, ChoiceOf, NextId, Count, Collect, Serialize;
  }

  /** Only a workflow arm with task options makes a plan fail. */
  lemma {:induction false} RefusedFails(calls: seq<Call>)
    ensures Refused in Mentions(calls) <==> Build(calls).failed
  {
    hide Step, MentionsOf;
    if calls != [] {
      RefusedFails(calls[..|calls| - 1]);
      RefusedInCall(Build(calls[..|calls| - 1]), calls[|calls| - 1]);
    }
  }

  lemma {:induction false} NothingRefused(table: seq<Workflow>, w: nat)
    requires w < |table|
    ensures PlansBuild(table, w) <==> !Reaches(table, w, Refused)
  {
    hide Mentions, Build;
    forall p | ChainFrom(table, w, p)
      ensures Build(table[p[|p| - 1]].calls).failed <==> Refused in Of(table, p[|p| - 1])
    {
      RefusedFails(table[p[|p| - 1]].calls);
    }
  }

  /**
   Building succeeds exactly when no chain of nested workflows repeats an id, no id has two
   definitions, and every plan on the way can be built; the registry then holds exactly the
   definitions nested at any depth.
   */
  lemma {:induction false} BuildsExactly(table: seq<Workflow>, w: nat)
    requires Closed(table) && w < |table|
    ensures BuildAll(table, w).Some? <==> Acyclic(table, w) && OneDefinition(table, w) && PlansBuild(table, w)
    ensures BuildAll(table, w).Some? ==>
              && (forall m :: Reaches(table, w, m) ==> Has(table, BuildAll(table, w).value, m))
              && (forall k <- BuildAll(table, w).value ::
                    KeyOf(table, MentionAt(k, BuildAll(table, w).value[k])) == k &&
                    Reaches(table, w, MentionAt(k, BuildAll(table, w).value[k])))
  {
    hide Of, Closed, Reaches, ReachesFirst, Acyclic, NoCycle, NoCycleFirst, BuildFirst, PlansBuild;
    var n, building := |Of(table, w)|, {table[w].id};
    AcyclicIsNoCycle(table, w);
    NoCycleIsFirst(table, w, building);
    NothingRefused(table, w);
    forall m ensures Reaches(table, w, m) <==> ReachesFirst(table, w, n, m) {
      ReachesIsFirst(table, w, m);
    }
    if BuildAll(table, w).Some? {
      BuildIsSound(table, w, n, building);
      var r := BuildAll(table, w).value;
      assert forall k <- r :: Entered(table, w, n, k, r[k]);
    }
    if Acyclic(table, w) && OneDefinition(table, w) && PlansBuild(table, w) {
      BuildIsComplete(table, w, n, building);
    }
  }
}
