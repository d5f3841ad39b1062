/**
 Building a workflow and linking the registries of the workflows it nests, one mention
 after the other.  Refines `Composition`.
 */
module WorkflowLinker {
  import opened Wrappers
  import opened Composition

  /** Once a mention throws, nothing after it is built. */
  lemma {:induction false} FailureStays(table: seq<Workflow>, w: nat, n: nat, all: nat, building: set<string>)
    requires Closed(table) && w < |table| && n <= all <= |Of(table, w)|
    requires BuildFirst(table, w, n, building).None?
    ensures BuildFirst(table, w, all, building).None?
  {
    hide Of, Closed;
    if n < all { FailureStays(table, w, n, all - 1, building); }
  }

  /** Adds the entries of a nested registry one by one; nothing when one is already there with another definition. */
  method RegisterAll(r: Registry, nested: Registry) returns (linked: Option<Registry>)
    ensures linked == Merge(r, nested)
  {
    var all, left := r, nested.Keys;
    while left != {}
      invariant left <= nested.Keys
      invariant forall k <- nested :: k !in left ==> (k in r ==> r[k] == nested[k])
      invariant all == map k | k in r.Keys + (nested.Keys - left) ::
                         if k in nested && k !in left then nested[k] else r[k]
      decreases left
    {
      var k :| k in left;
      if k in all && all[k] != nested[k] {
        return None;
      }
      all := all[k := nested[k]];
      left := left - {k};
    }
    assert all == r + nested;
    return Some(all);
  }

  method BuildWorkflow(table: seq<Workflow>, w: nat, building: set<string>) returns (r: Option<Registry>)
    requires Closed(table) && w < |table|
    ensures r == BuildFirst(table, w, |Of(table, w)|, building)
    decreases |Ids(table) - building|
  {
    hide Merge, Register, Closed, KeyOf, Mentions;
    var mentions, definitions := Of(table, w), map[];
    for i := 0 to |mentions|
      invariant Some(definitions) == BuildFirst(table, w, i, building)
    {
      var m := mentions[i];
      FailureAt(table, w, i + 1, building);
      var known: Option<Registry>;
      if m.Refused? {
        return None;
      }
      if m.Nested? {
        NestedInTable(table, w, i);
        if table[m.which].id in building {
          return None;
        }
        MoreBuilding(table, building, m.which);
        var nested := BuildWorkflow(table, m.which, building + {table[m.which].id});
        if nested.None? {
          return None;
        }
        known := Register(definitions, KeyOf(table, m), ValueOf(m));
        if known.Some? {
          known := RegisterAll(known.value, nested.value);
        }
      } else {
        known := Register(definitions, KeyOf(table, m), ValueOf(m));
      }
      if known.None? {
        return None;
      }
      definitions := known.value;
    }
    return Some(definitions);
  }

  lemma {:induction false} FailureAt(table: seq<Workflow>, w: nat, n: nat, building: set<string>)
    requires Closed(table) && w < |table| && n <= |Of(table, w)|
    ensures BuildFirst(table, w, n, building).None? ==> BuildFirst(table, w, |Of(table, w)|, building).None?
  {
    hide BuildFirst, Of, Closed;
    if BuildFirst(table, w, n, building).None? { FailureStays(table, w, n, |Of(table, w)|, building); }
  }
}
