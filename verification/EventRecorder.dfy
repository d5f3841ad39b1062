/**
 `BoundedEventRecorder`: a set of retained entries threaded through four doubly
 linked buckets, refining the account of retention in module `Retention`.
 */
module EventRecorder {
  import opened Wrappers
  import opened OrderedMaps
  import opened RunMetrics
  import opened Retention
  import opened RecorderOutput

  class Node {
    const entry: Entry
    var previous: Node?
    var next: Node?

    constructor (entry: Entry)
      ensures this.entry == entry && previous == null && next == null
    {
      this.entry := entry;
      previous, next := null, null;
    }
  }

  ghost predicate NoRepeats(nodes: seq<Node>) {
    forall i, j | 0 <= i < j < |nodes| :: nodes[i] != nodes[j]
  }

  lemma {:induction false} NoRepeatsMore(nodes: seq<Node>, node: Node)
    requires NoRepeats(nodes) && node !in nodes
    ensures NoRepeats(nodes + [node])
  {
  }

  lemma {:induction false} NoRepeatsLess(nodes: seq<Node>, k: nat)
    requires NoRepeats(nodes) && k < |nodes|
    ensures NoRepeats(Without(nodes, k)) && nodes[k] !in Without(nodes, k)
  {
    var rest := Without(nodes, k);
    assert forall i | 0 <= i < |rest| :: rest[i] == nodes[if i < k then i else i + 1];
  }

  /** The entries of one priority, as a doubly linked list. */
  class Bucket {
    var head: Node?
    var tail: Node?
    ghost var nodes: seq<Node>

    ghost predicate Valid()
      reads this, nodes
    {
      && NoRepeats(nodes)
      && (nodes == [] ==> head == null && tail == null)
      && (nodes != [] ==> head == nodes[0] && tail == nodes[|nodes| - 1])
      && (nodes != [] ==> nodes[0].previous == null && nodes[|nodes| - 1].next == null)
      && (forall i {:trigger nodes[i].previous} | 1 <= i < |nodes| :: nodes[i].previous == nodes[i - 1])
      && (forall i {:trigger nodes[i].next} | 0 <= i < |nodes| - 1 :: nodes[i].next == nodes[i + 1])
    }

    constructor ()
      ensures Valid() && nodes == []
    {
      head, tail, nodes := null, null, [];
    }

    /** The linking half of `retain`. */
    method Append(node: Node)
      requires Valid() && node !in nodes && node.previous == null && node.next == null
      modifies this, nodes, node
      ensures Valid() && nodes == old(nodes) + [node]
    {
      if tail == null {
        head, tail := node, node;
      } else {
        tail.next := node;
        node.previous := tail;
        tail := node;
      }
      nodes := nodes + [node];
    }

    /** The unlinking half of `remove`, for a node anywhere in the list. */
    method Unlink(node: Node, ghost k: nat)
      requires Valid() && k < |nodes| && nodes[k] == node
      modifies this, nodes
      ensures Valid() && nodes == Without(old(nodes), k)
      ensures node.previous == null && node.next == null
    {
      ghost var was := nodes;
      NoRepeatsLess(was, k);
      assert k > 0 ==> node.previous == was[k - 1] && was[k - 1] in nodes;
      assert k < |was| - 1 ==> node.next == was[k + 1] && was[k + 1] in nodes;
      assert k == 0 ==> node.previous == null;
      assert k == |was| - 1 ==> node.next == null;
      if node.previous == null { head := node.next; } else { node.previous.next := node.next; }
      if node.next == null { tail := node.previous; } else { node.next.previous := node.previous; }
      node.previous, node.next := null, null;
      nodes := Without(was, k);
      assert forall i | 0 <= i < |nodes| :: nodes[i] == was[if i < k then i else i + 1];
      forall i | 1 <= i < |nodes| ensures nodes[i].previous == nodes[i - 1] {
        var j := if i < k then i else i + 1;
        assert was[j] != node && old(nodes[j].previous) == was[j - 1];
        assert j != k + 1 ==> k == |was| - 1 || was[j] != was[k + 1];
      }
      forall i | 0 <= i < |nodes| - 1 ensures nodes[i].next == nodes[i + 1] {
        var j := if i < k then i else i + 1;
        assert was[j] != node && old(nodes[j].next) == was[j + 1];
        assert j != k - 1 ==> k == 0 || was[j] != was[k - 1];
      }
    }
  }

  function NodeRank(n: Node): nat {
    Rank(n.entry)
  }

  ghost predicate Within(part: seq<Node>, whole: seq<Node>) {
    forall i | 0 <= i < |part| :: part[i] in whole
  }

  function EntriesOf(nodes: seq<Node>): seq<Entry> {
    seq(|nodes|, i requires 0 <= i < |nodes| => nodes[i].entry)
  }

  /** Deleting one element of an insertion-ordered set. */
  function Delete(nodes: seq<Node>, node: Node): seq<Node> {
    if nodes == [] then [] else if nodes[0] == node then nodes[1..] else [nodes[0]] + Delete(nodes[1..], node)
  }

  lemma {:induction false} DeleteIsWithout(nodes: seq<Node>, k: nat)
    requires NoRepeats(nodes) && k < |nodes|
    ensures Delete(nodes, nodes[k]) == Without(nodes, k)
  {
    if k > 0 {
      var rest := nodes[1..];
      assert forall i | 0 <= i < |rest| :: rest[i] == nodes[i + 1];
      assert nodes[0] != nodes[k];
      DeleteIsWithout(rest, k - 1);
      assert Without(nodes, k) == [nodes[0]] + Without(rest, k - 1);
    }
  }

  lemma {:induction false} SameLowest(nodes: seq<Node>)
    requires nodes != []
    ensures Lowest(EntriesOf(nodes), Rank) == Lowest(nodes, NodeRank)
    ensures EntriesOf(Without(nodes, Lowest(nodes, NodeRank))) == Without(EntriesOf(nodes), Lowest(nodes, NodeRank))
  {
    hide Lowest, Rank;
    var entries, i, j := EntriesOf(nodes), Lowest(EntriesOf(nodes), Rank), Lowest(nodes, NodeRank);
    assert forall k | 0 <= k < |nodes| :: NodeRank(nodes[k]) == Rank(entries[k]);
    assert Rank(entries[i]) <= Rank(entries[j]) && NodeRank(nodes[j]) <= NodeRank(nodes[i]);
    assert !(i < j) && !(j < i);
  }

  /** The head of the first nonempty bucket is the lowest entry. */
  lemma {:induction false} FirstHeadIsLowest(nodes: seq<Node>, p: nat)
    requires forall q | 0 <= q < p :: OfRank(nodes, NodeRank, q) == []
    requires OfRank(nodes, NodeRank, p) != []
    ensures nodes != [] && OfRank(nodes, NodeRank, p)[0] == nodes[Lowest(nodes, NodeRank)]
  {
    hide Lowest, OfRank, NodeRank;
    var first := OfRank(nodes, NodeRank, p)[0];
    assert first in OfRank(nodes, NodeRank, p) && first in nodes;
    var i := Lowest(nodes, NodeRank);
    var q := NodeRank(nodes[i]);
    assert nodes[i] in nodes && nodes[i] in OfRank(nodes, NodeRank, q);
    assert q <= p;
    RemovedRank(nodes, NodeRank, i, q);
  }

  /** One bucket holds exactly the retained nodes of its priority, in order. */
  ghost predicate Holds(bucket: Bucket, retained: seq<Node>, p: nat)
    reads bucket, retained
  {
    bucket.nodes == OfRank(retained, NodeRank, p) && Within(bucket.nodes, retained) && bucket.Valid()
  }

  /** The buckets partition the retained nodes by priority, each in sequence order. */
  ghost predicate Linked(buckets: seq<Bucket>, retained: seq<Node>)
    reads buckets, retained
  {
    && |buckets| == 4 && (forall p, q | 0 <= p < q < 4 :: buckets[p] != buckets[q])
    && NoRepeats(retained)
    && (forall p | 0 <= p < 4 :: Holds(buckets[p], retained, p))
  }

  /** Nodes of different priorities never share a bucket. */
  lemma {:induction false} BucketsDisjoint(buckets: seq<Bucket>, retained: seq<Node>, p: nat, q: nat)
    requires Linked(buckets, retained) && p < 4 && q < 4 && p != q
    ensures forall i | 0 <= i < |buckets[q].nodes| :: buckets[q].nodes[i] !in buckets[p].nodes
  {
    hide NodeRank, Bucket.Valid;
    assert Holds(buckets[p], retained, p) && Holds(buckets[q], retained, q);
  }

  class BoundedEventRecorder {
    const limit: nat
    const buckets: seq<Bucket>
    var retained: seq<Node>
    var skillSummaries: OrderedMap<string, Summary>
    var sequence: nat
    var didTruncate: bool

    ghost predicate Valid()
      reads this, buckets, retained
    {
      Linked(buckets, retained)
    }

    ghost function View(): Recording
      reads this
    {
      Recording(EntriesOf(retained), skillSummaries, sequence, didTruncate)
    }

    constructor (limit: nat)
      requires limit >= 1
      ensures Valid() && View() == EMPTY_RECORDING && retained == [] && this.limit == limit
      ensures fresh(buckets)
    {
      hide Bucket.Valid, OfRank, View, Linked, Holds;
      this.limit := limit;
      var b0 := new Bucket();
      var b1 := new Bucket();
      var b2 := new Bucket();
      var b3 := new Bucket();
      buckets := [b0, b1, b2, b3];
      retained, skillSummaries, sequence, didTruncate := [], [], 0, false;
      new;
      NewIsLinked(buckets);
      NewIsEmpty();
    }

    lemma {:induction false} NewIsEmpty()
      requires retained == [] && skillSummaries == [] && sequence == 0 && !didTruncate
      ensures View() == EMPTY_RECORDING
    {
    }

    /** `retain`. */
    method Retain(node: Node)
      requires Valid() && node !in retained && node.previous == null && node.next == null
      modifies this`retained, buckets, retained, node
      ensures Valid() && retained == old(retained) + [node]
    {
      hide NodeRank, OfRank, Bucket.Valid, NoRepeats;
      var p := Priority(node.entry.event);
      RankIsPriority(node);
      NoRepeatsMore(retained, node);
      AppendTo(p, node);
      retained := retained + [node];
      forall q | 0 <= q < 4 ensures Holds(buckets[q], retained, q) {
        AppendedRank(old(retained), NodeRank, node, q);
      }
    }

    /** Linking a node into one bucket leaves the other three alone. */
    method AppendTo(p: nat, node: Node)
      requires Valid() && p < 4 && node !in retained && node.previous == null && node.next == null
      modifies buckets, retained, node
      ensures forall q | 0 <= q < 4 :: buckets[q].Valid() && buckets[q].nodes == old(buckets[q].nodes) + if q == p then [node] else []
    {
      hide NodeRank, OfRank, Bucket.Valid, NoRepeats;
      assert Holds(buckets[p], retained, p);
      forall q | 0 <= q < 4 && q != p
        ensures buckets[q].Valid()
        ensures forall i | 0 <= i < |buckets[q].nodes| :: buckets[q].nodes[i] !in buckets[p].nodes && buckets[q].nodes[i] != node
      {
        BucketsDisjoint(buckets, retained, p, q);
        assert Holds(buckets[q], retained, q);
      }
      buckets[p].Append(node);
    }

    /** `lowestRetained`. */
    method LowestRetained() returns (lowest: Node?)
      requires Valid()
      ensures lowest == if retained == [] then null else retained[Lowest(retained, NodeRank)]
    {
      hide NodeRank, OfRank, Lowest;
      for p := 0 to 4
        invariant forall q | 0 <= q < p :: OfRank(retained, NodeRank, q) == []
      {
        assert Holds(buckets[p], retained, p);
        if buckets[p].head != null {
          FirstHeadIsLowest(retained, p);
          return buckets[p].head;
        }
      }
      if retained != [] {
        SomeRank(retained);
        assert false;
      }
      lowest := null;
    }

    /** `remove`, for any retained entry. */
    method Remove(node: Node)
      requires Valid() && node in retained
      modifies this`retained, buckets, retained
      ensures Valid() && node.previous == null && node.next == null
      ensures forall k | 0 <= k < |old(retained)| && old(retained)[k] == node :: retained == Without(old(retained), k)
    {
      hide NodeRank, OfRank, Bucket.Valid, NoRepeats, Linked;
      ghost var k :| 0 <= k < |retained| && retained[k] == node;
      StillDistinct(buckets, retained, k);
      UnlinkFrom(node, k);
      DeleteIsWithout(retained, k);
      retained := Delete(retained, node);
      LinkedFrom(buckets, retained);
    }

    /** Unlinking a node from its bucket leaves the other three alone. */
    method UnlinkFrom(node: Node, ghost k: nat)
      requires Valid() && k < |retained| && retained[k] == node
      modifies buckets, retained
      ensures forall q | 0 <= q < 4 ::
                buckets[q].Valid() && buckets[q].nodes == OfRank(Without(retained, k), NodeRank, q)
      ensures node.previous == null && node.next == null
    {
      hide NodeRank, OfRank, Bucket.Valid, NoRepeats;
      var p := Priority(node.entry.event);
      RankIsPriority(node);
      assert Holds(buckets[p], retained, p);
      forall q | 0 <= q < 4 && q != p
        ensures buckets[q].Valid() && buckets[q].nodes == OfRank(Without(retained, k), NodeRank, q)
        ensures forall i | 0 <= i < |buckets[q].nodes| :: buckets[q].nodes[i] !in buckets[p].nodes
      {
        BucketsDisjoint(buckets, retained, p, q);
        assert Holds(buckets[q], retained, q);
        RankWithout(retained, NodeRank, k, q);
      }
      RankWithout(retained, NodeRank, k, p);
      buckets[p].Unlink(node, |OfRank(retained[..k], NodeRank, p)|);
    }

    /** `recordSkillActivity`. */
    method RecordSkillActivity(id: string, activityId: string, name: string, at: nat)
      requires Valid()
      modifies this`skillSummaries, this`didTruncate
      ensures Valid()
      ensures View() == RecordActivity(old(View()), id, activityId, name, at)
    {
      var summary := Get(skillSummaries, id);
      if summary.None? {
        if |skillSummaries| >= MAX_SUMMARIES {
          didTruncate := true;
          return;
        }
        summary := Some(Summary(at, []));
      }
      var activities := summary.value.activities;
      if !Has(activities, activityId) {
        if |activities| >= MAX_ACTIVITIES {
          didTruncate := true;
        } else {
          activities := Put(activities, activityId, name);
        }
      }
      skillSummaries := Put(skillSummaries, id, summary.value.(activities := activities));
    }

    /** `emit`: what it does to the recorder is one step of the abstract account. */
    method Emit(event: Event)
      requires Valid()
      modifies this, buckets, retained
      ensures Valid()
      ensures View() == match Project(event)
                        case None => old(View())
                        case Some(e) => Record(limit, old(View()), e)
      ensures forall k | 0 <= k < |retained| :: retained[k] in old(retained) || fresh(retained[k])
    {
      hide Linked, NodeRank, OfRank, Lowest, RecordActivity;
      var projected := Project(event);
      if projected.None? { return; }
      var e := projected.value;
      var at := sequence;
      sequence := sequence + 1;
      if e.Activity? {
        RecordSkillActivity(e.id, e.activityId, e.name, at);
        return;
      }
      var entry := new Node(Entry(e, at));
      if |retained| < limit {
        Retain(entry);
      } else {
        didTruncate := true;
        Displace(entry);
      }
    }

    /** The second half of `emit`: a full recorder gives up its lowest entry for a higher one. */
    method Displace(entry: Node)
      requires Valid() && entry !in retained && entry.previous == null && entry.next == null
      modifies this`retained, buckets, retained, entry
      ensures Valid()
      ensures EntriesOf(retained) ==
              var before := old(EntriesOf(retained));
              if before == [] || Rank(entry.entry) <= Rank(before[Lowest(before, Rank)]) then before
              else Without(before, Lowest(before, Rank)) + [entry.entry]
      ensures forall k | 0 <= k < |retained| :: retained[k] in old(retained) || retained[k] == entry
    {
      hide Linked, NodeRank, OfRank, Lowest;
      var lowest := LowestRetained();
      if retained != [] { SameLowest(retained); }
      if lowest == null || Rank(entry.entry) <= Rank(lowest.entry) { return; }
      Remove(lowest);
      Retain(entry);
    }

    /** The `events` getter. */
    method Events() returns (events: seq<MetricEvent>)
      requires Valid()
      ensures events == RecordedEvents(View())
    {
      events := EventsIn(SortBySequence(EntriesOf(retained) + SummaryEntries(skillSummaries)));
    }
  }

  lemma {:induction false} RankIsPriority(node: Node)
    ensures NodeRank(node) == Priority(node.entry.event) <= 3
  {
  }

  lemma {:induction false} StillDistinct(buckets: seq<Bucket>, retained: seq<Node>, k: nat)
    requires Linked(buckets, retained) && k < |retained|
    ensures NoRepeats(retained) && NoRepeats(Without(retained, k))
    ensures |buckets| == 4 && forall p, q | 0 <= p < q < 4 :: buckets[p] != buckets[q]
  {
    NoRepeatsLess(retained, k);
  }

  lemma {:induction false} LinkedFrom(buckets: seq<Bucket>, retained: seq<Node>)
    requires |buckets| == 4 && (forall p, q | 0 <= p < q < 4 :: buckets[p] != buckets[q]) && NoRepeats(retained)
    requires forall q | 0 <= q < 4 :: buckets[q].Valid() && buckets[q].nodes == OfRank(retained, NodeRank, q)
    ensures Linked(buckets, retained)
  {
    hide Bucket.Valid, NodeRank, NoRepeats;
  }

  lemma {:induction false} NewIsLinked(buckets: seq<Bucket>)
    requires |buckets| == 4 && (forall p, q | 0 <= p < q < 4 :: buckets[p] != buckets[q])
    requires forall p | 0 <= p < 4 :: buckets[p].Valid() && buckets[p].nodes == []
    ensures Linked(buckets, [])
  {
    hide Bucket.Valid;
    assert forall p | 0 <= p < 4 :: OfRank<Node>([], NodeRank, p) == [];
  }

  lemma {:induction false} SomeRank(nodes: seq<Node>)
    requires nodes != []
    ensures NodeRank(nodes[0]) < 4 && OfRank(nodes, NodeRank, NodeRank(nodes[0])) != []
  {
    RankIsPriority(nodes[0]);
    assert nodes[0] in OfRank(nodes, NodeRank, NodeRank(nodes[0]));
  }
}
