/**
 Reading the newest comments from several paged sources, stopping as soon as no
 unread page can matter.
 */
module CommentPaging {
  import opened Wrappers
  import opened NewestFirst
  import opened Interleaving

  /** What a page lists: a comment, or a value that is not an object and is skipped. */
  datatype Item = Junk | Valid(comment: Comment)

  function Comments(items: seq<Item>): seq<Comment> {
    if items == [] then []
    else (if items[0].Valid? then [items[0].comment] else []) + Comments(items[1..])
  }

  function Flat(pages: seq<seq<Item>>): seq<Comment> {
    if pages == [] then [] else Comments(pages[0]) + Flat(pages[1..])
  }

  function Last(s: seq<Comment>): Option<Comment> {
    if s == [] then None else Some(s[|s| - 1])
  }

  lemma {:induction false} CommentsConcat(a: seq<Item>, b: seq<Item>)
    ensures Comments(a + b) == Comments(a) + Comments(b)
  {
    if a == [] {
      assert a + b == b;
    } else {
      assert (a + b)[1..] == a[1..] + b;
      CommentsConcat(a[1..], b);
      var head := if a[0].Valid? then [a[0].comment] else [];
      assert Comments(a + b) == head + Comments(a[1..] + b);
      assert head + (Comments(a[1..]) + Comments(b)) == (head + Comments(a[1..])) + Comments(b);
    }
  }

  lemma {:induction false} FlatConcat(a: seq<seq<Item>>, b: seq<seq<Item>>)
    ensures Flat(a + b) == Flat(a) + Flat(b)
  {
    if a == [] {
      assert a + b == b;
    } else {
      assert (a + b)[1..] == a[1..] + b;
      FlatConcat(a[1..], b);
    }
  }

  /** The pages up to and including page `k`, the last one read, and those after it. */
  lemma {:induction false} FlatAround(pages: seq<seq<Item>>, k: nat)
    requires 1 <= k <= |pages|
    ensures Flat(pages[..k]) == Flat(pages[..k - 1]) + Comments(pages[k - 1])
    ensures Flat(pages) == Flat(pages[..k]) + Flat(pages[k..])
  {
    assert pages[..k] == pages[..k - 1] + [pages[k - 1]] && pages == pages[..k] + pages[k..];
    FlatConcat(pages[..k - 1], [pages[k - 1]]);
    FlatConcat(pages[..k], pages[k..]);
  }

  /** Whatever was not read yet is older than the last comment fetched. */
  lemma {:induction false} UnreadIsOlder(pages: seq<seq<Item>>, k: nat, c: Comment)
    requires 1 <= k <= |pages| && Last(Comments(pages[k - 1])).Some?
    requires c in Flat(pages) && c !in Flat(pages[..k])
    ensures Descending(Flat(pages)) ==> Less(c, Last(Comments(pages[k - 1])).value)
    ensures DescendingByTime(Flat(pages)) ==> c.time <= Last(Comments(pages[k - 1])).value.time
  {
    hide Less, Comments;
    FlatAround(pages, k);
    var all, read := Flat(pages), Flat(pages[..k]);
    var unread := Flat(pages[k..]);
    assert c in unread;
    var j :| 0 <= j < |unread| && unread[j] == c;
    assert all[|read| + j] == c && all[|read| - 1] == Last(Comments(pages[k - 1])).value;
  }

  ghost function SetOf(s: seq<Comment>): set<Comment> {
    set c | c in s
  }

  /** An identity names one comment. */
  ghost predicate UniqueIds(s: set<Comment>) {
    forall c, d | c in s && d in s && c.identity == d.identity :: c == d
  }

  /** The map from identities holds exactly the comments of `s`. */
  ghost predicate Stores(values: map<Identity, Comment>, s: set<Comment>) {
    && (forall id <- values :: values[id].identity == id && values[id] in s)
    && (forall c <- s :: c.identity in values && values[c.identity] == c)
  }

  lemma {:induction false} StoreMore(values: map<Identity, Comment>, s: set<Comment>, more: map<Identity, Comment>, t: set<Comment>)
    requires Stores(values, s) && Stores(more, t) && UniqueIds(s + t)
    ensures Stores(values + more, s + t)
  {
  }

  /** The loop of `readPage` over the items of one page. */
  method StoreItems(values: map<Identity, Comment>, items: seq<Item>, ghost before: set<Comment>) returns (stored: map<Identity, Comment>)
    requires Stores(values, before) && UniqueIds(before + SetOf(Comments(items)))
    ensures Stores(stored, before + SetOf(Comments(items)))
  {
    hide Stores, Comments;
    stored := values;
    NoComments();
    assert items[..0] == [] && before + SetOf([]) == before;
    for i := 0 to |items|
      invariant Stores(stored, before + SetOf(Comments(items[..i])))
    {
      ghost var read, after := SetOf(Comments(items[..i])), SetOf(Comments(items[..i + 1]));
      ItemStep(items, i);
      if items[i].Valid? {
        var comment := items[i].comment;
        assert before + after == (before + read) + {comment};
        StoreMore(stored, before + read, map[comment.identity := comment], {comment});
        assert stored[comment.identity := comment] == stored + map[comment.identity := comment];
        stored := stored[comment.identity := comment];
      } else {
        assert after == read;
      }
    }
    assert items[..|items|] == items;
  }

  lemma {:induction false} NoComments()
    ensures Comments([]) == []
  {
  }

  lemma {:induction false} ItemStep(items: seq<Item>, i: nat)
    requires i < |items|
    ensures Comments(items[..i + 1]) == Comments(items[..i]) + if items[i].Valid? then [items[i].comment] else []
    ensures forall c <- Comments(items[..i + 1]) :: c in Comments(items)
  {
    assert items[..i + 1] == items[..i] + [items[i]] && items == items[..i + 1] + items[i + 1..];
    CommentsConcat(items[..i], [items[i]]);
    CommentsConcat(items[..i + 1], items[i + 1..]);
  }

  class CommentSource {
    /** The remote's pages; `hasNextPage` is true exactly before the last one. */
    const pages: seq<seq<Item>>
    var values: map<Identity, Comment>
    var page: nat
    var hasNextPage: bool
    var lastFetched: Option<Comment>

    constructor (pages: seq<seq<Item>>)
      requires pages != []
      ensures Consistent() && page == 1 && this.pages == pages
    {
      this.pages := pages;
      values, page, hasNextPage, lastFetched := map[], 1, true, None;
    }

    ghost function Fetched(): set<Comment>
      requires 1 <= page <= |pages| + 1
      reads this
    {
      SetOf(Flat(pages[..page - 1]))
    }

    /** How many comments that is, listed in order. */
    ghost function ReadSoFar(): nat
      reads this
    {
      if 1 <= page <= |pages| + 1 then |Flat(pages[..page - 1])| else 0
    }

    ghost predicate Consistent()
      reads this
    {
      && 1 <= page <= |pages| + 1 && pages != []
      && Stores(values, Fetched())
      && (page > 1 ==> hasNextPage == (page <= |pages|) && lastFetched == Last(Comments(pages[page - 2])))
    }

    /** `readPage`. */
    method ReadPage()
      requires Consistent() && page <= |pages| && UniqueIds(SetOf(Flat(pages)))
      modifies this
      ensures Consistent() && page == old(page) + 1
    {
      hide Comments, Flat, Stores;
      var items := pages[page - 1];
      FlatAround(pages, page);
      assert SetOf(Flat(pages[..page])) == Fetched() + SetOf(Comments(items)) <= SetOf(Flat(pages));
      values := StoreItems(values, items, Fetched());
      lastFetched := Last(Comments(items));
      hasNextPage := page < |pages|;
      page := page + 1;
    }
  }

  // ----- merging and choosing ---------------------------------------------

  /** Every comment a set of sources will ever list. */
  ghost function Everything(sources: seq<CommentSource>): set<Comment> {
    set i, c | 0 <= i < |sources| && c in Flat(sources[i].pages) :: c
  }

  ghost function FetchedBy(sources: seq<CommentSource>): set<Comment>
    requires AllConsistent(sources)
    reads sources
  {
    FetchedByFirst(sources, |sources|)
  }

  ghost function FetchedByFirst(sources: seq<CommentSource>, n: nat): set<Comment>
    requires n <= |sources| && AllConsistent(sources)
    reads sources
  {
    set i, c | 0 <= i < n && c in sources[i].Fetched() :: c
  }

  ghost predicate AllConsistent(sources: seq<CommentSource>)
    reads sources
  {
    forall i | 0 <= i < |sources| :: sources[i].Consistent()
  }

  /** Identities are unique over all sources. */
  ghost predicate UniqueOverall(sources: seq<CommentSource>) {
    UniqueIds(Everything(sources))
  }

  /** One step of an insertion sort, newest first. */
  function Insert(c: Comment, s: seq<Comment>): seq<Comment> {
    if s == [] then [c] else if Less(s[0], c) then [c] + s else [s[0]] + Insert(c, s[1..])
  }

  lemma {:induction false} InsertLists(c: Comment, s: seq<Comment>, elements: set<Comment>)
    requires Lists(s, elements) && c !in elements
    requires forall d <- elements :: Less(c, d) || Less(d, c)
    ensures Lists(Insert(c, s), elements + {c})
  {
    if s != [] {
      assert s[0] in elements;
      if !Less(s[0], c) {
        ListsTail(s, elements);
        var r, rest := Insert(c, s[1..]), elements - {s[0]};
        InsertLists(c, s[1..], rest);
        assert forall d <- s[1..] :: d in rest;
        forall i | 0 <= i < |r| ensures Less(r[i], s[0]) {
          assert r[i] in rest + {c};
          FirstIsGreatest(s, elements);
        }
        assert forall i | 1 <= i < |[s[0]] + r| :: ([s[0]] + r)[i] == r[i - 1];
      } else {
        FirstIsGreatest(s, elements);
      }
    }
  }

  lemma {:induction false} StoredValues(values: map<Identity, Comment>, s: set<Comment>)
    requires Stores(values, s)
    ensures values.Values == s
  {
    forall c | c in s ensures c in values.Values {
      assert c.identity in values.Keys && values[c.identity] == c;
    }
    forall c | c in values.Values ensures c in s {
      assert exists id :: id in values && values[id] == c;
    }
  }

  /** `[...values.values()].sort(...)`, newest first. */
  method SortNewest(values: map<Identity, Comment>, ghost s: set<Comment>) returns (ordered: seq<Comment>)
    requires Stores(values, s)
    ensures ordered == Sorted(s)
  {
    hide Less;
    ordered := [];
    var waiting := values.Values;
    StoredValues(values, s);
    while waiting != {}
      invariant waiting <= s
      invariant Lists(ordered, s - waiting)
    {
      var c :| c in waiting;
      forall d | d in s - waiting ensures Less(c, d) || Less(d, c) { DistinctIdentities(c, d); }
      InsertLists(c, ordered, s - waiting);
      ordered := Insert(c, ordered);
      assert s - (waiting - {c}) == (s - waiting) + {c};
      waiting := waiting - {c};
    }
    assert s - waiting == s;
    SortedIsUnique(ordered, s);
  }

  lemma {:induction false} DistinctIdentities(c: Comment, d: Comment)
    requires c.identity != d.identity
    ensures Less(c, d) || Less(d, c)
  {
  }

  lemma {:induction false} FetchedIsListed(sources: seq<CommentSource>, i: nat)
    requires AllConsistent(sources) && i < |sources|
    ensures sources[i].Fetched() <= Everything(sources)
    ensures FetchedByFirst(sources, i + 1) == FetchedByFirst(sources, i) + sources[i].Fetched()
  {
    var pages, k := sources[i].pages, sources[i].page - 1;
    FlatConcat(pages[..k], pages[k..]);
    assert pages == pages[..k] + pages[k..];
    assert forall c <- Flat(pages[..k]) :: c in Flat(pages);
  }

  /** `orderedComments`. */
  method OrderedComments(sources: seq<CommentSource>) returns (ordered: seq<Comment>)
    requires AllConsistent(sources) && UniqueOverall(sources)
    ensures ordered == Sorted(FetchedBy(sources))
  {
    hide Flat, Stores, Everything;
    var values: map<Identity, Comment> := map[];
    StoresNothing();
    assert FetchedByFirst(sources, 0) == {};
    for i := 0 to |sources|
      invariant Stores(values, FetchedByFirst(sources, i)) && FetchedByFirst(sources, i) <= Everything(sources)
    {
      FetchedIsListed(sources, i);
      assert sources[i].Consistent();
      StoreMore(values, FetchedByFirst(sources, i), sources[i].values, sources[i].Fetched());
      values := values + sources[i].values;
    }
    ordered := SortNewest(values, FetchedBy(sources));
  }

  lemma {:induction false} StoresNothing()
    ensures Stores(map[], {})
  {
  }

  // ----- the reading loop -------------------------------------------------

  /** Could an unread page of this source still change the first `limit` comments? */
  predicate Eligible(hasNextPage: bool, lastFetched: Option<Comment>, boundary: Option<Comment>) {
    hasNextPage && (boundary.None? || lastFetched.None? || !Less(lastFetched.value, boundary.value))
  }

  /** The first eligible source whose last fetched comment is newest; an unknown one goes first. */
  method ChooseSource(sources: seq<CommentSource>, boundary: Option<Comment>) returns (chosen: Option<nat>)
    ensures chosen.None? <==> forall i | 0 <= i < |sources| :: !Eligible(sources[i].hasNextPage, sources[i].lastFetched, boundary)
    ensures chosen.Some? ==>
              && chosen.value < |sources|
              && var best := sources[chosen.value];
              && Eligible(best.hasNextPage, best.lastFetched, boundary)
              && (best.lastFetched.Some? ==>
                    forall s <- sources | Eligible(s.hasNextPage, s.lastFetched, boundary) ::
                      s.lastFetched.Some? && !Less(best.lastFetched.value, s.lastFetched.value))
  {
    chosen := None;
    for i := 0 to |sources|
      invariant chosen.None? <==> forall k | 0 <= k < i :: !Eligible(sources[k].hasNextPage, sources[k].lastFetched, boundary)
      invariant chosen.Some? ==>
              && chosen.value < i
              && var best := sources[chosen.value];
              && Eligible(best.hasNextPage, best.lastFetched, boundary)
              && (best.lastFetched.Some? ==>
                    forall k | 0 <= k < i && Eligible(sources[k].hasNextPage, sources[k].lastFetched, boundary) ::
                      sources[k].lastFetched.Some? && !Less(best.lastFetched.value, sources[k].lastFetched.value))
    {
      var candidate := sources[i];
      if Eligible(candidate.hasNextPage, candidate.lastFetched, boundary) {
        if chosen.None? {
          chosen := Some(i);
        } else {
          var best := sources[chosen.value];
          if best.lastFetched.Some? && (candidate.lastFetched.None? || Less(best.lastFetched.value, candidate.lastFetched.value)) {
            chosen := Some(i);
          }
        }
      }
    }
  }

  function Sum(counts: seq<nat>): nat {
    if counts == [] then 0 else counts[0] + Sum(counts[1..])
  }

  lemma {:induction false} SumDrops(counts: seq<nat>, i: nat)
    requires i < |counts| && counts[i] > 0
    ensures Sum(counts[i := counts[i] - 1]) == Sum(counts) - 1
  {
    if i > 0 {
      assert counts[i := counts[i] - 1][1..] == counts[1..][i - 1 := counts[i] - 1];
      SumDrops(counts[1..], i - 1);
    } else {
      assert counts[0 := counts[0] - 1][1..] == counts[1..];
    }
  }

  ghost predicate AllDescending(sources: seq<CommentSource>) {
    forall i | 0 <= i < |sources| :: Descending(Flat(sources[i].pages))
  }

  ghost predicate AllDescendingByTime(sources: seq<CommentSource>) {
    forall i | 0 <= i < |sources| :: DescendingByTime(Flat(sources[i].pages))
  }

  ghost predicate Separate(sources: seq<CommentSource>) {
    forall i, j | 0 <= i < j < |sources| :: sources[i] != sources[j]
  }

  ghost function Boundary(read: set<Comment>, limit: nat): Option<Comment> {
    if |read| < limit || limit == 0 then None else Some(Sorted(read)[limit - 1])
  }

  ghost predicate NoneEligible(sources: seq<CommentSource>, limit: nat)
    requires AllConsistent(sources)
    reads sources
  {
    && (forall i | 0 <= i < |sources| :: sources[i].page > 1)
    && forall i | 0 <= i < |sources| ::
         !Eligible(sources[i].hasNextPage, sources[i].lastFetched, Boundary(FetchedBy(sources), limit))
  }

  ghost predicate AnyNext(sources: seq<CommentSource>)
    reads sources
  {
    exists i | 0 <= i < |sources| :: sources[i].hasNextPage
  }

  /** What may still be unread when nothing is eligible. */
  ghost predicate BelowBoundary(sources: seq<CommentSource>, limit: nat, c: Comment)
    requires AllConsistent(sources)
    reads sources
  {
    && AnyNext(sources) && 1 <= limit <= |FetchedBy(sources)|
    && (AllDescending(sources) ==> Less(c, Sorted(FetchedBy(sources))[limit - 1]))
    && (AllDescendingByTime(sources) ==> c.time <= Sorted(FetchedBy(sources))[limit - 1].time)
  }

  /** Nothing more can be eligible: what was read already decides the first `limit` comments. */
  lemma {:induction false} ReadEnough(sources: seq<CommentSource>, limit: nat)
    requires AllConsistent(sources) && NoneEligible(sources, limit)
    ensures FetchedBy(sources) <= Everything(sources)
    ensures if AnyNext(sources) then 1 <= limit <= |FetchedBy(sources)| else FetchedBy(sources) == Everything(sources)
    ensures forall c <- Everything(sources) - FetchedBy(sources) :: BelowBoundary(sources, limit, c)
  {
    hide Sorted, Flat, BelowBoundary;
    var read, all := FetchedBy(sources), Everything(sources);
    forall i | 0 <= i < |sources| ensures sources[i].Fetched() <= all {
      FetchedIsListed(sources, i);
    }
    forall c | c in all - read ensures BelowBoundary(sources, limit, c) {
      var i :| 0 <= i < |sources| && c in Flat(sources[i].pages);
      UnreadBelowBoundary(sources, i, c, limit);
    }
    forall c | c in all && !AnyNext(sources) ensures c in read {
      assert c in all - read ==> BelowBoundary(sources, limit, c);
      UnreadNeedsNext(sources, limit, c);
    }
  }

  lemma {:induction false} UnreadNeedsNext(sources: seq<CommentSource>, limit: nat, c: Comment)
    requires AllConsistent(sources)
    ensures BelowBoundary(sources, limit, c) ==> AnyNext(sources)
  {
  }

  lemma {:induction false} WholeSlice(pages: seq<seq<Item>>)
    ensures pages[..|pages|] == pages
  {
  }

  lemma {:induction false} UnreadBelowBoundary(sources: seq<CommentSource>, i: nat, c: Comment, limit: nat)
    requires AllConsistent(sources) && i < |sources| && sources[i].page > 1
    requires c in Flat(sources[i].pages) && c !in FetchedBy(sources)
    requires NoneEligible(sources, limit)
    ensures BelowBoundary(sources, limit, c)
  {
    hide Sorted, Flat, Descending, DescendingByTime;
    var source := sources[i];
    assert source.Consistent();
    assert c !in source.Fetched();
    WholeSlice(source.pages);
    UnreadIsOlder(source.pages, source.page - 1, c);
  }

  /** What each source will ever list. */
  function ListingsOf(sources: seq<CommentSource>): (lists: Listings)
    ensures |lists| == |sources| && forall i | 0 <= i < |sources| :: lists[i] == Flat(sources[i].pages)
  {
    seq(|sources|, i requires 0 <= i < |sources| => Flat(sources[i].pages))
  }

  ghost function CutsOf(sources: seq<CommentSource>): (cuts: seq<nat>)
    reads sources
    ensures |cuts| == |sources| && forall i | 0 <= i < |sources| :: cuts[i] == sources[i].ReadSoFar()
  {
    seq(|sources|, i requires 0 <= i < |sources| reads sources => sources[i].ReadSoFar())
  }

  /** What was read of a source is a front part of what it lists, up to the last comment fetched. */
  lemma {:induction false} ReadPart(source: CommentSource)
    requires source.Consistent()
    ensures var all, read := Flat(source.pages), Flat(source.pages[..source.page - 1]);
            && |read| <= |all| && all[..|read|] == read && (source.page == |source.pages| + 1 ==> |read| == |all|)
            && (source.page > 1 && source.lastFetched.Some? ==> read != [] && all[|read| - 1] == source.lastFetched.value)
  {
    hide Flat, Comments, Stores;
    var k := source.page - 1;
    FlatConcat(source.pages[..k], source.pages[k..]);
    assert source.pages == source.pages[..k] + source.pages[k..];
    WholeSlice(source.pages);
    if k > 0 { FlatAround(source.pages, k); }
  }

  lemma {:induction false} SameAsListings(sources: seq<CommentSource>)
    requires AllConsistent(sources)
    ensures Listed(ListingsOf(sources)) == Everything(sources)
    ensures AreCuts(ListingsOf(sources), CutsOf(sources)) && Read(ListingsOf(sources), CutsOf(sources)) == FetchedBy(sources)
  {
    hide Flat, Stores;
    var lists, cuts := ListingsOf(sources), CutsOf(sources);
    forall i | 0 <= i < |sources|
      ensures cuts[i] <= |lists[i]| && forall c :: c in lists[i][..cuts[i]] <==> c in sources[i].Fetched()
    {
      assert sources[i].Consistent();
      ReadPart(sources[i]);
    }
  }

  lemma {:induction false} StopsAtSource(sources: seq<CommentSource>, i: nat, limit: nat)
    requires AllConsistent(sources) && NoneEligible(sources, limit) && i < |sources| && 1 <= limit <= |FetchedBy(sources)|
    requires sources[i].ReadSoFar() < |Flat(sources[i].pages)|
    ensures var cut := sources[i].ReadSoFar();
            cut > 0 && Less(Flat(sources[i].pages)[cut - 1], Sorted(FetchedBy(sources))[limit - 1])
  {
    hide Flat, Stores, Sorted, Less, FetchedBy;
    assert sources[i].Consistent();
    ReadPart(sources[i]);
  }

  /** When nothing is eligible the reading of the listings stops. */
  lemma {:induction false} NoneEligibleStops(sources: seq<CommentSource>, limit: nat)
    requires AllConsistent(sources) && NoneEligible(sources, limit) && 1 <= limit <= |FetchedBy(sources)|
    ensures Stops(ListingsOf(sources), CutsOf(sources), limit)
  {
    hide Flat, Sorted, Less, FetchedBy, Read, AllConsistent, NoneEligible, Everything, Listed;
    SameAsListings(sources);
    var lists, cuts := ListingsOf(sources), CutsOf(sources);
    forall i | 0 <= i < |lists| && cuts[i] < |lists[i]|
      ensures cuts[i] > 0 && Less(lists[i][cuts[i] - 1], Sorted(Read(lists, cuts))[limit - 1])
    {
      StopsAtSource(sources, i, limit);
    }
  }

  lemma {:induction false} StoppedReading(sources: seq<CommentSource>, limit: nat, values: seq<Comment>)
    requires AllConsistent(sources) && NoneEligible(sources, limit) && !Interleaved(ListingsOf(sources))
    requires IsTop(values, FetchedBy(sources), limit)
    requires if AnyNext(sources) then 1 <= limit <= |FetchedBy(sources)| else FetchedBy(sources) == Everything(sources)
    ensures IsTop(values, Everything(sources), limit)
  {
    hide AllConsistent, NoneEligible, Interleaved, FetchedBy, Everything, Sorted, AnyNext, Stops;
    if AnyNext(sources) {
      SameAsListings(sources);
      NoneEligibleStops(sources, limit);
      StoppedIsRight(ListingsOf(sources), CutsOf(sources), limit);
    }
  }

  /** The comments on the first page of a source. */
  function FirstOf(pages: seq<seq<Item>>): seq<Comment> {
    if pages == [] then [] else Comments(pages[0])
  }

  ghost function FirstPages(sources: seq<CommentSource>): set<Comment> {
    set i, c | 0 <= i < |sources| && c in FirstOf(sources[i].pages) :: c
  }

  /** After one page of every source none is eligible. */
  ghost predicate FirstRoundEnough(sources: seq<CommentSource>, limit: nat) {
    forall i | 0 <= i < |sources| ::
      !Eligible(|sources[i].pages| > 1, Last(FirstOf(sources[i].pages)), Boundary(FirstPages(sources), limit))
  }

  ghost predicate OnePageRead(sources: seq<CommentSource>)
    reads sources
  {
    forall i | 0 <= i < |sources| :: sources[i].page == 2
  }

  lemma {:induction false} FlatOne(page: seq<Item>)
    ensures Flat([page]) == Comments(page)
  {
    assert [page][1..] == [];
  }

  lemma {:induction false} FirstRoundRead(sources: seq<CommentSource>, limit: nat)
    requires AllConsistent(sources) && OnePageRead(sources)
    ensures FetchedBy(sources) == FirstPages(sources)
    ensures FirstRoundEnough(sources, limit) ==> NoneEligible(sources, limit)
  {
    hide Comments, Flat, Stores, Boundary;
    forall i | 0 <= i < |sources| 
      ensures sources[i].Fetched() == SetOf(FirstOf(sources[i].pages))
      ensures forall c :: c in sources[i].Fetched() <==> c in FirstOf(sources[i].pages)
    {
      assert sources[i].Consistent();
      assert sources[i].pages[..1] == [sources[i].pages[0]];
      FlatOne(sources[i].pages[0]);
    }
    assert FetchedBy(sources) == FirstPages(sources);
  }

  /** One page of every source. */
  method ReadFirstPages(sources: seq<CommentSource>) returns (ghost unread: seq<nat>)
    requires AllConsistent(sources) && UniqueOverall(sources) && Separate(sources)
    requires forall i | 0 <= i < |sources| :: sources[i].page == 1
    modifies sources
    ensures AllConsistent(sources) && Tracks(sources, unread) && OnePageRead(sources)
  {
    hide UniqueOverall, Separate, Sum, AllConsistent;
    unread := seq(|sources|, i requires 0 <= i < |sources| => |sources[i].pages|);
    assert Tracks(sources, unread);
    hide Tracks;
    for i := 0 to |sources|
      invariant AllConsistent(sources) && Tracks(sources, unread)
      invariant forall k | 0 <= k < |sources| :: if k < i then sources[k].page == 2 else sources[k].page == 1
    {
      unread := ReadFrom(sources, i, unread);
    }
  }

  /** One page of every source, then page after page of the source that can matter most. */
  method ReadWhileEligible(sources: seq<CommentSource>, limit: nat)
    requires AllConsistent(sources) && UniqueOverall(sources) && Separate(sources)
    requires forall i | 0 <= i < |sources| :: sources[i].page == 1
    modifies sources
    ensures AllConsistent(sources) && NoneEligible(sources, limit)
    ensures FirstRoundEnough(sources, limit) ==> OnePageRead(sources)
  {
    hide FirstRoundEnough, Eligible, UniqueOverall, Separate, Sum, FetchedBy, Boundary, AllConsistent, Tracks;
    ghost var unread := ReadFirstPages(sources);
    assert forall k | 0 <= k < |sources| :: sources[k].page > 1;
    hide OnePageRead, NoneEligible;
    while true
      invariant AllConsistent(sources) && Tracks(sources, unread)
      invariant forall k | 0 <= k < |sources| :: sources[k].page > 1
      invariant FirstRoundEnough(sources, limit) ==> OnePageRead(sources)
      decreases Sum(unread)
    {
      if FirstRoundEnough(sources, limit) { FirstRoundRead(sources, limit); }
      var ordered := OrderedComments(sources);
      var boundary := BoundaryOf(ordered, limit);
      BoundaryIs(FetchedBy(sources), limit);
      var chosen := ChooseSource(sources, boundary);
      NothingChosen(sources, limit, boundary, chosen);
      if chosen.None? { return; }
      unread := ReadFrom(sources, chosen.value, unread);
    }
  }

  lemma {:induction false} NothingChosen(sources: seq<CommentSource>, limit: nat, boundary: Option<Comment>, chosen: Option<nat>)
    requires AllConsistent(sources) && boundary == Boundary(FetchedBy(sources), limit)
    requires forall k | 0 <= k < |sources| :: sources[k].page > 1
    requires chosen.None? <==> forall i | 0 <= i < |sources| :: !Eligible(sources[i].hasNextPage, sources[i].lastFetched, boundary)
    ensures chosen.None? <==> NoneEligible(sources, limit)
  {
    hide Eligible, Boundary, FetchedBy, AllConsistent;
  }

  function BoundaryOf(ordered: seq<Comment>, limit: nat): Option<Comment> {
    if |ordered| < limit || limit == 0 then None else Some(ordered[limit - 1])
  }

  lemma {:induction false} BoundaryIs(read: set<Comment>, limit: nat)
    ensures BoundaryOf(Sorted(read), limit) == Boundary(read, limit)
  {
  }

  /**
   `readNewestComments`: reads on only while some source could still matter, and
   returns what reading every page would have returned.
   */
  method ReadNewestComments(sources: seq<CommentSource>, limit: nat) returns (values: seq<Comment>, truncated: bool)
    requires AllConsistent(sources) && UniqueOverall(sources) && Separate(sources)
    requires forall i | 0 <= i < |sources| :: sources[i].page == 1
    modifies sources
    ensures AllConsistent(sources)
    ensures IsTop(values, FetchedBy(sources), limit)
    ensures FirstRoundEnough(sources, limit) ==> OnePageRead(sources)
    ensures IsTop(values, Everything(sources), limit) <==> !Passed(values, Everything(sources) - FetchedBy(sources), limit)
    ensures AllDescending(sources) ==> IsTop(values, Everything(sources), limit)
    ensures !Interleaved(ListingsOf(sources)) ==> IsTop(values, Everything(sources), limit)
    ensures AllDescendingByTime(sources) ==> HasTopTimes(values, Everything(sources), limit)
    ensures truncated <==> |Everything(sources)| > limit || AnyNext(sources)
    ensures truncated ==> |Everything(sources)| >= limit
    ensures !truncated ==> values == Sorted(Everything(sources))
  {
    hide AllConsistent, Sorted, Flat, Everything, UniqueOverall, Separate, NoneEligible, AllDescending, AllDescendingByTime, FetchedBy, AnyNext;
    hide FirstRoundEnough, OnePageRead, IsTop, HasTopTimes, Passed, Interleaved;
    ReadWhileEligible(sources, limit);
    ReadEnough(sources, limit);
    var ordered := OrderedComments(sources);
    values := ordered[..Min(limit, |ordered|)];
    var more := AnyNextPage(sources);
    truncated := more || |ordered| > limit;
    SubsetSize(FetchedBy(sources), Everything(sources));
    Finish(FetchedBy(sources), Everything(sources), limit, more, AllDescending(sources), AllDescendingByTime(sources), values);
    if !Interleaved(ListingsOf(sources)) { StoppedReading(sources, limit, values); }
  }

  method AnyNextPage(sources: seq<CommentSource>) returns (more: bool)
    ensures more <==> AnyNext(sources)
  {
    for i := 0 to |sources|
      invariant forall k | 0 <= k < i :: !sources[k].hasNextPage
    {
      if sources[i].hasNextPage { return true; }
    }
    more := false;
  }

  /** How many pages of each source are still unread. */
  ghost predicate Tracks(sources: seq<CommentSource>, unread: seq<nat>)
    reads sources
  {
    |unread| == |sources| && forall k | 0 <= k < |sources| :: unread[k] == |sources[k].pages| + 1 - sources[k].page
  }

  method ReadFrom(sources: seq<CommentSource>, i: nat, ghost unread: seq<nat>) returns (ghost left: seq<nat>)
    requires i < |sources| && AllConsistent(sources) && UniqueOverall(sources) && Separate(sources)
    requires Tracks(sources, unread) && (sources[i].page == 1 || sources[i].hasNextPage)
    modifies sources[i]
    ensures AllConsistent(sources)
    ensures sources[i].page == old(sources[i].page) + 1
    ensures forall k | 0 <= k < |sources| && k != i :: sources[k].page == old(sources[k].page)
    ensures Tracks(sources, left) && Sum(left) < Sum(unread)
  {
    assert SetOf(Flat(sources[i].pages)) <= Everything(sources);
    sources[i].ReadPage();
    left := unread[i := unread[i] - 1];
    SumDrops(unread, i);
  }

  lemma {:induction false} TopOrPassed(read: set<Comment>, all: set<Comment>, limit: nat, more: bool, values: seq<Comment>)
    requires read <= all && (!more ==> read == all) && (more ==> 1 <= limit <= |read|)
    requires values == Sorted(read)[..Min(limit, |read|)]
    ensures IsTop(values, read, limit) && (IsTop(values, all, limit) <==> !Passed(values, all - read, limit))
  {
    hide Sorted, Less;
    if more {
      SubsetSize(read, all);
      assert values[limit - 1] == Sorted(read)[limit - 1];
      TopIsFinalExactly(read, all, limit);
    } else {
      assert all - read == {};
    }
  }

  lemma {:induction false} SameTimes(read: set<Comment>, all: set<Comment>, limit: nat, more: bool, values: seq<Comment>)
    requires read <= all && (!more ==> read == all) && (more ==> 1 <= limit <= |read|)
    requires more ==> forall c <- all - read :: c.time <= Sorted(read)[limit - 1].time
    requires values == Sorted(read)[..Min(limit, |read|)]
    ensures HasTopTimes(values, all, limit)
  {
    hide Sorted, Less;
    if more {
      SubsetSize(read, all);
      TopTimesAreFinal(read, all, limit);
    }
  }

  lemma {:induction false} Finish(read: set<Comment>, all: set<Comment>, limit: nat, more: bool, byBoth: bool, byTime: bool,
                                  values: seq<Comment>)
    requires read <= all && (!more ==> read == all) && (more ==> 1 <= limit <= |read|)
    requires more ==> forall c <- all - read ::
               && (byBoth ==> Less(c, Sorted(read)[limit - 1]))
               && (byTime ==> c.time <= Sorted(read)[limit - 1].time)
    requires values == Sorted(read)[..Min(limit, |read|)]
    ensures IsTop(values, read, limit) && (IsTop(values, all, limit) <==> !Passed(values, all - read, limit))
    ensures byBoth ==> IsTop(values, all, limit)
    ensures byTime ==> HasTopTimes(values, all, limit)
  {
    hide Sorted, Less, IsTop, HasTopTimes;
    TopOrPassed(read, all, limit, more, values);
    if byBoth && more { assert values[limit - 1] == Sorted(read)[limit - 1]; }
    if byTime { SameTimes(read, all, limit, more, values); }
  }
}
