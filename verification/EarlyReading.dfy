/**
 Readings that stop too early: whenever the listings of the sources are interleaved there
 are pages and a limit with which the newest comments are missed.
 */
module EarlyReading {
  import opened NewestFirst
  import opened Interleaving
  import opened CommentPaging

  function Items(list: seq<Comment>): seq<Item> {
    seq(|list|, i requires 0 <= i < |list| => Valid(list[i]))
  }

  lemma {:induction false} CommentsOfItems(list: seq<Comment>)
    ensures Comments(Items(list)) == list
  {
    if list != [] {
      assert Items(list)[1..] == Items(list[1..]);
      CommentsOfItems(list[1..]);
    }
  }

  /** Two pages for source `s`, the first up to place `k`; one page for each other source. */
  function PagesOf(lists: Listings, s: nat, k: nat, i: nat): (pages: seq<seq<Item>>)
    requires i < |lists| && (i == s ==> k < |lists[i]|)
    ensures pages != []
  {
    if i == s then [Items(lists[i][..k + 1]), Items(lists[i][k + 1..])] else [Items(lists[i])]
  }

  lemma {:induction false} PagesList(lists: Listings, s: nat, k: nat, i: nat)
    requires i < |lists| && s < |lists| && k < |lists[s]|
    ensures Flat(PagesOf(lists, s, k, i)) == lists[i]
    ensures FirstOf(PagesOf(lists, s, k, i)) == lists[i][..CutAfter(lists, s, k)[i]]
  {
    hide Flat, Comments;
    var pages := PagesOf(lists, s, k, i);
    FlatOne(pages[0]);
    if i == s {
      var front, back := lists[i][..k + 1], lists[i][k + 1..];
      assert pages == [pages[0]] + [pages[1]] && lists[i] == front + back;
      FlatConcat([pages[0]], [pages[1]]);
      FlatOne(pages[1]);
      CommentsOfItems(front);
      CommentsOfItems(back);
    } else {
      CommentsOfItems(lists[i]);
      assert lists[i][..|lists[i]|] == lists[i];
    }
  }

  ghost predicate PagedSo(sources: seq<CommentSource>, lists: Listings, s: nat, k: nat)
    requires s < |lists| && k < |lists[s]|
  {
    |sources| == |lists| && forall i | 0 <= i < |lists| :: sources[i].pages == PagesOf(lists, s, k, i)
  }

  /** The first round reads just the cut listings, and nothing is eligible after it. */
  lemma {:induction false} FirstRoundIsCut(sources: seq<CommentSource>, lists: Listings, s: nat, k: nat, limit: nat)
    requires s < |lists| && k < |lists[s]| - 1 && PagedSo(sources, lists, s, k)
    requires Stops(lists, CutAfter(lists, s, k), limit)
    ensures ListingsOf(sources) == lists && Everything(sources) == Listed(lists)
    ensures FirstPages(sources) == Read(lists, CutAfter(lists, s, k)) && FirstRoundEnough(sources, limit)
  {
    hide Flat, FirstOf, Sorted, Less;
    var cuts := CutAfter(lists, s, k);
    forall i | 0 <= i < |lists|
      ensures Flat(sources[i].pages) == lists[i] && FirstOf(sources[i].pages) == lists[i][..cuts[i]]
    {
      PagesList(lists, s, k, i);
    }
    assert ListingsOf(sources) == lists;
    assert FirstPages(sources) == Read(lists, cuts);
    forall i | 0 <= i < |lists|
      ensures !Eligible(|sources[i].pages| > 1, Last(FirstOf(sources[i].pages)), Boundary(FirstPages(sources), limit))
    {
      if i == s { assert lists[i][..cuts[i]][cuts[i] - 1] == lists[i][cuts[i] - 1]; }
    }
  }

  lemma {:induction false} OnceIsUnique(lists: Listings)
    requires ListedOnce(lists)
    ensures UniqueIds(Listed(lists))
  {
    forall c, d | c in Listed(lists) && d in Listed(lists) && c.identity == d.identity ensures c == d {
      var i, j :| 0 <= i < |lists| && 0 <= j < |lists| && c in lists[i] && d in lists[j];
      var k, m :| 0 <= k < |lists[i]| && 0 <= m < |lists[j]| && lists[i][k] == c && lists[j][m] == d;
    }
  }

  /** The sources with those pages. */
  method Paged(lists: Listings, s: nat, k: nat) returns (sources: seq<CommentSource>)
    requires s < |lists| && k < |lists[s]|
    ensures PagedSo(sources, lists, s, k) && fresh(sources) && Separate(sources) && AllConsistent(sources)
    ensures forall i | 0 <= i < |sources| :: sources[i].page == 1
  {
    hide Flat, Stores, PagesOf;
    sources := [];
    for i := 0 to |lists|
      invariant |sources| == i && fresh(sources) && Separate(sources) && AllConsistent(sources)
      invariant forall j | 0 <= j < i :: sources[j].pages == PagesOf(lists, s, k, j) && sources[j].page == 1
    {
      var source := new CommentSource(PagesOf(lists, s, k, i));
      sources := sources + [source];
    }
  }

  /** Reading interleaved listings with those pages, and the place of `b` as the limit, misses a newer comment. */
  method ReadInterleaved(lists: Listings, s: nat, k: nat, ghost m: nat, ghost b: Comment, limit: nat)
    returns (sources: seq<CommentSource>, values: seq<Comment>, truncated: bool)
    requires ListedOnce(lists) && InterleavedAt(lists, s, k, m, b)
    requires var read := Read(lists, CutAfter(lists, s, k)); 1 <= limit <= |read| && Sorted(read)[limit - 1] == b
    ensures AllConsistent(sources) && ListingsOf(sources) == lists && !IsTop(values, Everything(sources), limit)
  {
    hide Sorted, Stops, Decides, Read, Listed, IsTop, FirstRoundEnough, Interleaved, ListedOnce, AllConsistent, PagedSo, Separate;
    sources := Paged(lists, s, k);
    CutIsWrong(lists, s, k, m, b, limit);
    FirstRoundIsCut(sources, lists, s, k, limit);
    OnceIsUnique(lists);
    values, truncated := ReadNewestComments(sources, limit);
    FirstRoundRead(sources, limit);
    MissesSome(lists, CutAfter(lists, s, k), limit, values);
  }

  lemma {:induction false} MissesSome(lists: Listings, cuts: seq<nat>, limit: nat, values: seq<Comment>)
    requires AreCuts(lists, cuts) && !Decides(lists, cuts, limit) && IsTop(values, Read(lists, cuts), limit)
    ensures !IsTop(values, Listed(lists), limit)
  {
    hide Sorted, Read, Listed;
  }

  /** Two pages of one source, all of the same time, in no order of identity. */
  const TIED_PAGES: seq<seq<Item>> := [[Valid(Comment(1, Identity(5))), Valid(Comment(1, Identity(1)))],
                                       [Valid(Comment(1, Identity(9)))]]

  lemma {:induction false} OneSource(source: CommentSource)
    ensures Everything([source]) == SetOf(Flat(source.pages)) && FirstPages([source]) == SetOf(FirstOf(source.pages))
  {
    hide Flat, Comments;
    assert [source][0] == source;
  }

  /** With a limit of one the reading of these pages stops at the first, although the newest comment is on the second. */
  lemma {:induction false} TieAtBoundary(source: CommentSource)
    requires source.pages == TIED_PAGES
    ensures AllDescendingByTime([source]) && UniqueOverall([source]) && FirstRoundEnough([source], 1)
    ensures Sorted(FirstPages([source])) == [Comment(1, Identity(5)), Comment(1, Identity(1))]
    ensures Sorted(Everything([source])) == [Comment(1, Identity(9)), Comment(1, Identity(5)), Comment(1, Identity(1))]
  {
    hide Flat, Comments, Sorted, Everything, FirstPages, SetOf;
    var five, one, nine := Comment(1, Identity(5)), Comment(1, Identity(1)), Comment(1, Identity(9));
    OneSource(source);
    TiedPages();
    SortedIsUnique([five, one], {five, one});
    SortedIsUnique([nine, five, one], {five, one, nine});
  }

  lemma {:induction false} TiedPages()
    ensures var five, one, nine := Comment(1, Identity(5)), Comment(1, Identity(1)), Comment(1, Identity(9));
            && Comments(TIED_PAGES[0]) == [five, one] && SetOf([five, one]) == {five, one}
            && Flat(TIED_PAGES) == [five, one, nine] && SetOf([five, one, nine]) == {five, one, nine}
  {
    hide Flat;
    assert TIED_PAGES[0][1..] == [Valid(Comment(1, Identity(1)))] && TIED_PAGES[0][1..][1..] == [];
    assert TIED_PAGES[1][1..] == [];
    assert TIED_PAGES == [TIED_PAGES[0]] + [TIED_PAGES[1]];
    FlatConcat([TIED_PAGES[0]], [TIED_PAGES[1]]);
    FlatOne(TIED_PAGES[0]);
    FlatOne(TIED_PAGES[1]);
  }

  /** What is returned then is not the newest comment, only one of its time. */
  method ReadTied(source: CommentSource) returns (values: seq<Comment>, truncated: bool)
    requires source.Consistent() && source.page == 1 && source.pages == TIED_PAGES
    modifies source
    ensures values == [Comment(1, Identity(5))] && !IsTop(values, Everything([source]), 1)
  {
    hide Flat, Comments, Everything, FirstPages, FirstRoundEnough, UniqueOverall;
    TieAtBoundary(source);
    values, truncated := ReadNewestComments([source], 1);
    FirstRoundRead([source], 1);
  }

}
