/**
 Which listings of comments can be read early, whatever their pages and the limit: those in
 which no comment is listed behind a smaller one that is already below something read.
 */
module Interleaving {
  import opened Wrappers
  import opened NewestFirst

  /** What each source lists, in its order. */
  type Listings = seq<seq<Comment>>

  ghost function Listed(lists: Listings): set<Comment> {
    set i, c | 0 <= i < |lists| && c in lists[i] :: c
  }

  /** No identity is listed twice. */
  ghost predicate ListedOnce(lists: Listings) {
    forall i, j, k, m | 0 <= i < |lists| && 0 <= j < |lists| && 0 <= k < |lists[i]| && 0 <= m < |lists[j]| ::
      lists[i][k].identity == lists[j][m].identity ==> i == j && k == m
  }

  /** Listed before place `k` of source `s`, or anywhere in another source. */
  ghost predicate Elsewhere(lists: Listings, s: nat, k: nat, b: Comment)
    requires s < |lists| && k <= |lists[s]|
  {
    b in lists[s][..k] || exists t | 0 <= t < |lists| && t != s :: b in lists[t]
  }

  /** Source `s` lists a comment at `m` that passes `b` behind one at `k` that does not. */
  ghost predicate InterleavedAt(lists: Listings, s: nat, k: nat, m: nat, b: Comment) {
    && s < |lists| && k < m < |lists[s]| && Elsewhere(lists, s, k, b)
    && Less(lists[s][k], b) && Less(b, lists[s][m])
  }

  ghost predicate Interleaved(lists: Listings) {
    exists s: nat, k: nat, m: nat, b: Comment :: InterleavedAt(lists, s, k, m, b)
  }

  /** How much of each source has been read. */
  ghost predicate AreCuts(lists: Listings, cuts: seq<nat>) {
    |cuts| == |lists| && forall i | 0 <= i < |lists| :: cuts[i] <= |lists[i]|
  }

  ghost function Read(lists: Listings, cuts: seq<nat>): set<Comment>
    requires AreCuts(lists, cuts)
  {
    set i, c | 0 <= i < |lists| && c in lists[i][..cuts[i]] :: c
  }

  /** The reading can stop here: what was read last from each unfinished source is below the boundary. */
  ghost predicate Stops(lists: Listings, cuts: seq<nat>, limit: nat) {
    && AreCuts(lists, cuts) && 1 <= limit <= |Read(lists, cuts)|
    && forall i | 0 <= i < |lists| && cuts[i] < |lists[i]| ::
         cuts[i] > 0 && Less(lists[i][cuts[i] - 1], Sorted(Read(lists, cuts))[limit - 1])
  }

  /** What was read decides the first `limit` comments. */
  ghost predicate Decides(lists: Listings, cuts: seq<nat>, limit: nat)
    requires AreCuts(lists, cuts)
  {
    IsTop(Sorted(Read(lists, cuts))[..Min(limit, |Read(lists, cuts)|)], Listed(lists), limit)
  }

  lemma {:induction false} ReadIsListed(lists: Listings, cuts: seq<nat>)
    requires AreCuts(lists, cuts)
    ensures Read(lists, cuts) <= Listed(lists)
    ensures forall i, m | 0 <= i < |lists| && 0 <= m < cuts[i] :: lists[i][m] in Read(lists, cuts)
  {
    forall c | c in Read(lists, cuts) ensures c in Listed(lists) {
      var i :| 0 <= i < |lists| && c in lists[i][..cuts[i]];
      assert c in lists[i];
    }
    forall i, m | 0 <= i < |lists| && 0 <= m < cuts[i] ensures lists[i][m] in Read(lists, cuts) {
      assert lists[i][..cuts[i]][m] == lists[i][m] && lists[i][m] in lists[i][..cuts[i]];
    }
  }

  lemma {:induction false} DecidesExactly(lists: Listings, cuts: seq<nat>, limit: nat)
    requires AreCuts(lists, cuts) && 1 <= limit <= |Read(lists, cuts)|
    ensures Decides(lists, cuts, limit) <==>
              forall c <- Listed(lists) - Read(lists, cuts) :: Less(c, Sorted(Read(lists, cuts))[limit - 1])
  {
    hide Sorted, Less, Read, Listed;
    ReadIsListed(lists, cuts);
    SubsetSize(Read(lists, cuts), Listed(lists));
    TopIsFinalExactly(Read(lists, cuts), Listed(lists), limit);
  }

  /** In listings that are not interleaved, what comes behind a comment below `b` is below `b` as well. */
  lemma {:induction false} StaysBelow(lists: Listings, s: nat, k: nat, m: nat, b: Comment)
    requires !Interleaved(lists) && s < |lists| && k < m < |lists[s]|
    requires Elsewhere(lists, s, k + 1, b) && Less(lists[s][k], b) && lists[s][m] != b
    ensures Less(lists[s][m], b)
  {
    assert !InterleavedAt(lists, s, k, m, b);
    assert lists[s][..k + 1] == lists[s][..k] + [lists[s][k]];
  }

  lemma {:induction false} SortedHas(s: set<Comment>, limit: nat)
    requires 1 <= limit <= |s|
    ensures Sorted(s)[limit - 1] in s
  {
    hide Sorted;
    assert Lists(Sorted(s), s);
  }

  lemma {:induction false} WhereUnread(lists: Listings, cuts: seq<nat>, c: Comment) returns (s: nat, m: nat)
    requires AreCuts(lists, cuts) && c in Listed(lists) && c !in Read(lists, cuts)
    ensures s < |lists| && cuts[s] <= m < |lists[s]| && lists[s][m] == c
  {
    ReadIsListed(lists, cuts);
    hide Read;
    s :| s < |lists| && c in lists[s];
    m :| m < |lists[s]| && lists[s][m] == c;
  }

  lemma {:induction false} ReadElsewhere(lists: Listings, cuts: seq<nat>, s: nat, b: Comment)
    requires AreCuts(lists, cuts) && s < |lists| && b in Read(lists, cuts)
    ensures Elsewhere(lists, s, cuts[s], b)
  {
    var t :| 0 <= t < |lists| && b in lists[t][..cuts[t]];
    assert b in lists[t];
  }

  lemma {:induction false} UnreadIsBelow(lists: Listings, cuts: seq<nat>, limit: nat, c: Comment)
    requires !Interleaved(lists) && Stops(lists, cuts, limit)
    requires c in Listed(lists) && c !in Read(lists, cuts)
    ensures Less(c, Sorted(Read(lists, cuts))[limit - 1])
  {
    hide Interleaved, Sorted, Less, Read, Listed, Elsewhere;
    var b := Sorted(Read(lists, cuts))[limit - 1];
    SortedHas(Read(lists, cuts), limit);
    var s, m := WhereUnread(lists, cuts, c);
    ReadElsewhere(lists, cuts, s, b);
    StaysBelow(lists, s, cuts[s] - 1, m, b);
  }

  lemma {:induction false} StoppedIsRight(lists: Listings, cuts: seq<nat>, limit: nat)
    requires !Interleaved(lists) && Stops(lists, cuts, limit)
    ensures Decides(lists, cuts, limit)
  {
    hide Interleaved, Sorted, Less, Decides, Read, Listed;
    forall c | c in Listed(lists) - Read(lists, cuts) ensures Less(c, Sorted(Read(lists, cuts))[limit - 1]) {
      UnreadIsBelow(lists, cuts, limit, c);
    }
    DecidesExactly(lists, cuts, limit);
  }

  /** Source `s` read up to place `k`, all others read whole. */
  function CutAfter(lists: Listings, s: nat, k: nat): (cuts: seq<nat>)
    requires s < |lists| && k < |lists[s]|
    ensures AreCuts(lists, cuts)
  {
    seq(|lists|, i requires 0 <= i < |lists| => if i == s then k + 1 else |lists[i]|)
  }

  /** The place of a comment in the sorted reading. */
  lemma {:induction false} Ranked(read: set<Comment>, b: Comment) returns (limit: nat)
    requires b in read
    ensures 1 <= limit <= |read| && Sorted(read)[limit - 1] == b
  {
    hide Sorted;
    assert Lists(Sorted(read), read);
    var i :| 0 <= i < |Sorted(read)| && Sorted(read)[i] == b;
    limit := i + 1;
  }

  lemma {:induction false} ReadAtCut(lists: Listings, s: nat, k: nat, m: nat, b: Comment)
    requires ListedOnce(lists) && InterleavedAt(lists, s, k, m, b)
    ensures var read := Read(lists, CutAfter(lists, s, k));
            b in read && lists[s][m] in Listed(lists) && lists[s][m] !in read
  {
    hide Less;
    var cuts := CutAfter(lists, s, k);
    if b in lists[s][..k] {
      assert b in lists[s][..cuts[s]];
    } else {
      var t :| 0 <= t < |lists| && t != s && b in lists[t];
      assert lists[t][..cuts[t]] == lists[t];
    }
    var c := lists[s][m];
    assert c in lists[s];
    forall i | 0 <= i < |lists| ensures c !in lists[i][..cuts[i]] {
      forall n | 0 <= n < cuts[i] ensures lists[i][n] != c {
        assert i == s ==> n != m;
      }
    }
  }

  /** Interleaved listings, cut there, stop too early. */
  lemma {:induction false} CutIsWrong(lists: Listings, s: nat, k: nat, m: nat, b: Comment, limit: nat)
    requires ListedOnce(lists) && InterleavedAt(lists, s, k, m, b)
    requires var read := Read(lists, CutAfter(lists, s, k)); 1 <= limit <= |read| && Sorted(read)[limit - 1] == b
    ensures Stops(lists, CutAfter(lists, s, k), limit) && !Decides(lists, CutAfter(lists, s, k), limit)
  {
    hide Sorted, Read, Listed, Decides;
    var cuts := CutAfter(lists, s, k);
    ReadAtCut(lists, s, k, m, b);
    DecidesExactly(lists, cuts, limit);
    assert lists[s][m] in Listed(lists) - Read(lists, cuts) && !Less(lists[s][m], b);
  }

  /**
   Wherever the pages are cut and whatever the limit, stopping early gives what reading
   everything gives, if and only if the listings are not interleaved.
   */
  lemma {:induction false} EarlyReadingExactly(lists: Listings)
    requires ListedOnce(lists)
    ensures (forall cuts: seq<nat>, limit: nat | Stops(lists, cuts, limit) :: Decides(lists, cuts, limit)) <==>
            !Interleaved(lists)
  {
    hide Sorted, Decides, InterleavedAt, ListedOnce, Read;
    if Interleaved(lists) {
      var s: nat, k: nat, m: nat, b :| InterleavedAt(lists, s, k, m, b);
      InterleavedRange(lists, s, k, m, b);
      ReadAtCut(lists, s, k, m, b);
      var limit := Ranked(Read(lists, CutAfter(lists, s, k)), b);
      CutIsWrong(lists, s, k, m, b, limit);
    } else {
      forall cuts: seq<nat>, limit: nat | Stops(lists, cuts, limit) ensures Decides(lists, cuts, limit) {
        StoppedIsRight(lists, cuts, limit);
      }
    }
  }

  lemma {:induction false} InterleavedRange(lists: Listings, s: nat, k: nat, m: nat, b: Comment)
    requires InterleavedAt(lists, s, k, m, b)
    ensures s < |lists| && k < m < |lists[s]|
  {
  }

  /** Listings in descending order are not interleaved. */
  lemma {:induction false} DescendingIsNot(lists: Listings)
    requires forall i | 0 <= i < |lists| :: Descending(lists[i])
    ensures !Interleaved(lists)
  {
    forall s: nat, k: nat, m: nat, b ensures !InterleavedAt(lists, s, k, m, b) {
      if s < |lists| && k < m < |lists[s]| { assert Less(lists[s][m], lists[s][k]); }
    }
  }

  /** Neither is a pair that only its identities put in the wrong order. */
  lemma {:induction false} TiedPairIsNot(a: Comment, b: Comment)
    requires a.time == b.time
    ensures !Interleaved([[a, b]])
  {
  }
}
