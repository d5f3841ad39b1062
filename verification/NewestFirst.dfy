/**
 The newest-first order of comments, and why a prefix of a partial reading can
 already be the prefix of the full one.
 */
module NewestFirst {
  import opened Wrappers

  /** The identity of a comment, by its collation rank. */
  datatype Identity = Identity(rank: int)

  /** A comment as far as ordering sees it; `time` is the collation rank of its timestamp. */
  datatype Comment = Comment(time: int, identity: Identity)

  /** `compareComments(a, b) < 0`. */
  predicate Less(a: Comment, b: Comment) {
    a.time < b.time || (a.time == b.time && a.identity.rank < b.identity.rank)
  }

  predicate Descending(s: seq<Comment>) {
    forall i, j | 0 <= i < j < |s| :: Less(s[j], s[i])
  }

  /** Descending by timestamp alone, ties in any order. */
  predicate DescendingByTime(s: seq<Comment>) {
    forall i, j | 0 <= i < j < |s| :: s[j].time <= s[i].time
  }

  /** `r` is an enumeration of `s`, newest first. */
  ghost predicate Lists(r: seq<Comment>, s: set<Comment>) {
    Descending(r) && forall c :: c in r <==> c in s
  }

  ghost predicate IsGreatest(m: Comment, s: set<Comment>) {
    m in s && forall c <- s :: c == m || Less(c, m)
  }

  lemma {:induction false} GreatestExists(s: set<Comment>)
    requires s != {}
    ensures exists m :: IsGreatest(m, s)
  {
    var x :| x in s;
    var rest := s - {x};
    assert forall c <- s :: c == x || c in rest;
    if rest == {} {
      assert IsGreatest(x, s);
    } else {
      GreatestExists(rest);
      var r :| IsGreatest(r, rest);
      assert IsGreatest(if Less(r, x) then x else r, s);
    }
  }

  /** The comments of a set, newest first. */
  ghost function Sorted(s: set<Comment>): (r: seq<Comment>)
    ensures Lists(r, s) && |r| == |s|
  {
    if s == {} then []
    else
      GreatestExists(s);
      var m :| IsGreatest(m, s);
      [m] + Sorted(s - {m})
  }

  lemma {:induction false} SortedIsUnique(r: seq<Comment>, s: set<Comment>)
    requires Lists(r, s)
    ensures Sorted(s) == r
  {
    hide Less;
    if r == [] {
      assert s == {};
    } else {
      assert r[0] in s && r[0] in Sorted(s);
      var m := Sorted(s)[0];
      FirstIsGreatest(r, s);
      FirstIsGreatest(Sorted(s), s);
      OneGreatest(m, r[0], s);
      assert Sorted(s) == [m] + Sorted(s - {m});
      ListsTail(r, s);
      SortedIsUnique(r[1..], s - {r[0]});
    }
  }

  lemma {:induction false} FirstIsGreatest(r: seq<Comment>, s: set<Comment>)
    requires Lists(r, s) && r != []
    ensures IsGreatest(r[0], s)
  {
    hide Less;
  }

  lemma {:induction false} OneGreatest(m: Comment, n: Comment, s: set<Comment>)
    requires IsGreatest(m, s) && IsGreatest(n, s)
    ensures m == n
  {
  }

  lemma {:induction false} ListsTail(r: seq<Comment>, s: set<Comment>)
    requires Lists(r, s) && r != []
    ensures Lists(r[1..], s - {r[0]})
  {
    assert forall i | 1 <= i < |r| :: r[1..][i - 1] == r[i];
    assert forall i | 0 <= i < |r[1..]| :: Less(r[1..][i], r[0]);
    assert r == [r[0]] + r[1..];
  }

  /** Everything newer goes in front. */
  lemma {:induction false} SortedSplits(newer: set<Comment>, older: set<Comment>)
    requires forall a, b | a in newer && b in older :: Less(b, a)
    ensures Sorted(newer + older) == Sorted(newer) + Sorted(older)
  {
    hide Less;
    var a, b := Sorted(newer), Sorted(older);
    var r := a + b;
    forall i, j | 0 <= i < j < |r| ensures Less(r[j], r[i]) {
      if j >= |a| {
        assert r[j] in b;
        if i < |a| { assert r[i] in a; }
      }
    }
    assert Lists(r, newer + older);
    SortedIsUnique(r, newer + older);
  }

  /**
   When nothing left unread can pass the entry at `limit - 1`, the first `limit`
   entries of the partial reading are those of the full reading.
   */
  lemma {:induction false} TopIsFinal(read: set<Comment>, all: set<Comment>, limit: nat)
    requires read <= all && 1 <= limit <= |read|
    requires forall c <- all - read :: Less(c, Sorted(read)[limit - 1])
    ensures |all| >= limit && Sorted(all)[..limit] == Sorted(read)[..limit]
  {
    hide Sorted, Less;
    SubsetSize(read, all);
    var top := set c | c in Sorted(read)[..limit];
    SortedIsUnique(Sorted(read)[..limit], top);
    forall a, b | a in top && b in all - top ensures Less(b, a) {
      BelowTop(read, all, limit, a, b);
    }
    SortedSplits(top, all - top);
    assert all == top + (all - top);
  }

  lemma {:induction false} BelowTop(read: set<Comment>, all: set<Comment>, limit: nat, a: Comment, b: Comment)
    requires read <= all && 1 <= limit <= |read|
    requires forall c <- all - read :: Less(c, Sorted(read)[limit - 1])
    requires a in Sorted(read)[..limit] && b in all && b !in Sorted(read)[..limit]
    ensures Less(b, a)
  {
    hide Sorted;
    var s := Sorted(read);
    var i :| 0 <= i < limit && s[..limit][i] == a;
    assert s[i] == a;
    if b in read {
      assert s == s[..limit] + s[limit..] && b in s[limit..];
      var j :| 0 <= j < |s[limit..]| && s[limit..][j] == b;
      assert Less(s[limit + j], s[i]);
    } else {
      assert b in all - read && Less(b, s[limit - 1]);
      assert i < limit - 1 ==> Less(s[limit - 1], s[i]);
    }
  }

  /** The comments strictly newer than `t`. */
  ghost function Since(s: set<Comment>, t: int): set<Comment> {
    set c | c in s && c.time > t
  }

  /** In a sorted reading exactly the first `|Since(s, t)|` entries are newer than `t`. */
  lemma {:induction false} SinceIsPrefix(s: set<Comment>, t: int)
    ensures |Since(s, t)| <= |s|
    ensures forall i | 0 <= i < |s| :: Sorted(s)[i].time > t <==> i < |Since(s, t)|
  {
    hide Sorted, Lists;
    var newer, older := Since(s, t), s - Since(s, t);
    SubsetSize(newer, s);
    SortedSplits(newer, older);
    assert s == newer + older;
    SortedHolds(newer);
    SortedHolds(older);
  }

  lemma {:induction false} SortedHolds(s: set<Comment>)
    ensures |Sorted(s)| == |s| && forall i | 0 <= i < |s| :: Sorted(s)[i] in s
  {
    hide Sorted;
    assert Lists(Sorted(s), s);
  }

  /** The same for sources that are only ordered by timestamp: place by place. */
  lemma {:induction false} TimeIsFinal(read: set<Comment>, all: set<Comment>, i: nat)
    requires read <= all && i < |read| <= |all|
    requires forall c <- all - read :: c.time <= Sorted(read)[i].time
    ensures Sorted(all)[i].time == Sorted(read)[i].time
  {
    hide Sorted, Lists, Less;
    var t := Sorted(read)[i].time;
    // Nothing unread is newer than `t`, so both readings have the same entries above `t`.
    assert Since(all, t) == Since(read, t);
    SinceIsPrefix(all, t);
    SinceIsPrefix(read, t);
    // One unit lower, the full reading still has at least as many.
    SubsetSize(Since(read, t - 1), Since(all, t - 1));
    SinceIsPrefix(all, t - 1);
    SinceIsPrefix(read, t - 1);
  }

  /** The comments in the first `limit` places may differ, but not their timestamps. */
  lemma {:induction false} TopTimesAreFinal(read: set<Comment>, all: set<Comment>, limit: nat)
    requires read <= all && 1 <= limit <= |read|
    requires forall c <- all - read :: c.time <= Sorted(read)[limit - 1].time
    ensures |all| >= limit
    ensures forall i | 0 <= i < limit :: Sorted(all)[i].time == Sorted(read)[i].time
  {
    hide Sorted;
    SubsetSize(read, all);
    var s := Sorted(read);
    assert Lists(s, read);
    forall i | 0 <= i < limit ensures Sorted(all)[i].time == s[i].time {
      assert s[i].time >= s[limit - 1].time by { assert i == limit - 1 || Less(s[limit - 1], s[i]); }
      TimeIsFinal(read, all, i);
    }
  }

  /** The first `limit` entries are final exactly when nothing left unread passes the last of them. */
  lemma {:induction false} TopIsFinalExactly(read: set<Comment>, all: set<Comment>, limit: nat)
    requires read <= all && 1 <= limit <= |read|
    ensures |all| >= limit
    ensures Sorted(all)[..limit] == Sorted(read)[..limit] <==>
              forall c <- all - read :: Less(c, Sorted(read)[limit - 1])
  {
    hide Sorted;
    SubsetSize(read, all);
    if Sorted(all)[..limit] == Sorted(read)[..limit] {
      var r, s := Sorted(all), Sorted(read);
      forall k | 0 <= k < limit ensures r[k] == s[k] && r[k] in read {
        assert r[..limit][k] == s[..limit][k];
      }
      forall c | c in all - read ensures Less(c, s[limit - 1]) {
        var i :| 0 <= i < |r| && r[i] == c;
        assert i >= limit;
      }
    }
    if forall c <- all - read :: Less(c, Sorted(read)[limit - 1]) {
      TopIsFinal(read, all, limit);
    }
  }

  /** The first `limit` comments of `s`, or all of them if there are fewer. */
  ghost predicate IsTop(values: seq<Comment>, s: set<Comment>, limit: nat) {
    values == Sorted(s)[..Min(limit, |s|)]
  }

  /** As many comments as the first `limit` of `s`, with the same timestamps. */
  ghost predicate HasTopTimes(values: seq<Comment>, s: set<Comment>, limit: nat) {
    |values| == Min(limit, |s|) && forall i | 0 <= i < |values| :: values[i].time == Sorted(s)[i].time
  }

  /** Nothing in `unread` passes the last of `limit` values. */
  ghost predicate Passed(values: seq<Comment>, unread: set<Comment>, limit: nat) {
    1 <= limit == |values| && exists c <- unread :: !Less(c, values[limit - 1])
  }
}
