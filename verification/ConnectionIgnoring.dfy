/**
 Responses to aborted requests: the list of ignored ids is bounded and protects recent aborts.
 */
module ConnectionIgnoring {
  import opened Texts
  import opened Framing
  import opened CodexConnection
  import opened ConnectionSettlement

  ghost predicate Increasing(s: seq<Ignored>, below: nat) {
    && (forall i, j | 0 <= i < j < |s| :: s[i].order < s[j].order)
    && (forall i | 0 <= i < |s| :: s[i].order < below)
  }

  lemma {:induction false} OrdersLeaveRoom(s: seq<Ignored>, below: nat, i: nat)
    requires Increasing(s, below) && i < |s|
    ensures s[i].order + (|s| - i) <= below
    decreases |s| - i
  {
    if i < |s| - 1 {
      OrdersLeaveRoom(s, below, i + 1);
    }
  }

  /** The first entry stays in front of whatever is left of the others. */
  lemma {:induction false} FirstStaysFirst(s: seq<Ignored>, rest: seq<Ignored>, below: nat)
    requires Increasing(s, below) && s != [] && Increasing(rest, below)
    requires forall e <- rest :: e in s[1..]
    ensures Increasing([s[0]] + rest, below)
  {
    forall i | 0 <= i < |rest| ensures s[0].order < rest[i].order {
      assert rest[i] in rest && rest[i] in s[1..];
      var j :| 0 <= j < |s[1..]| && s[1..][j] == rest[i];
      assert s[j + 1] == rest[i];
    }
  }

  lemma {:induction false} UnexpiredKept(s: seq<Ignored>, now: int, below: nat)
    requires Increasing(s, below)
    ensures Increasing(Unexpired(s, now), below)
    ensures forall e :: e in Unexpired(s, now) <==> e in s && e.expiresAt > now
  {
    if s != [] {
      var tail := s[1..];
      assert s == [s[0]] + tail;
      UnexpiredKept(tail, now, below);
      FirstStaysFirst(s, Unexpired(tail, now), below);
    }
  }

  /** The last `n` entries hold the newest. */
  lemma {:induction false} LastOnes(u: seq<Ignored>, n: nat, below: nat, e: Ignored)
    requires Increasing(u, below) && n <= |u| && e in u && e.order + n >= below
    ensures e in u[|u| - n..]
  {
    hide Increasing;
    var i :| 0 <= i < |u| && u[i] == e;
    OrdersLeaveRoom(u, below, i);
    assert u[i] == u[|u| - n..][i - (|u| - n)];
  }

  lemma {:induction false} SuffixIncreases(u: seq<Ignored>, n: nat, below: nat)
    requires Increasing(u, below) && n <= |u|
    ensures Increasing(u[|u| - n..], below) && forall e <- u[|u| - n..] :: e in u
  {
    assert u == u[..|u| - n] + u[|u| - n..];
  }

  /** Pruning never drops an unexpired entry that is among the newest `MAX_IGNORED - 1` aborts. */
  lemma {:induction false} PruneKeepsRecent(s: seq<Ignored>, now: int, below: nat)
    requires Increasing(s, below)
    ensures var after := Prune(s, now);
            && |after| < MAX_IGNORED && Increasing(after, below)
            && (forall e <- after :: e in s)
            && (forall e <- s :: e.expiresAt > now && e.order + MAX_IGNORED > below ==> e in after)
  {
    hide Unexpired, Increasing;
    var u, n := Unexpired(s, now), MAX_IGNORED - 1;
    UnexpiredKept(s, now, below);
    if |u| > n {
      SuffixIncreases(u, n, below);
      forall e | e in u && e.order + MAX_IGNORED > below ensures e in u[|u| - n..] {
        LastOnes(u, n, below, e);
      }
    }
  }

  /**
   What every run keeps about aborts: the ignore list holds the newest of them in
   order, at most `MAX_IGNORED`, and while the connection is open none of the
   `MAX_IGNORED - 1` newest is missing unless it expired or was answered.
   */
  ghost predicate Ignoring(c: Connection) {
    && |c.ignored| <= MAX_IGNORED
    && Increasing(c.ignored, |c.aborts|)
    && (forall e <- c.ignored :: c.aborts[e.order] == e)
    && (forall i | 0 <= i < |c.aborts| :: c.aborts[i].order == i && WasSettled(c, c.aborts[i].id))
    && (forall i, j | 0 <= i < j < |c.aborts| :: c.aborts[i].id != c.aborts[j].id)
    && (c.phase == Open ==>
          forall e <- c.aborts :: Recent(c, e) && e.expiresAt > c.clock && e.id !in c.swallowed ==> e in c.ignored)
  }

  /** Among the newest `MAX_IGNORED - 1` aborts. */
  predicate Recent(c: Connection, e: Ignored) {
    e.order + MAX_IGNORED > |c.aborts|
  }

  lemma {:induction false} WithoutIdKept(s: seq<Ignored>, id: nat, below: nat)
    requires Increasing(s, below)
    ensures var after := WithoutId(s, id);
            && |after| <= |s| && Increasing(after, below)
            && (forall e <- after :: e in s)
            && (forall e <- s :: e.id != id ==> e in after)
  {
    if s != [] {
      var tail := s[1..];
      assert s == [s[0]] + tail;
      if s[0].id != id {
        WithoutIdKept(tail, id, below);
        FirstStaysFirst(s, WithoutId(tail, id), below);
      }
    }
  }

  lemma {:induction false} SettledThen(c: Connection, after: Connection, id: nat)
    requires after.settled == c.settled + [(id, Aborted)]
    ensures WasSettled(after, id) && forall x :: WasSettled(c, x) ==> WasSettled(after, x)
  {
    assert after.settled[|c.settled|].0 == id;
    forall x | WasSettled(c, x) ensures WasSettled(after, x) {
      var i :| 0 <= i < |c.settled| && c.settled[i].0 == x;
      assert after.settled[i].0 == x;
    }
  }

  lemma {:induction false} NewestLast(s: seq<Ignored>, entry: Ignored, below: nat)
    requires Increasing(s, below) && entry.order == below
    ensures Increasing(s + [entry], below + 1)
    ensures forall e :: e in s + [entry] <==> e in s || e == entry
  {
  }

  lemma {:induction false} AbortIgnored(c: Connection, id: nat, now: int)
    requires Ignoring(c) && !(exists i :: 0 <= i < |c.aborts| && c.aborts[i].id == id)
    ensures Ignoring(IgnoreResponse(c, id, now).(settled := c.settled + [(id, Aborted)]))
  {
    hide Prune, WasSettled, Increasing;
    PruneKeepsRecent(c.ignored, now, |c.aborts|);
    var after := IgnoreResponse(c, id, now).(settled := c.settled + [(id, Aborted)]);
    SettledThen(c, after, id);
    var kept, entry := Prune(c.ignored, now), after.aborts[|c.aborts|];
    NewestLast(kept, entry, |c.aborts|);
    assert forall i | 0 <= i < |c.aborts| :: after.aborts[i] == c.aborts[i];
    forall e | e in after.ignored ensures after.aborts[e.order] == e {
      if e in kept { assert e in c.ignored; }
    }
    if after.phase == Open {
      forall e | e in after.aborts && Recent(after, e) && e.expiresAt > after.clock && e.id !in after.swallowed
        ensures e in after.ignored
      {
        if e != entry { assert e in c.aborts && Recent(c, e); }
      }
    }
  }

  /** Growing the settlements, closing the connection, or emptying the list keeps it. */
  lemma {:induction false} SameIgnoring(c: Connection, d: Connection)
    requires Ignoring(c) && c.settled <= d.settled && d.aborts == c.aborts && d.swallowed == c.swallowed && d.clock == c.clock
    requires d.ignored == c.ignored || (d.ignored == [] && d.phase != Open)
    requires d.phase == Open ==> c.phase == Open
    ensures Ignoring(d)
  {
    forall i | 0 <= i < |d.aborts| ensures WasSettled(d, d.aborts[i].id) {
      var k :| 0 <= k < |c.settled| && c.settled[k].0 == c.aborts[i].id;
      assert d.settled[k].0 == d.aborts[i].id;
    }
  }

  lemma {:induction false} PrunedIgnoring(c: Connection, now: int)
    requires Ignoring(c)
    ensures Ignoring(c.(ignored := Prune(c.ignored, now), clock := Max(c.clock, now)))
  {
    hide Prune;
    PruneKeepsRecent(c.ignored, now, |c.aborts|);
    var after := c.(ignored := Prune(c.ignored, now), clock := Max(c.clock, now));
    assert forall x :: WasSettled(after, x) <==> WasSettled(c, x);
  }

  lemma {:induction false} SwallowedIgnoring(c: Connection, id: nat)
    requires Ignoring(c)
    ensures Ignoring(c.(ignored := WithoutId(c.ignored, id), swallowed := c.swallowed + {id}))
  {
    WithoutIdKept(c.ignored, id, |c.aborts|);
    var after := c.(ignored := WithoutId(c.ignored, id), swallowed := c.swallowed + {id});
    assert forall x :: WasSettled(after, x) <==> WasSettled(c, x);
  }

  lemma {:induction false} LineIgnoring(c: Connection, line: string, parse: string -> Message, delivered: bool, now: int)
    requires Ignoring(c)
    ensures Ignoring(ConsumeLine(c, line, parse, delivered, now))
  {
    hide ByteLength, Prune, WithoutId, HasId, WithoutPending, Ignoring;
    var d := c.(lines := c.lines + [line]);
    SameIgnoring(c, d);
    SameIgnoring(d, Fail(d));
    if line != "" && parse(line).Response? {
      var id, answer := parse(line).id, parse(line).answer;
      if id.Number? && id.n >= 0 && id.n in c.pending {
        SameIgnoring(d, d.(pending := WithoutPending(d.pending, id.n), settled := d.settled + [(id.n, Answered(answer))]));
      } else {
        PrunedIgnoring(d, now);
        var pruned := d.(ignored := Prune(d.ignored, now), clock := Max(d.clock, now));
        SameIgnoring(pruned, Fail(pruned));
        if id.Number? && id.n >= 0 { SwallowedIgnoring(pruned, id.n); }
      }
    }
  }

  lemma {:induction false} PumpIgnoring(c: Connection, parse: string -> Message, delivers: nat -> bool, now: int, k: nat)
    requires Ignoring(c)
    ensures Ignoring(Pump(c, parse, delivers, now, k))
    decreases |c.buffer|
  {
    hide ConsumeLine, WithoutCR, IndexOf, Ignoring;
    var newline := IndexOf(c.buffer, '\n', 0);
    if newline < |c.buffer| {
      var line, rest := WithoutCR(c.buffer[..newline]), c.(buffer := c.buffer[newline + 1..]);
      SameIgnoring(c, rest);
      ConsumeKeepsBuffer(rest, line, parse, delivers(k), now);
      LineIgnoring(rest, line, parse, delivers(k), now);
      var after := ConsumeLine(rest, line, parse, delivers(k), now);
      if after.phase == Open {
        PumpIgnoring(after, parse, delivers, now, k + 1);
      }
    }
  }

  /** An id that is pending or not issued yet has not been aborted. */
  lemma {:induction false} NotAborted(c: Connection, id: nat)
    requires Accounted(c) && Ignoring(c) && (id in c.pending || id == c.nextId)
    ensures !(exists i :: 0 <= i < |c.aborts| && c.aborts[i].id == id)
  {
  }

  lemma {:induction false} StepIgnoring(c: Connection, input: Input, parse: string -> Message)
    requires Accounted(c) && Ignoring(c)
    ensures Ignoring(Step(c, input, parse))
  {
    hide Pump, ByteLength, Prune, WithoutPending, Ignoring, Accounted;
    match input
    case Data(chunk, delivers, now) =>
      var d := c.(buffer := c.buffer + chunk);
      SameIgnoring(c, d);
      SameIgnoring(d, Fail(d));
      PumpIgnoring(d, parse, delivers, now, 0);
    case Request(aborted, writable, now) =>
      if c.phase == Open && aborted {
        NotAborted(c, c.nextId);
        var d := c.(nextId := c.nextId + 1);
        SameIgnoring(c, d);
        AbortIgnored(d, c.nextId, now);
      } else {
        SameIgnoring(c, Step(c, input, parse));
      }
    case Abort(id, now) =>
      if id in c.pending {
        NotAborted(c, id);
        var d := c.(pending := WithoutPending(c.pending, id));
        SameIgnoring(c, d);
        AbortIgnored(d, id, now);
      }
    case _ =>
      SameIgnoring(c, Step(c, input, parse));
  }

  /** In every run the ignore list stays bounded and keeps the recent aborts. */
  lemma {:induction false} RecentAbortsAreIgnored(inputs: seq<Input>, parse: string -> Message)
    ensures Ignoring(Run(inputs, parse))
  {
    if inputs != [] {
      EveryRequestSettlesOnce(inputs[..|inputs| - 1], parse);
      RecentAbortsAreIgnored(inputs[..|inputs| - 1], parse);
      hide Step, Ignoring, Accounted;
      StepIgnoring(Run(inputs[..|inputs| - 1], parse), inputs[|inputs| - 1], parse);
    }
  }

  /**
   A late response to one of the 1023 newest aborts, still unexpired and not yet
   answered, never fails the connection.
   */
  lemma {:induction false} LateResponseIsHarmless(inputs: seq<Input>, parse: string -> Message, e: Ignored,
                                                  line: string, answer: Answer, delivered: bool, now: int)
    requires var c := Run(inputs, parse);
             && c.phase == Open && e in c.aborts && Recent(c, e)
             && e.expiresAt > c.clock && e.expiresAt > now && e.id !in c.swallowed
    requires line != "" && ByteLength(line) <= MAX_LINE_BYTES && parse(line) == Response(Number(e.id), answer)
    ensures ConsumeLine(Run(inputs, parse), line, parse, delivered, now).phase == Open
  {
    EveryRequestSettlesOnce(inputs, parse);
    RecentAbortsAreIgnored(inputs, parse);
    hide Run, Prune;
    var c := Run(inputs, parse);
    PruneKeepsRecent(c.ignored, now, |c.aborts|);
    assert e.id !in c.pending;
    assert e in Prune(c.ignored, now);
  }

  /** `MAX_IGNORED - 1` unexpired entries are newer than this one. */
  predicate Crowded(u: seq<Ignored>, e: Ignored) {
    |u| >= MAX_IGNORED && e in u[..|u| - (MAX_IGNORED - 1)]
  }

  /** Pruning keeps an entry exactly when it has not expired and is not crowded out by newer ones. */
  lemma {:induction false} PrunedExactly(s: seq<Ignored>, now: int, below: nat, e: Ignored)
    requires Increasing(s, below) && e in s
    ensures e in Prune(s, now) <==> e.expiresAt > now && !Crowded(Unexpired(s, now), e)
  {
    hide Unexpired;
    UnexpiredKept(s, now, below);
    var u := Unexpired(s, now);
    if |u| >= MAX_IGNORED {
      var cut := |u| - (MAX_IGNORED - 1);
      assert u == u[..cut] + u[cut..];
      forall i, j | 0 <= i < cut && 0 <= j < |u[cut..]| ensures u[..cut][i] != u[cut..][j] {
        assert u[i].order < u[cut + j].order;
      }
    }
  }

  /** The list has an entry with the id of an abort exactly when it has that abort. */
  lemma {:induction false} AbortIsIdentified(c: Connection, kept: seq<Ignored>, e: Ignored)
    requires Ignoring(c) && e in c.aborts && forall k <- kept :: k in c.ignored
    ensures HasId(kept, e.id) <==> e in kept
  {
    if HasId(kept, e.id) {
      var k :| k in kept && k.id == e.id;
      assert k in c.ignored;
      assert c.aborts[k.order] == k;
    }
  }

  /**
   In every run, a late response to an aborted request leaves the connection open if and
   only if that abort is still listed, has not expired, and is not crowded out by newer ones.
   */
  lemma {:induction false} LateResponseExactly(inputs: seq<Input>, parse: string -> Message, e: Ignored,
                                               line: string, answer: Answer, delivered: bool, now: int)
    requires var c := Run(inputs, parse); c.phase == Open && e in c.aborts
    requires line != "" && ByteLength(line) <= MAX_LINE_BYTES && parse(line) == Response(Number(e.id), answer)
    ensures var c := Run(inputs, parse);
            ConsumeLine(c, line, parse, delivered, now).phase == Open <==>
              e in c.ignored && e.expiresAt > now && !Crowded(Unexpired(c.ignored, now), e)
  {
    EveryRequestSettlesOnce(inputs, parse);
    RecentAbortsAreIgnored(inputs, parse);
    hide Run, Prune, Unexpired, Crowded, ByteLength;
    var c := Run(inputs, parse);
    PruneKeepsRecent(c.ignored, now, |c.aborts|);
    AbortIsIdentified(c, Prune(c.ignored, now), e);
    assert e.id !in c.pending;
    if e in c.ignored { PrunedExactly(c.ignored, now, |c.aborts|, e); }
  }

  lemma {:induction false} AllUnexpired(s: seq<Ignored>, now: int)
    requires forall e <- s :: e.expiresAt > now
    ensures Unexpired(s, now) == s
  {
    if s != [] {
      AllUnexpired(s[1..], now);
    }
  }

  /** In every run with a full list of unexpired entries, a response to the oldest fails the connection. */
  lemma {:induction false} OldestOfFullListFails(inputs: seq<Input>, parse: string -> Message,
                                                 line: string, answer: Answer, delivered: bool, now: int)
    requires var c := Run(inputs, parse);
             && c.phase == Open && |c.ignored| == MAX_IGNORED && (forall e <- c.ignored :: e.expiresAt > now)
             && line != "" && ByteLength(line) <= MAX_LINE_BYTES && parse(line) == Response(Number(c.ignored[0].id), answer)
    ensures ConsumeLine(Run(inputs, parse), line, parse, delivered, now).phase != Open
  {
    hide Run, Unexpired, ByteLength, ConsumeLine;
    var c := Run(inputs, parse);
    RecentAbortsAreIgnored(inputs, parse);
    AllUnexpired(c.ignored, now);
    var oldest := c.ignored[0];
    assert oldest in c.ignored && oldest in c.aborts;
    assert c.ignored[..1][0] == oldest;
    LateResponseExactly(inputs, parse, oldest, line, answer, delivered, now);
  }

  /** Requests whose signal has fired before they are made. */
  function AbortedRequests(n: nat): seq<Input> {
    seq(n, _ => Request(true, true, 0))
  }

  function TheirEntries(n: nat): seq<Ignored> {
    seq(n, i requires 0 <= i < n => Ignored(i + 1, IGNORED_TTL_MS, i))
  }

  lemma {:induction false} AbortedRequestsListed(n: nat, parse: string -> Message)
    requires n <= MAX_IGNORED
    ensures var c := Run(AbortedRequests(n), parse);
            c.phase == Open && c.nextId == n + 1 && c.ignored == c.aborts == TheirEntries(n)
  {
    if n > 0 {
      assert AbortedRequests(n)[..n - 1] == AbortedRequests(n - 1);
      AbortedRequestsListed(n - 1, parse);
      AllUnexpired(TheirEntries(n - 1), 0);
      hide Unexpired, Run;
      var c := Run(AbortedRequests(n - 1), parse);
      assert Prune(c.ignored, 0) == c.ignored;
      assert TheirEntries(n) == TheirEntries(n - 1) + [Ignored(n, IGNORED_TTL_MS, n - 1)];
      assert Run(AbortedRequests(n), parse) == Step(c, Request(true, true, 0), parse);
    }
  }

  /** Such a run exists: after 1024 aborted requests the response to the first fails the connection. */
  lemma {:induction false} FullListIsReached(parse: string -> Message, line: string, answer: Answer, delivered: bool)
    requires line != "" && ByteLength(line) <= MAX_LINE_BYTES && parse(line) == Response(Number(1), answer)
    ensures var c := Run(AbortedRequests(MAX_IGNORED), parse);
            c.phase == Open && ConsumeLine(c, line, parse, delivered, 0).phase != Open
  {
    hide Run, ConsumeLine, ByteLength;
    AbortedRequestsListed(MAX_IGNORED, parse);
    OldestOfFullListFails(AbortedRequests(MAX_IGNORED), parse, line, answer, delivered, 0);
  }
}
