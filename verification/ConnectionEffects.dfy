/**
 What each input of a Codex connection brings about: which requests are settled and how, and
 what fails the connection.
 */
module ConnectionEffects {
  import opened Texts
  import opened Framing
  import opened CodexConnection
  import opened ConnectionSettlement
  import opened ConnectionIgnoring

  /** Only this id is no longer pending. */
  ghost predicate NoLonger(before: seq<nat>, after: seq<nat>, id: nat) {
    |after| == |before| - 1 && forall x :: x in after <==> x in before && x != id
  }

  lemma {:induction false} OneLess(pending: seq<nat>, id: nat)
    requires id in pending && forall i, j | 0 <= i < j < |pending| :: pending[i] != pending[j]
    ensures NoLonger(pending, WithoutPending(pending, id), id)
  {
    PendingLess(pending, id);
    LessByOne(pending, id);
  }

  lemma {:induction false} LessByOne(pending: seq<nat>, id: nat)
    requires id in pending
    ensures |WithoutPending(pending, id)| == |pending| - 1
  {
    if pending[0] != id { LessByOne(pending[1..], id); }
  }

  /** A line of at most four mebibytes that answers a pending request. */
  ghost predicate Answers(line: string, parse: string -> Message, id: nat, answer: Answer) {
    line != "" && ByteLength(line) <= 4 * 1024 * 1024 && parse(line) == Response(Number(id), answer)
  }

  /** The response to a pending request settles it with its answer, and nothing else happens. */
  lemma {:induction false} ResponseSettles(c: Connection, line: string, parse: string -> Message, delivered: bool, now: int,
                                           id: nat, answer: Answer)
    requires Accounted(c) && c.phase == Open && id in c.pending && Answers(line, parse, id, answer)
    ensures var after := ConsumeLine(c, line, parse, delivered, now);
            && after.phase == Open && NoLonger(c.pending, after.pending, id)
            && after.settled == c.settled + [(id, Answered(answer))]
            && after.ignored == c.ignored && after.aborts == c.aborts && after.nextId == c.nextId
  {
    hide ByteLength;
    OneLess(c.pending, id);
  }

  /** An abort of a pending request settles it as aborted, and its response is ignored for a minute. */
  lemma {:induction false} AbortSettles(c: Connection, id: nat, now: int)
    requires Accounted(c) && id in c.pending
    ensures var after := AbortRequest(c, id, now);
            && after.phase == c.phase && NoLonger(c.pending, after.pending, id)
            && after.settled == c.settled + [(id, Aborted)]
            && after.aborts == c.aborts + [Ignored(id, now + 60000, |c.aborts|)]
            && after.ignored != [] && after.ignored[|after.ignored| - 1] == Ignored(id, now + 60000, |c.aborts|)
  {
    hide Prune;
    OneLess(c.pending, id);
  }

  /** On an open connection a request gets the next id; it is settled at once when aborted or not written, and waits otherwise. */
  lemma {:induction false} RequestIsIssued(c: Connection, aborted: bool, writable: bool, now: int)
    requires c.phase == Open
    ensures var after := Start(c, aborted, writable, now);
            && after.nextId == c.nextId + 1 && after.phase == Open
            && after.pending == (if !aborted && writable then c.pending + [c.nextId] else c.pending)
            && after.settled == (if aborted then c.settled + [(c.nextId, Aborted)]
                                 else if !writable then c.settled + [(c.nextId, WriteFailed)] else c.settled)
            && after.aborts == (if aborted then c.aborts + [Ignored(c.nextId, now + 60000, |c.aborts|)] else c.aborts)
  {
    hide Prune;
  }

  /** Requests rejected with the connection, each of them, in the order in which they were made. */
  ghost predicate AllRejected(c: Connection, after: Connection) {
    && after.pending == [] && |after.settled| == |c.settled| + |c.pending| && c.settled <= after.settled
    && forall i | 0 <= i < |c.pending| :: after.settled[|c.settled| + i] == (c.pending[i], ConnectionFailed)
  }

  /** Failing, closing and the end of the process reject all that is pending on an open connection. */
  lemma {:induction false} EndsReject(c: Connection, parse: string -> Message)
    requires c.phase == Open
    ensures AllRejected(c, Fail(c)) && Fail(c).phase == Closing && Fail(c).ignored == []
    ensures AllRejected(c, Step(c, Close, parse)) && Step(c, Close, parse).phase == Closing
    ensures AllRejected(c, Step(c, ProcessClosed, parse)) && Step(c, ProcessClosed, parse).phase == Closed
    ensures Step(c, ProcessError, parse) == Fail(c)
  {
  }

  // ----- which lines fail it --------------------------------------------------------

  /** The response is to an abort that is still listed, unexpired and not crowded out. */
  ghost predicate IsIgnored(c: Connection, id: RequestId, now: int) {
    id.Number? && exists e <- c.ignored :: e.id == id.n && e.expiresAt > now && !Crowded(Unexpired(c.ignored, now), e)
  }

  /** A line is harmless when it is empty, or short enough and a delivered notice, an answer to a pending request or an ignored response. */
  ghost predicate Harmless(c: Connection, line: string, parse: string -> Message, delivered: bool, now: int) {
    line == "" ||
    (ByteLength(line) <= 4 * 1024 * 1024 &&
     match parse(line)
     case Malformed => false
     case Notice => delivered
     case Response(id, _) => (id.Number? && id.n >= 0 && id.n in c.pending) || IsIgnored(c, id, now))
  }

  /** A line fails an open connection exactly when it is not harmless. */
  lemma {:induction false} LineFailsExactly(c: Connection, line: string, parse: string -> Message, delivered: bool, now: int)
    requires c.phase == Open && Ignoring(c)
    ensures ConsumeLine(c, line, parse, delivered, now).phase == Open <==> Harmless(c, line, parse, delivered, now)
  {
    hide ByteLength, Prune, Unexpired, Crowded;
    if line != "" && parse(line).Response? {
      var id := parse(line).id;
      if id.Number? && id.n >= 0 { ListedExactly(c, id.n, now); }
    }
  }

  lemma {:induction false} ListedExactly(c: Connection, id: nat, now: int)
    requires Ignoring(c)
    ensures HasId(Prune(c.ignored, now), id) <==> IsIgnored(c, Number(id), now)
  {
    hide Prune, Unexpired, Crowded;
    PruneKeepsRecent(c.ignored, now, |c.aborts|);
    forall e | e in c.ignored
      ensures e in Prune(c.ignored, now) <==> e.expiresAt > now && !Crowded(Unexpired(c.ignored, now), e)
    {
      PrunedExactly(c.ignored, now, |c.aborts|, e);
    }
  }

  /** Text is dropped by a connection that is not open, and fails it when more than eight mebibytes are waiting. */
  lemma {:induction false} TooMuchFails(c: Connection, chunk: string, parse: string -> Message, delivers: nat -> bool, now: int)
    ensures c.phase != Open ==> Receive(c, chunk, parse, delivers, now) == c
    ensures c.phase == Open && ByteLength(c.buffer + chunk) > 8 * 1024 * 1024 ==>
              Receive(c, chunk, parse, delivers, now) == Fail(c.(buffer := c.buffer + chunk))
  {
  }

  /** The end of the output fails it when a line is left unfinished. */
  lemma {:induction false} EndFailsExactly(c: Connection, tail: string, parse: string -> Message)
    requires c.phase == Open
    ensures Step(c, End(tail), parse).phase != Open <==> c.buffer != "" || tail != ""
  {
  }

  /** The bytes of a text are those of its characters. */
  lemma {:induction false} BytesOf(c: char, s: string)
    ensures ByteLength("") == 0
    ensures ByteLength([c] + s) ==
            ByteLength(s) + if c < '\U{80}' then 1 else if c < '\U{800}' then 2 else if c < '\U{10000}' then 3 else 4
  {
    assert ([c] + s)[1..] == s;
  }

  // ----- every answered request is settled so ----------------------------------------

  /** The connection as each line of the buffer is consumed, and the line. */
  function PumpLines(c: Connection, parse: string -> Message, delivers: nat -> bool, now: int, k: nat): seq<(Connection, string)>
    decreases |c.buffer|
  {
    var newline := IndexOf(c.buffer, '\n', 0);
    if newline == |c.buffer| then []
    else
      var line, rest := WithoutCR(c.buffer[..newline]), c.(buffer := c.buffer[newline + 1..]);
      ConsumeKeepsBuffer(rest, line, parse, delivers(k), now);
      var after := ConsumeLine(rest, line, parse, delivers(k), now);
      [(rest, line)] + if after.phase != Open then [] else PumpLines(after, parse, delivers, now, k + 1)
  }

  function StepLines(c: Connection, input: Input, parse: string -> Message): seq<(Connection, string)> {
    if !input.Data? || c.phase != Open || ByteLength(c.buffer + input.chunk) > MAX_BUFFER_BYTES then []
    else PumpLines(c.(buffer := c.buffer + input.chunk), parse, input.delivers, input.now, 0)
  }

  /** The lines of a run, each with the connection that consumed it. */
  function Consumed(inputs: seq<Input>, parse: string -> Message): seq<(Connection, string)> {
    if inputs == [] then []
    else
      var n := |inputs| - 1;
      Consumed(inputs[..n], parse) + StepLines(Run(inputs[..n], parse), inputs[n], parse)
  }

  /** These are the lines that followed, in order, and each is an account of requests that stands until `after`. */
  ghost predicate Follow(lines: seq<(Connection, string)>, parse: string -> Message, from: Connection, after: Connection) {
    && after.lines == from.lines + seq(|lines|, i requires 0 <= i < |lines| => lines[i].1)
    && from.settled <= after.settled
    && forall i, id: nat, answer | 0 <= i < |lines| && id in lines[i].0.pending && Answers(lines[i].1, parse, id, answer) ::
         (id, Answered(answer)) in after.settled
  }

  lemma {:induction false} LineSettles(c: Connection, line: string, parse: string -> Message, delivered: bool, now: int)
    requires Accounted(c) && c.phase == Open
    ensures c.settled <= ConsumeLine(c, line, parse, delivered, now).settled
    ensures forall id: nat, answer | id in c.pending && Answers(line, parse, id, answer) ::
              (id, Answered(answer)) in ConsumeLine(c, line, parse, delivered, now).settled
  {
    hide ByteLength, Prune;
    forall id: nat, answer | id in c.pending && Answers(line, parse, id, answer)
      ensures (id, Answered(answer)) in ConsumeLine(c, line, parse, delivered, now).settled
    {
      ResponseSettles(c, line, parse, delivered, now, id, answer);
    }
  }

  lemma {:induction false} FollowOneMore(first: (Connection, string), rest: seq<(Connection, string)>, parse: string -> Message,
                                         from: Connection, between: Connection, after: Connection)
    requires from.settled <= between.settled && between.lines == from.lines + [first.1]
    requires forall id: nat, answer | id in first.0.pending && Answers(first.1, parse, id, answer) ::
               (id, Answered(answer)) in between.settled
    requires Follow(rest, parse, between, after)
    ensures Follow([first] + rest, parse, from, after)
  {
    hide Answers;
    var lines := [first] + rest;
    forall i, id: nat, answer | 0 <= i < |lines| && id in lines[i].0.pending && Answers(lines[i].1, parse, id, answer)
      ensures (id, Answered(answer)) in after.settled
    {
      if i > 0 { assert lines[i] == rest[i - 1]; }
    }
    var texts := seq(|lines|, i requires 0 <= i < |lines| => lines[i].1);
    assert texts == [first.1] + seq(|rest|, i requires 0 <= i < |rest| => rest[i].1);
    assert from.lines + [first.1] + seq(|rest|, i requires 0 <= i < |rest| => rest[i].1) == from.lines + texts;
  }

  lemma {:induction false} PumpFollows(c: Connection, parse: string -> Message, delivers: nat -> bool, now: int, k: nat)
    requires Accounted(c) && c.phase == Open
    ensures Follow(PumpLines(c, parse, delivers, now, k), parse, c, Pump(c, parse, delivers, now, k))
    decreases |c.buffer|
  {
    hide ConsumeLine, WithoutCR, IndexOf, Accounted, Follow, Answers;
    var newline := IndexOf(c.buffer, '\n', 0);
    if newline == |c.buffer| {
      NothingFollows(parse, c);
    } else {
      var line, rest := WithoutCR(c.buffer[..newline]), c.(buffer := c.buffer[newline + 1..]);
      BufferAccounted(c, rest.buffer);
      ConsumeKeepsBuffer(rest, line, parse, delivers(k), now);
      LineSettles(rest, line, parse, delivers(k), now);
      LineAccounted(rest, line, parse, delivers(k), now);
      var after := ConsumeLine(rest, line, parse, delivers(k), now);
      if after.phase == Open {
        PumpFollows(after, parse, delivers, now, k + 1);
        FollowOneMore((rest, line), PumpLines(after, parse, delivers, now, k + 1), parse, c, after, Pump(after, parse, delivers, now, k + 1));
      } else {
        NothingFollows(parse, after);
        FollowOneMore((rest, line), [], parse, c, after, after);
        assert [(rest, line)] + [] == [(rest, line)];
      }
    }
  }

  lemma {:induction false} NothingFollows(parse: string -> Message, c: Connection)
    ensures Follow([], parse, c, c)
  {
    assert c.lines + [] == c.lines;
  }

  lemma {:induction false} StepFollows(c: Connection, input: Input, parse: string -> Message)
    requires Accounted(c)
    ensures Follow(StepLines(c, input, parse), parse, c, Step(c, input, parse))
  {
    SettlementsStand(c, input, parse);
    hide ByteLength, Pump, PumpLines, Accounted, Prune, Answers;
    if input.Data? && c.phase == Open && ByteLength(c.buffer + input.chunk) <= MAX_BUFFER_BYTES {
      var d := c.(buffer := c.buffer + input.chunk);
      BufferAccounted(c, d.buffer);
      PumpFollows(d, parse, input.delivers, input.now, 0);
    } else {
      assert Step(c, input, parse).lines == c.lines;
      assert c.lines + [] == c.lines;
    }
  }

  /**
   In every run the lines consumed are those recorded, and a request whose response was consumed
   while it was pending is settled with that answer.
   */
  lemma {:induction false} AnsweredIsSettled(inputs: seq<Input>, parse: string -> Message)
    ensures var lines, c := Consumed(inputs, parse), Run(inputs, parse);
            && |lines| == |c.lines| && (forall i | 0 <= i < |lines| :: lines[i].1 == c.lines[i])
            && forall i, id: nat, answer | 0 <= i < |lines| && id in lines[i].0.pending && Answers(lines[i].1, parse, id, answer) ::
                 (id, Answered(answer)) in c.settled
  {
    hide Step, StepLines, Answers;
    if inputs != [] {
      var n := |inputs| - 1;
      var before, c := Consumed(inputs[..n], parse), Run(inputs[..n], parse);
      AnsweredIsSettled(inputs[..n], parse);
      EveryRequestSettlesOnce(inputs[..n], parse);
      StepFollows(c, inputs[n], parse);
      var more := StepLines(c, inputs[n], parse);
      var lines := before + more;
      forall i, id: nat, answer | 0 <= i < |lines| && id in lines[i].0.pending && Answers(lines[i].1, parse, id, answer)
        ensures (id, Answered(answer)) in Run(inputs, parse).settled
      {
        if i >= |before| { assert lines[i] == more[i - |before|]; }
      }
    }
  }
}
