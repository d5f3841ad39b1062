/**
 The Codex connection as a state machine over its steps: framing, request and
 response correlation, aborts with a bounded list of ids whose late responses
 are ignored, failure and shutdown.

 The last five fields of a connection are its history: they record what
 happened and decide nothing.
 */
module CodexConnection {
  import opened Texts
  import opened Framing

  datatype Phase = Open | Closing | Closed

  datatype RequestId = Number(n: int) | Text(s: string)

  datatype Answer = Result(value: string) | ServerError(code: int)

  /** What a line parses to. */
  datatype Message = Malformed | Response(id: RequestId, answer: Answer) | Notice

  datatype Settlement = Answered(answer: Answer) | Aborted | WriteFailed | ConnectionFailed

  /** An aborted id whose late response is to be ignored; `order` counts the aborts. */
  datatype Ignored = Ignored(id: nat, expiresAt: int, order: nat)

  datatype Connection = Connection(
    nextId: nat, phase: Phase, buffer: string, pending: seq<nat>, ignored: seq<Ignored>,
    lines: seq<string>, settled: seq<(nat, Settlement)>, aborts: seq<Ignored>, swallowed: set<nat>, clock: int)

  const NEW_CONNECTION := Connection(1, Open, "", [], [], [], [], [], {}, 0)

  const MAX_IGNORED := 1024
  const IGNORED_TTL_MS := 60000
  const MAX_LINE_BYTES := 4 * 1024 * 1024
  const MAX_BUFFER_BYTES := 8 * 1024 * 1024

  /** One step's input, with what the process, the listeners and the clock do in it. */
  datatype Input =
    | Data(chunk: string, delivers: nat -> bool, now: int)
    | End(tail: string)
    | ProcessError
    | ProcessClosed
    | Request(aborted: bool, writable: bool, now: int)
    | Abort(id: nat, now: int)
    | Respond(writable: bool)
    | Close

  // ----- operations -------------------------------------------------------

  /** `Buffer.byteLength(s, "utf8")`. */
  function ByteLength(s: string): nat {
    if s == "" then 0
    else (if s[0] as int < 0x80 then 1 else if s[0] as int < 0x800 then 2 else if s[0] as int < 0x10000 then 3 else 4) +
         ByteLength(s[1..])
  }

  function Max(a: int, b: int): int {
    if a >= b then a else b
  }

  function Rejections(ids: seq<nat>): (r: seq<(nat, Settlement)>)
    ensures |r| == |ids| && forall i | 0 <= i < |ids| :: r[i] == (ids[i], ConnectionFailed)
  {
    seq(|ids|, i requires 0 <= i < |ids| => (ids[i], ConnectionFailed))
  }

  function RejectPending(c: Connection): Connection {
    c.(settled := c.settled + Rejections(c.pending), pending := [])
  }

  function Fail(c: Connection): Connection {
    if c.phase != Open then c else RejectPending(c).(phase := Closing, ignored := [])
  }

  function Unexpired(ignored: seq<Ignored>, now: int): (r: seq<Ignored>)
    ensures |r| <= |ignored|
  {
    if ignored == [] then []
    else (if ignored[0].expiresAt > now then [ignored[0]] else []) + Unexpired(ignored[1..], now)
  }

  function Newest(s: seq<Ignored>, n: nat): seq<Ignored> {
    if |s| <= n then s else s[|s| - n..]
  }

  /** `pruneIgnoredResponses`. */
  function Prune(ignored: seq<Ignored>, now: int): seq<Ignored> {
    Newest(Unexpired(ignored, now), MAX_IGNORED - 1)
  }

  function IgnoreResponse(c: Connection, id: nat, now: int): Connection {
    var entry := Ignored(id, now + IGNORED_TTL_MS, |c.aborts|);
    c.(ignored := Prune(c.ignored, now) + [entry], aborts := c.aborts + [entry], clock := Max(c.clock, now))
  }

  function WithoutId(ignored: seq<Ignored>, id: nat): seq<Ignored> {
    if ignored == [] then []
    else if ignored[0].id == id then ignored[1..]
    else [ignored[0]] + WithoutId(ignored[1..], id)
  }

  predicate HasId(ignored: seq<Ignored>, id: nat) {
    exists e <- ignored :: e.id == id
  }

  function WithoutPending(pending: seq<nat>, id: nat): seq<nat> {
    if pending == [] then []
    else if pending[0] == id then pending[1..]
    else [pending[0]] + WithoutPending(pending[1..], id)
  }

  /** A response that no pending request waits for. */
  function UnknownResponse(c: Connection, id: RequestId, now: int): Connection {
    var pruned := c.(ignored := Prune(c.ignored, now), clock := Max(c.clock, now));
    if id.Number? && id.n >= 0 && HasId(pruned.ignored, id.n) then
      pruned.(ignored := WithoutId(pruned.ignored, id.n), swallowed := c.swallowed + {id.n})
    else Fail(pruned)
  }

  function ConsumeLine(c: Connection, line: string, parse: string -> Message, delivered: bool, now: int): Connection {
    var c := c.(lines := c.lines + [line]);
    if line == "" then c
    else if ByteLength(line) > MAX_LINE_BYTES then Fail(c)
    else match parse(line)
      case Malformed => Fail(c)
      case Notice => if delivered then c else Fail(c)
      case Response(id, answer) =>
        if id.Number? && id.n >= 0 && id.n in c.pending then
          c.(pending := WithoutPending(c.pending, id.n), settled := c.settled + [(id.n, Answered(answer))])
        else UnknownResponse(c, id, now)
  }

  lemma {:induction false} ConsumeKeepsBuffer(c: Connection, line: string, parse: string -> Message, delivered: bool, now: int)
    ensures var after := ConsumeLine(c, line, parse, delivered, now);
            after.buffer == c.buffer && after.lines == c.lines + [line] && after.nextId == c.nextId
  {
  }

  /** The framing loop: `k` counts the lines of this chunk. */
  function Pump(c: Connection, parse: string -> Message, delivers: nat -> bool, now: int, k: nat): Connection
    decreases |c.buffer|
  {
    var newline := IndexOf(c.buffer, '\n', 0);
    if newline == |c.buffer| then c
    else
      var line, rest := WithoutCR(c.buffer[..newline]), c.(buffer := c.buffer[newline + 1..]);
      ConsumeKeepsBuffer(rest, line, parse, delivers(k), now);
      var after := ConsumeLine(rest, line, parse, delivers(k), now);
      if after.phase != Open then after else Pump(after, parse, delivers, now, k + 1)
  }

  function Receive(c: Connection, chunk: string, parse: string -> Message, delivers: nat -> bool, now: int): Connection {
    if c.phase != Open then c
    else
      var c := c.(buffer := c.buffer + chunk);
      if ByteLength(c.buffer) > MAX_BUFFER_BYTES then Fail(c) else Pump(c, parse, delivers, now, 0)
  }

  function Start(c: Connection, aborted: bool, writable: bool, now: int): Connection {
    if c.phase != Open then c
    else
      var id, c := c.nextId, c.(nextId := c.nextId + 1);
      if aborted then IgnoreResponse(c, id, now).(settled := c.settled + [(id, Aborted)])
      else if !writable then c.(settled := c.settled + [(id, WriteFailed)])
      else c.(pending := c.pending + [id])
  }

  /** The abort listener, which is attached exactly while its request is pending. */
  function AbortRequest(c: Connection, id: nat, now: int): Connection {
    if id !in c.pending then c
    else IgnoreResponse(c.(pending := WithoutPending(c.pending, id)), id, now).(settled := c.settled + [(id, Aborted)])
  }

  function Step(c: Connection, input: Input, parse: string -> Message): Connection {
    match input
    case Data(chunk, delivers, now) => Receive(c, chunk, parse, delivers, now)
    case End(tail) =>
      if c.phase != Open then c
      else
        var c := c.(buffer := c.buffer + tail);
        if c.buffer != "" then Fail(c) else c
    case ProcessError => Fail(c)
    case ProcessClosed => (if c.phase == Open then RejectPending(c) else c).(phase := Closed, ignored := [])
    case Request(aborted, writable, now) => Start(c, aborted, writable, now)
    case Abort(id, now) => AbortRequest(c, id, now)
    case Respond(writable) => if c.phase == Open && !writable then Fail(c) else c
    case Close => if c.phase == Open then RejectPending(c).(phase := Closing) else c
  }

  function Run(inputs: seq<Input>, parse: string -> Message): Connection {
    if inputs == [] then NEW_CONNECTION
    else Step(Run(inputs[..|inputs| - 1], parse), inputs[|inputs| - 1], parse)
  }
}
