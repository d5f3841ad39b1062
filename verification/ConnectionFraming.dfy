/**
 Framing of a Codex connection: the lines it consumes do not depend on how its text was cut.
 */
module ConnectionFraming {
  import opened Texts
  import opened Framing
  import opened CodexConnection

  /** The decoded text the process has written so far. */
  function Received(inputs: seq<Input>): string {
    if inputs == [] then ""
    else
      var before, last := Received(inputs[..|inputs| - 1]), inputs[|inputs| - 1];
      match last
      case Data(chunk, _, _) => before + chunk
      case End(tail) => before + tail
      case _ => before
  }

  ghost predicate FramedSoFar(c: Connection, stream: string) {
    && c.lines <= Lines(stream)
    && (c.phase == Open ==> c.lines == Lines(stream) && c.buffer == Remainder(stream))
  }

  /** The loop consumes the lines of its text in order, all of them while it stays open. */
  lemma {:induction false} PumpFrames(c: Connection, parse: string -> Message, delivers: nat -> bool, now: int, k: nat)
    ensures var after := Pump(c, parse, delivers, now, k);
            && c.lines <= after.lines <= c.lines + Lines(c.buffer)
            && (c.phase == Open && after.phase == Open ==>
                  after.lines == c.lines + Lines(c.buffer) && after.buffer == Remainder(c.buffer))
    decreases |c.buffer|
  {
    hide ConsumeLine, Lines, Remainder, WithoutCR, IndexOf;
    var newline := IndexOf(c.buffer, '\n', 0);
    assert c.buffer[0..newline] == c.buffer[..newline];
    if newline == |c.buffer| {
      assert c.buffer[..newline] == c.buffer;
      NoLine(c.buffer);
      assert c.lines + [] == c.lines;
    } else {
      FirstLine(c.buffer, newline);
      var line, rest := WithoutCR(c.buffer[..newline]), c.(buffer := c.buffer[newline + 1..]);
      ConsumeKeepsBuffer(rest, line, parse, delivers(k), now);
      var after := ConsumeLine(rest, line, parse, delivers(k), now);
      assert c.lines + Lines(c.buffer) == (c.lines + [line]) + Lines(rest.buffer);
      if after.phase == Open {
        PumpFrames(after, parse, delivers, now, k + 1);
      }
    }
  }

  lemma {:induction false} StepFrames(c: Connection, input: Input, parse: string -> Message, stream: string)
    requires FramedSoFar(c, stream)
    ensures FramedSoFar(Step(c, input, parse),
                        match input case Data(chunk, _, _) => stream + chunk case End(tail) => stream + tail case _ => stream)
  {
    hide Pump, Lines, Remainder, ByteLength, Prune, WithoutPending;
    match input
    case Data(chunk, delivers, now) =>
      LinesConcat(stream, chunk);
      if c.phase == Open {
        PumpFrames(c.(buffer := c.buffer + chunk), parse, delivers, now, 0);
      }
    case End(tail) =>
      LinesConcat(stream, tail);
      if c.phase == Open && c.buffer + tail == "" {
        assert c.buffer == "" && tail == "" && stream + tail == stream;
      }
    case _ =>
  }

  /**
   Framing does not depend on chunking.  While the connection is open the lines
   consumed are exactly those of the received text and the buffer is its
   unfinished remainder; after that they are still a prefix.
   */
  lemma {:induction false} FramingIsChunkFree(inputs: seq<Input>, parse: string -> Message)
    ensures FramedSoFar(Run(inputs, parse), Received(inputs))
  {
    if inputs == [] {
      NoLine("");
    } else {
      FramingIsChunkFree(inputs[..|inputs| - 1], parse);
      hide Step, FramedSoFar;
      StepFrames(Run(inputs[..|inputs| - 1], parse), inputs[|inputs| - 1], parse, Received(inputs[..|inputs| - 1]));
    }
  }

  /** Two runs that received the same text and are both open agree, however the text was cut. */
  lemma {:induction false} SameTextSameLines(a: seq<Input>, b: seq<Input>, parse: string -> Message)
    requires Received(a) == Received(b) && Run(a, parse).phase == Open && Run(b, parse).phase == Open
    ensures Run(a, parse).lines == Run(b, parse).lines && Run(a, parse).buffer == Run(b, parse).buffer
  {
    FramingIsChunkFree(a, parse);
    FramingIsChunkFree(b, parse);
  }
}
