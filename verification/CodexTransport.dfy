/**
 The closure state of a Codex transport and its event handlers, refining the
 connection machine step by step.  Fields marked ghost are history.
 */
module CodexTransport {
  import opened Texts
  import opened Framing
  import opened CodexConnection

  class Transport {
    const parse: string -> Message
    var nextId: nat
    var phase: Phase
    var buffer: string
    var pending: seq<nat>
    var ignoredResponses: seq<Ignored>
    var aborts: nat
    ghost var lines: seq<string>
    ghost var settled: seq<(nat, Settlement)>
    ghost var aborted: seq<Ignored>
    ghost var swallowed: set<nat>
    ghost var clock: int

    ghost predicate Valid()
      reads this
    {
      aborts == |aborted|
    }

    ghost function View(): Connection
      reads this
    {
      Connection(nextId, phase, buffer, pending, ignoredResponses, lines, settled, aborted, swallowed, clock)
    }

    constructor (parse: string -> Message)
      ensures Valid() && View() == NEW_CONNECTION && this.parse == parse
    {
      this.parse := parse;
      nextId, phase, buffer, pending, ignoredResponses, aborts := 1, Open, "", [], [], 0;
      lines, settled, aborted, swallowed, clock := [], [], [], {}, 0;
    }

    /** `rejectPending`: the map is emptied entry by entry. */
    method RejectAll()
      requires Valid()
      modifies this
      ensures Valid() && View() == RejectPending(old(View()))
    {
      ghost var all := Rejections(pending);
      while pending != []
        invariant Valid()
        invariant View() == old(View()).(pending := pending, settled := settled)
        invariant |pending| <= |all| && pending == old(pending)[|all| - |pending|..]
        invariant settled == old(settled) + all[..|all| - |pending|]
      {
        ghost var k := |all| - |pending|;
        settled := settled + [(pending[0], ConnectionFailed)];
        pending := pending[1..];
        assert all[..k + 1] == all[..k] + [all[k]];
      }
      assert all[..|all|] == all;
    }

    method FailConnection()
      requires Valid()
      modifies this
      ensures Valid() && View() == Fail(old(View()))
    {
      if phase != Open { return; }
      phase := Closing;
      RejectAll();
      ignoredResponses := [];
    }

    /** `pruneIgnoredResponses`: one pass over the map, then the oldest while it is full. */
    method PruneIgnored(now: int)
      requires Valid()
      modifies this
      ensures Valid()
      ensures View() == old(View()).(ignored := Prune(old(ignoredResponses), now), clock := Max(old(clock), now))
    {
      hide Unexpired;
      var all, kept := ignoredResponses, [];
      for i := 0 to |all|
        invariant Valid() && View() == old(View())
        invariant kept == Unexpired(all[..i], now)
      {
        UnexpiredMore(all[..i], all[i], now);
        assert all[..i + 1] == all[..i] + [all[i]];
        if all[i].expiresAt > now { kept := kept + [all[i]]; }
      }
      assert all[..|all|] == all;
      ghost var whole := kept;
      while |kept| >= MAX_IGNORED
        invariant Valid() && View() == old(View())
        invariant Newest(kept, MAX_IGNORED - 1) == Newest(whole, MAX_IGNORED - 1)
      {
        kept := kept[1..];
      }
      ignoredResponses := kept;
      clock := Max(clock, now);
    }

    method Ignore(id: nat, now: int)
      requires Valid()
      modifies this
      ensures Valid() && View() == IgnoreResponse(old(View()), id, now)
    {
      PruneIgnored(now);
      var entry := Ignored(id, now + IGNORED_TTL_MS, aborts);
      ignoredResponses := ignoredResponses + [entry];
      aborted := aborted + [entry];
      aborts := aborts + 1;
    }

    /** `consumeLine`. */
    method Consume(line: string, delivered: bool, now: int)
      requires Valid()
      modifies this
      ensures Valid() && View() == ConsumeLine(old(View()), line, parse, delivered, now)
    {
      hide ByteLength, Prune, HasId, WithoutId, WithoutPending;
      lines := lines + [line];
      if line == "" { return; }
      if ByteLength(line) > MAX_LINE_BYTES {
        FailConnection();
        return;
      }
      var message := parse(line);
      match message
      case Malformed => FailConnection();
      case Notice => if !delivered { FailConnection(); }
      case Response(id, answer) =>
        if id.Number? && id.n >= 0 && id.n in pending {
          pending := WithoutPending(pending, id.n);
          settled := settled + [(id.n, Answered(answer))];
        } else {
          PruneIgnored(now);
          if id.Number? && id.n >= 0 && HasId(ignoredResponses, id.n) {
            ignoredResponses := WithoutId(ignoredResponses, id.n);
            swallowed := swallowed + {id.n};
          } else {
            FailConnection();
          }
        }
    }

    /** The `data` handler: append, check the bound, and cut lines until none is left or the state changes. */
    method OnData(chunk: string, delivers: nat -> bool, now: int)
      requires Valid()
      modifies this
      ensures Valid() && View() == Receive(old(View()), chunk, parse, delivers, now)
    {
      hide ByteLength, ConsumeLine, WithoutCR, IndexOf;
      if phase != Open { return; }
      buffer := buffer + chunk;
      if ByteLength(buffer) > MAX_BUFFER_BYTES {
        FailConnection();
        return;
      }
      ghost var target := Pump(View(), parse, delivers, now, 0);
      var k := 0;
      while true
        invariant Valid() && phase == Open
        invariant Pump(View(), parse, delivers, now, k) == target
        decreases |buffer|
      {
        ghost var before := View();
        var newline := IndexOf(buffer, '\n', 0);
        if newline == |buffer| { break; }
        var line := WithoutCR(buffer[..newline]);
        buffer := buffer[newline + 1..];
        ConsumeKeepsBuffer(View(), line, parse, delivers(k), now);
        assert View() == before.(buffer := buffer);
        Consume(line, delivers(k), now);
        if phase != Open { break; }
        k := k + 1;
      }
    }

    method OnEnd(tail: string)
      requires Valid()
      modifies this
      ensures Valid() && View() == Step(old(View()), End(tail), parse)
    {
      if phase != Open { return; }
      buffer := buffer + tail;
      if buffer != "" { FailConnection(); }
    }

    method OnClose()
      requires Valid()
      modifies this
      ensures Valid() && View() == Step(old(View()), ProcessClosed, parse)
    {
      if phase == Open { RejectAll(); }
      phase := Closed;
      ignoredResponses := [];
    }

    /** `request`; the answer says whether an id was issued. */
    method SendRequest(aborted: bool, writable: bool, now: int) returns (id: int)
      requires Valid()
      modifies this
      ensures Valid() && View() == Step(old(View()), Request(aborted, writable, now), parse)
      ensures id == if old(phase) == Open then old(nextId) else -1
    {
      if phase != Open { return -1; }
      id := nextId;
      nextId := nextId + 1;
      if aborted {
        Ignore(id, now);
        settled := settled + [(id, Aborted)];
        return;
      }
      pending := pending + [id];
      if !writable {
        pending := pending[..|pending| - 1];
        settled := settled + [(id, WriteFailed)];
      }
    }

    /** The abort listener of a pending request. */
    method OnAbort(id: nat, now: int)
      requires Valid() && id in pending
      modifies this
      ensures Valid() && View() == Step(old(View()), Abort(id, now), parse)
    {
      hide WithoutPending;
      pending := WithoutPending(pending, id);
      Ignore(id, now);
      settled := settled + [(id, Aborted)];
    }

    /** `respond`; the answer says whether the response was sent. */
    method SendResponse(writable: bool) returns (sent: bool)
      requires Valid()
      modifies this
      ensures Valid() && View() == Step(old(View()), Respond(writable), parse)
      ensures sent == (old(phase) == Open && writable)
    {
      if phase != Open { return false; }
      if !writable { FailConnection(); }
      sent := writable;
    }

    method CloseTransport()
      requires Valid()
      modifies this
      ensures Valid() && View() == Step(old(View()), Close, parse)
    {
      if phase == Open {
        phase := Closing;
        RejectAll();
      }
    }
  }

  lemma {:induction false} UnexpiredMore(s: seq<Ignored>, e: Ignored, now: int)
    ensures Unexpired(s + [e], now) == if e.expiresAt > now then Unexpired(s, now) + [e] else Unexpired(s, now)
  {
    if s == [] {
      assert s + [e] == [e] && [e][1..] == [];
    } else {
      assert (s + [e])[1..] == s[1..] + [e];
      UnexpiredMore(s[1..], e, now);
      var head := if s[0].expiresAt > now then [s[0]] else [];
      assert head + (Unexpired(s[1..], now) + [e]) == (head + Unexpired(s[1..], now)) + [e];
    }
  }

}
