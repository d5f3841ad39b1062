/**
 Decoding of a chunked transfer (section 7.1 of RFC 9112), with chunk sizes read as
 JavaScript reads an integer in base 16.
 */
module ChunkedBody {
  import opened Wrappers
  import Texts

  type Byte = b: int | 0 <= b < 256

  datatype Problem = InvalidChunks | IncompleteChunks

  const CR: Byte := 13
  const LF: Byte := 10
  const CRLF: seq<Byte> := [CR, LF]
  const MAX_SAFE_INTEGER := 0x1F_FFFF_FFFF_FFFF

  /** `buf.toString("ascii")`, which ignores the high bit. */
  function Ascii(bytes: seq<Byte>): string {
    seq(|bytes|, i requires 0 <= i < |bytes| => (bytes[i] % 128) as char)
  }

  predicate IsSpace(c: char) {
    c == ' ' || 9 as char <= c <= 13 as char
  }

  function TrimStart(s: string): string {
    if s != "" && IsSpace(s[0]) then TrimStart(s[1..]) else s
  }

  function DigitOf(c: char): Option<nat> {
    if '0' <= c <= '9' then Some(c as int - '0' as int)
    else if 'a' <= c <= 'f' then Some(c as int - 'a' as int + 10)
    else if 'A' <= c <= 'F' then Some(c as int - 'A' as int + 10)
    else None
  }

  /** The leading hexadecimal digits. */
  function Digits(s: string): seq<nat> {
    if s == "" || DigitOf(s[0]).None? then [] else [DigitOf(s[0]).value] + Digits(s[1..])
  }

  function ValueOf(digits: seq<nat>): nat {
    if digits == [] then 0 else 16 * ValueOf(digits[..|digits| - 1]) + digits[|digits| - 1]
  }

  /** `Number.parseInt(s, 16)`: space, a sign and `0x` are skipped, and what follows the digits is ignored. */
  function ParseHex(s: string): Option<int> {
    var t := TrimStart(s);
    var signed := t != "" && (t[0] == '+' || t[0] == '-');
    var u := if signed then t[1..] else t;
    var v := if |u| >= 2 && u[0] == '0' && (u[1] == 'x' || u[1] == 'X') then u[2..] else u;
    var digits := Digits(v);
    if digits == [] then None
    else Some(if signed && t[0] == '-' then -(ValueOf(digits) as int) else ValueOf(digits))
  }

  /** The size on a chunk's line, before any extension. */
  function SizeOf(line: seq<Byte>): Option<nat> {
    var text := Ascii(line);
    var size := ParseHex(text[..Texts.IndexOf(text, ';', 0)]);
    if size.None? || size.value < 0 || size.value > MAX_SAFE_INTEGER then None else Some(size.value)
  }

  /** The first line end at or after `from`; the length of the body when there is none. */
  function LineEnd(body: seq<Byte>, from: nat): (end: nat)
    requires from <= |body|
    ensures from <= end <= |body|
    ensures end < |body| ==> end + 2 <= |body| && body[end..end + 2] == CRLF
    decreases |body| - from
  {
    if from + 2 > |body| then |body| else if body[from..from + 2] == CRLF then from else LineEnd(body, from + 1)
  }

  /** What one turn of the loop reads: the last line, a chunk and where the next one starts, or a problem. */
  datatype Reading = Last | More(chunk: seq<Byte>, next: nat) | Bad(problem: Problem)

  function ReadChunk(body: seq<Byte>, offset: nat): (r: Reading)
    requires offset < |body|
    ensures r.More? ==> offset < r.next <= |body|
  {
    var end := LineEnd(body, offset);
    if end == |body| then Bad(InvalidChunks)
    else
      var size, start := SizeOf(body[offset..end]), end + 2;
      if size.None? then Bad(InvalidChunks)
      else if size.value == 0 then Last
      else if start + size.value + 2 > |body| then Bad(IncompleteChunks)
      else if body[start + size.value..start + size.value + 2] != CRLF then Bad(InvalidChunks)
      else More(body[start..start + size.value], start + size.value + 2)
  }

  function DecodeFrom(body: seq<Byte>, offset: nat): Result<seq<Byte>, Problem>
    requires offset <= |body|
    decreases |body| - offset
  {
    if offset == |body| then Err(IncompleteChunks)
    else match ReadChunk(body, offset)
      case Bad(problem) => Err(problem)
      case Last => Ok([])
      case More(chunk, next) =>
        match DecodeFrom(body, next)
        case Err(problem) => Err(problem)
        case Ok(rest) => Ok(chunk + rest)
  }

  function Decode(body: seq<Byte>): Result<seq<Byte>, Problem> {
    DecodeFrom(body, 0)
  }

  /** What has been read, and what the rest of the body decodes to. */
  function Prepend(read: seq<Byte>, rest: Result<seq<Byte>, Problem>): Result<seq<Byte>, Problem> {
    match rest
    case Err(problem) => Err(problem)
    case Ok(data) => Ok(read + data)
  }

  lemma {:induction false} PrependMore(read: seq<Byte>, body: seq<Byte>, offset: nat)
    requires offset < |body|
    ensures match ReadChunk(body, offset)
            case Bad(problem) => Prepend(read, DecodeFrom(body, offset)) == Err(problem)
            case Last => Prepend(read, DecodeFrom(body, offset)) == Ok(read)
            case More(chunk, next) => Prepend(read, DecodeFrom(body, offset)) == Prepend(read + chunk, DecodeFrom(body, next))
  {
    hide ReadChunk;
    var r := ReadChunk(body, offset);
    assert read + [] == read;
    if r.More? {
      var rest := DecodeFrom(body, r.next);
      assert rest.Ok? ==> read + (r.chunk + rest.value) == read + r.chunk + rest.value;
    }
  }

  method DecodeChunkedBody(body: seq<Byte>) returns (r: Result<seq<Byte>, Problem>)
    ensures r == Decode(body)
  {
    hide DecodeFrom, SizeOf, LineEnd, Prepend;
    var offset, chunks: seq<Byte> := 0, [];
    NothingRead(body);
    while offset < |body|
      invariant offset <= |body| && Decode(body) == Prepend(chunks, DecodeFrom(body, offset))
      decreases |body| - offset
    {
      PrependMore(chunks, body, offset);
      var end := LineEnd(body, offset);
      if end == |body| {
        return Err(InvalidChunks);
      }
      var size := SizeOf(body[offset..end]);
      if size.None? {
        return Err(InvalidChunks);
      }
      offset := end + 2;
      if size.value == 0 {
        return Ok(chunks);
      }
      if offset + size.value + 2 > |body| {
        return Err(IncompleteChunks);
      }
      var chunk := body[offset..offset + size.value];
      if body[offset + size.value..offset + size.value + 2] != CRLF {
        return Err(InvalidChunks);
      }
      offset := offset + size.value + 2;
      chunks := chunks + chunk;
    }
    NothingLeft(chunks, body);
    return Err(IncompleteChunks);
  }

  lemma {:induction false} NothingRead(body: seq<Byte>)
    ensures Decode(body) == Prepend([], DecodeFrom(body, 0))
  {
    var all := DecodeFrom(body, 0);
    assert all.Ok? ==> [] + all.value == all.value;
  }

  lemma {:induction false} NothingLeft(read: seq<Byte>, body: seq<Byte>)
    ensures Prepend(read, DecodeFrom(body, |body|)) == Err(IncompleteChunks)
  {
  }

  // ----- the bodies that decode ------------------------------------------------

  /** A chunk: its line, and its data, which may hold anything. */
  datatype Chunk = Chunk(line: seq<Byte>, data: seq<Byte>)

  /** No line end inside the line. */
  predicate OneLine(line: seq<Byte>) {
    forall i | 0 <= i < |line| - 1 :: line[i] != CR || line[i + 1] != LF
  }

  predicate WellSized(c: Chunk) {
    OneLine(c.line) && c.data != [] && SizeOf(c.line) == Some(|c.data|)
  }

  predicate AllWellSized(chunks: seq<Chunk>) {
    forall i | 0 <= i < |chunks| :: WellSized(chunks[i])
  }

  function Framed(chunks: seq<Chunk>): seq<Byte> {
    if chunks == [] then [] else chunks[0].line + CRLF + chunks[0].data + CRLF + Framed(chunks[1..])
  }

  function Data(chunks: seq<Chunk>): seq<Byte> {
    if chunks == [] then [] else chunks[0].data + Data(chunks[1..])
  }

  /** The body is these chunks, a last line of size zero, and whatever trailers follow. */
  ghost predicate IsBody(body: seq<Byte>, chunks: seq<Chunk>, last: seq<Byte>, trailers: seq<Byte>) {
    && AllWellSized(chunks) && OneLine(last) && SizeOf(last) == Some(0)
    && body == Framed(chunks) + (last + CRLF + trailers)
  }

  lemma {:induction false} LineEndIs(body: seq<Byte>, from: nat, line: seq<Byte>)
    requires OneLine(line) && from + |line| + 2 <= |body| && body[from..from + |line| + 2] == line + CRLF
    ensures LineEnd(body, from) == from + |line|
    decreases |line|
  {
    var here := body[from..from + |line| + 2];
    assert here[0] == body[from] && here[1] == body[from + 1];
    if line == [] {
      assert body[from..from + 2] == CRLF;
    } else {
      assert (line + CRLF)[0] == line[0] && (line + CRLF)[1] == if |line| > 1 then line[1] else CR;
      assert body[from..from + 2] != CRLF by {
        assert body[from..from + 2][0] == line[0] && body[from..from + 2][1] == (line + CRLF)[1];
      }
      assert body[from + 1..from + 1 + |line[1..]| + 2] == line[1..] + CRLF by {
        assert here[1..] == line[1..] + CRLF;
        assert here[1..] == body[from + 1..from + |line| + 2];
      }
      LineEndIs(body, from + 1, line[1..]);
    }
  }

  lemma {:induction false} LineBefore(body: seq<Byte>, from: nat)
    requires from <= |body|
    ensures OneLine(body[from..LineEnd(body, from)])
    decreases |body| - from
  {
    var end := LineEnd(body, from);
    if from + 2 <= |body| && body[from..from + 2] != CRLF {
      LineBefore(body, from + 1);
      var line, tail := body[from..end], body[from + 1..end];
      assert body[from..from + 2] == [body[from], body[from + 1]];
      forall i | 0 <= i < |line| - 1 ensures line[i] != CR || line[i + 1] != LF {
        if i > 0 { assert line[i] == tail[i - 1] && line[i + 1] == tail[i]; }
      }
    }
  }

  lemma {:induction false} LineRead(body: seq<Byte>, offset: nat, line: seq<Byte>, rest: seq<Byte>)
    requires offset <= |body| && OneLine(line) && body[offset..] == line + CRLF + rest
    ensures LineEnd(body, offset) == offset + |line| && offset + |line| + 2 <= |body|
    ensures body[offset..offset + |line|] == line && body[offset + |line| + 2..] == rest
  {
    LineEndIs(body, offset, line);
    assert body[offset..offset + |line|] == (line + CRLF)[..|line|];
  }

  lemma {:induction false} ReadsLast(body: seq<Byte>, offset: nat, last: seq<Byte>, trailers: seq<Byte>)
    requires offset <= |body| && OneLine(last) && SizeOf(last) == Some(0) && body[offset..] == last + CRLF + trailers
    ensures offset < |body| && ReadChunk(body, offset) == Last
  {
    hide SizeOf, LineEnd, OneLine;
    LineRead(body, offset, last, trailers);
  }

  lemma {:induction false} ReadsChunk(body: seq<Byte>, offset: nat, c: Chunk, rest: seq<Byte>)
    requires offset <= |body| && WellSized(c) && body[offset..] == c.line + CRLF + (c.data + (CRLF + rest))
    ensures var next := offset + |c.line| + |c.data| + 4;
            offset < next <= |body| && ReadChunk(body, offset) == More(c.data, next) && body[next..] == rest
  {
    hide SizeOf, LineEnd, OneLine;
    LineRead(body, offset, c.line, c.data + (CRLF + rest));
    var start := offset + |c.line| + 2;
  }

  lemma {:induction false} FramedFirst(chunks: seq<Chunk>, tail: seq<Byte>)
    requires chunks != []
    ensures Framed(chunks) + tail == chunks[0].line + CRLF + (chunks[0].data + (CRLF + (Framed(chunks[1..]) + tail)))
  {
  }

  /** Every well-framed body decodes to the data of its chunks. */
  lemma {:induction false} FramedDecodes(body: seq<Byte>, offset: nat, chunks: seq<Chunk>, last: seq<Byte>, trailers: seq<Byte>)
    requires offset <= |body| && AllWellSized(chunks) && OneLine(last) && SizeOf(last) == Some(0)
    requires body[offset..] == Framed(chunks) + (last + CRLF + trailers)
    ensures DecodeFrom(body, offset) == Ok(Data(chunks))
    decreases |chunks|
  {
    hide SizeOf, OneLine, ReadChunk, WellSized, Framed;
    var tail := last + CRLF + trailers;
    if chunks == [] {
      assert Framed(chunks) + tail == tail by { NothingFramed(tail); }
      ReadsLast(body, offset, last, trailers);
    } else {
      FramedFirst(chunks, tail);
      ReadsChunk(body, offset, chunks[0], Framed(chunks[1..]) + tail);
      FramedDecodes(body, ReadChunk(body, offset).next, chunks[1..], last, trailers);
    }
  }

  lemma {:induction false} NothingFramed(tail: seq<Byte>)
    ensures Framed([]) + tail == tail
  {
  }

  lemma {:induction false} ReadMeans(body: seq<Byte>, offset: nat) returns (line: seq<Byte>)
    requires offset < |body| && !ReadChunk(body, offset).Bad?
    ensures OneLine(line)
    ensures ReadChunk(body, offset).Last? ==> SizeOf(line) == Some(0) && line + CRLF <= body[offset..]
    ensures ReadChunk(body, offset).More? ==>
              var r := ReadChunk(body, offset);
              && WellSized(Chunk(line, r.chunk)) && body[offset..] == line + CRLF + (r.chunk + (CRLF + body[r.next..]))
  {
    hide SizeOf, LineEnd, OneLine;
    var end := LineEnd(body, offset);
    line := body[offset..end];
    LineBefore(body, offset);
    assert body[offset..] == line + (CRLF + body[end + 2..]);
  }

  /** Whatever decodes is well framed. */
  lemma {:induction false} DecodedIsFramed(body: seq<Byte>, offset: nat)
    returns (chunks: seq<Chunk>, last: seq<Byte>, trailers: seq<Byte>)
    requires offset <= |body| && DecodeFrom(body, offset).Ok?
    ensures AllWellSized(chunks) && OneLine(last) && SizeOf(last) == Some(0)
    ensures body[offset..] == Framed(chunks) + (last + CRLF + trailers)
    ensures DecodeFrom(body, offset).value == Data(chunks)
    decreases |body| - offset
  {
    hide SizeOf, OneLine, ReadChunk, WellSized, Framed;
    var r := ReadChunk(body, offset);
    var line := ReadMeans(body, offset);
    if r.Last? {
      chunks, last, trailers := [], line, body[offset..][|line| + 2..];
      NothingFramed(last + CRLF + trailers);
    } else {
      var more;
      more, last, trailers := DecodedIsFramed(body, r.next);
      chunks := [Chunk(line, r.chunk)] + more;
      assert chunks[1..] == more;
      FramedFirst(chunks, last + CRLF + trailers);
    }
  }

  /** A body decodes to `data` exactly when it is the framing of chunks whose data, joined, it is. */
  lemma {:induction false} DecodesExactly(body: seq<Byte>, data: seq<Byte>)
    ensures Decode(body) == Ok(data) <==>
            exists chunks, last, trailers :: IsBody(body, chunks, last, trailers) && Data(chunks) == data
  {
    assert body[0..] == body;
    if Decode(body).Ok? {
      var chunks, last, trailers := DecodedIsFramed(body, 0);
      assert IsBody(body, chunks, last, trailers) && Data(chunks) == Decode(body).value;
    }
    if chunks, last, trailers :| IsBody(body, chunks, last, trailers) && Data(chunks) == data {
      FramedDecodes(body, 0, chunks, last, trailers);
    }
  }

  // ----- sizes read back -----------------------------------------------------------

  function HexDigit(n: nat): Byte
    requires n < 16
  {
    if n < 10 then n + '0' as int else n - 10 + 'a' as int
  }

  /** A chunk size as section 7.1 of RFC 9112 writes it. */
  function Hex(n: nat): seq<Byte> {
    if n < 16 then [HexDigit(n)] else Hex(n / 16) + [HexDigit(n % 16)]
  }

  function DigitsOf(n: nat): seq<nat> {
    if n < 16 then [n] else DigitsOf(n / 16) + [n % 16]
  }

  lemma {:induction false} DigitsHaveValue(n: nat)
    ensures ValueOf(DigitsOf(n)) == n && DigitsOf(n) != []
  {
    if n >= 16 {
      DigitsHaveValue(n / 16);
      var d := DigitsOf(n / 16) + [n % 16];
      assert d[..|d| - 1] == DigitsOf(n / 16);
    } else {
      assert [n][..0] == [];
    }
  }

  lemma {:induction false} HexDigitReads(n: nat)
    requires n < 16
    ensures DigitOf((HexDigit(n) % 128) as char) == Some(n)
  {
  }

  lemma {:induction false} HexDigits(n: nat)
    ensures |Hex(n)| == |DigitsOf(n)| > 0
    ensures forall i | 0 <= i < |Hex(n)| :: DigitOf(Ascii(Hex(n))[i]) == Some(DigitsOf(n)[i])
  {
    hide DigitOf, HexDigit;
    HexDigitReads(n % 16);
    if n >= 16 {
      HexDigits(n / 16);
      assert forall i | 0 <= i < |Hex(n / 16)| :: Ascii(Hex(n))[i] == Ascii(Hex(n / 16))[i];
    }
  }

  lemma {:induction false} DigitsRead(s: string, digits: seq<nat>, rest: string)
    requires |s| == |digits| && forall i | 0 <= i < |s| :: DigitOf(s[i]) == Some(digits[i])
    requires rest == "" || DigitOf(rest[0]).None?
    ensures Digits(s + rest) == digits
  {
    if s == "" {
      assert s + rest == rest;
    } else {
      assert (s + rest)[1..] == s[1..] + rest;
      DigitsRead(s[1..], digits[1..], rest);
    }
  }

  lemma {:induction false} DigitIsPlain(c: char)
    requires DigitOf(c).Some?
    ensures c != ';' && !IsSpace(c) && c !in {'+', '-', 'x', 'X'}
  {
  }

  /** Plain digits are read for their value. */
  lemma {:induction false} ParsesDigits(text: string, digits: seq<nat>)
    requires |text| == |digits| > 0 && forall i | 0 <= i < |text| :: DigitOf(text[i]) == Some(digits[i])
    ensures ParseHex(text) == Some(ValueOf(digits))
  {
    hide DigitOf, IsSpace, ValueOf;
    DigitIsPlain(text[0]);
    if |text| > 1 { DigitIsPlain(text[1]); }
    assert TrimStart(text) == text;
    DigitsRead(text, digits, "");
    assert text + "" == text;
  }

  /** A size written in hexadecimal is read back, whatever extension follows it. */
  lemma {:induction false} SizeReadsBack(n: nat, extension: seq<Byte>)
    requires n <= MAX_SAFE_INTEGER && (extension == [] || extension[0] == ';' as int)
    ensures SizeOf(Hex(n) + extension) == Some(n)
  {
    hide ParseHex, DigitOf, Hex, ValueOf;
    var text, digits := Ascii(Hex(n) + extension), Ascii(Hex(n));
    HexDigits(n);
    DigitsHaveValue(n);
    ParsesDigits(digits, DigitsOf(n));
    assert text == digits + Ascii(extension);
    forall i | 0 <= i < |digits| ensures text[i] != ';' { DigitIsPlain(digits[i]); }
    SemicolonAt(text, |digits|);
    assert text[..|digits|] == digits;
  }

  lemma {:induction false} SemicolonAt(text: string, at: nat)
    requires at <= |text| && forall i | 0 <= i < at :: text[i] != ';'
    requires at == |text| || text[at] == ';'
    ensures Texts.IndexOf(text, ';', 0) == at
  {
    var found := Texts.IndexOf(text, ';', 0);
    assert forall i | 0 <= i < found :: text[i] != ';' by {
      assert forall i | 0 <= i < found :: text[i] == text[0..found][i];
    }
  }

  // ----- round trip --------------------------------------------------------------------

  /** Chunks with their sizes in hexadecimal and an extension each. */
  function Encoded(data: seq<seq<Byte>>, extensions: seq<seq<Byte>>): seq<Chunk>
    requires |extensions| == |data|
  {
    seq(|data|, i requires 0 <= i < |data| => Chunk(Hex(|data[i]|) + extensions[i], data[i]))
  }

  function Joined(data: seq<seq<Byte>>): seq<Byte> {
    if data == [] then [] else data[0] + Joined(data[1..])
  }

  predicate IsExtension(extension: seq<Byte>) {
    OneLine(extension) && (extension == [] || extension[0] == ';' as int)
  }

  lemma {:induction false} EncodedData(data: seq<seq<Byte>>, extensions: seq<seq<Byte>>)
    requires |extensions| == |data|
    ensures Data(Encoded(data, extensions)) == Joined(data)
  {
    if data != [] {
      assert Encoded(data, extensions)[1..] == Encoded(data[1..], extensions[1..]);
      EncodedData(data[1..], extensions[1..]);
    }
  }

  lemma {:induction false} HexLine(n: nat, extension: seq<Byte>)
    requires IsExtension(extension)
    ensures OneLine(Hex(n) + extension)
  {
    HexDigits(n);
    assert forall i | 0 <= i < |Hex(n)| :: Hex(n)[i] != CR by {
      forall i | 0 <= i < |Hex(n)| ensures Hex(n)[i] != CR { assert DigitOf(Ascii(Hex(n))[i]).Some?; }
    }
  }

  /**
   For any non-empty chunks, with extensions and trailers, whatever bytes they hold: decoding
   the encoded body gives the chunks joined together.
   */
  lemma {:induction false} RoundTrip(data: seq<seq<Byte>>, extensions: seq<seq<Byte>>, extension: seq<Byte>, trailers: seq<Byte>)
    requires |extensions| == |data| && IsExtension(extension)
    requires forall i | 0 <= i < |data| :: 0 < |data[i]| <= MAX_SAFE_INTEGER && IsExtension(extensions[i])
    ensures Decode(Framed(Encoded(data, extensions)) + (Hex(0) + extension + CRLF + trailers)) == Ok(Joined(data))
  {
    hide SizeOf, OneLine, Hex;
    var chunks, last := Encoded(data, extensions), Hex(0) + extension;
    var body := Framed(chunks) + (last + CRLF + trailers);
    forall i | 0 <= i < |chunks| ensures WellSized(chunks[i]) {
      SizeReadsBack(|data[i]|, extensions[i]);
      HexLine(|data[i]|, extensions[i]);
    }
    SizeReadsBack(0, extension);
    HexLine(0, extension);
    assert body[0..] == body;
    FramedDecodes(body, 0, chunks, last, trailers);
    EncodedData(data, extensions);
  }
}
