/** The decoder for aws-chunked request bodies
    (server/internal/handler/s3gateway.go). */
module AwsChunked {
  import opened Strings
  import opened Tables

  const LF: Byte := 10
  const CR: Byte := 13

  function Min(a: nat, b: nat): nat { if a <= b then a else b }

  // --------------------------------------------------------------- chunk size line

  /** The first index of b in s, or |s|. */
  function Find(s: Bytes, b: Byte): (i: nat)
    ensures i <= |s| && b !in s[..i] && (i < |s| ==> s[i] == b)
  {
    if s == [] then 0
    else if s[0] == b then 0
    else
      var i := 1 + Find(s[1..], b);
      assert s[..i] == [s[0]] + s[1..][..i - 1];
      i
  }

  /** strings.TrimSpace on ASCII white space. */
  predicate IsSpace(b: Byte) { b == 9 || b == 10 || b == 11 || b == 12 || b == 13 || b == 32 }

  function TrimLeft(s: Bytes): Bytes { if s != [] && IsSpace(s[0]) then TrimLeft(s[1..]) else s }

  function TrimRight(s: Bytes): Bytes { if s != [] && IsSpace(s[|s| - 1]) then TrimRight(s[..|s| - 1]) else s }

  function TrimSpace(s: Bytes): Bytes { TrimRight(TrimLeft(s)) }

  predicate AllHex(s: Bytes) { forall i :: 0 <= i < |s| ==> HexDigit(s[i]).Some? }

  function HexValue(s: Bytes): nat
    requires AllHex(s)
  {
    if s == [] then 0 else 16 * HexValue(s[..|s| - 1]) + HexDigit(s[|s| - 1]).value
  }

  /** strconv.ParseInt(s, 16, 64), where None is any error. */
  function ParseInt(s: Bytes): Option<int> {
    if s == [] then None
    else
      var neg := s[0] == 45;
      var digits := if neg || s[0] == 43 then s[1..] else s;
      if digits == [] || !AllHex(digits) then None
      else if neg then (if HexValue(digits) <= MAX_INT64 + 1 then Some(-(HexValue(digits) as int)) else None)
      else if HexValue(digits) <= MAX_INT64 then Some(HexValue(digits)) else None
  }

  /** The size a chunk header announces: what precedes any `;`, trimmed. */
  function ParseSize(line: Bytes): Option<int> { ParseInt(TrimSpace(line[..Find(line, SEMICOLON)])) }

  // ------------------------------------------------------ what a whole stream means

  /** What is left of s after its first line feed. */
  function AfterLine(s: Bytes): Bytes { if Find(s, LF) < |s| then s[Find(s, LF) + 1..] else [] }

  datatype End = Eof | BadSize

  /** The bytes a reader returns until it stops, and why it stops. */
  datatype Reading = Reading(bytes: Bytes, end: End)

  /** Returning `out` first and then what x says. */
  function Then(out: Bytes, x: Reading): Reading { Reading(out + x.bytes, x.end) }

  /** All bytes a reader returns, and how its reading ends, when `rem` bytes of
      the current chunk are outstanding and s is what the source still holds. */
  function Decode(s: Bytes, rem: int): Reading
    decreases |s|
  {
    if rem > 0 then
      if |s| < rem then Reading(s, Eof)
      else Then(s[..rem], Decode(AfterLine(s[rem..]), 0))
    else if Find(s, LF) == |s| then Reading([], Eof)
    else match ParseSize(s[..Find(s, LF) + 1])
      case None => Reading([], BadSize)
      case Some(size) => if size == 0 then Reading([], Eof) else Decode(AfterLine(s), size)
  }

  // ----------------------------------------------------------------- the io.Readers

  datatype Err = Nil | EndOfFile | InvalidSize

  /** A request body: an io.Reader that may return fewer bytes than asked for,
      nothing at all (`idle` more times), and io.EOF with or after the last byte. */
  class Source {
    var data: Bytes
    var idle: nat

    constructor (data: Bytes, idle: nat)
      ensures this.data == data && this.idle == idle
    {
      this.data, this.idle := data, idle;
    }

    method Read(p: array<Byte>, n: nat) returns (k: nat, err: Err)
      requires n <= p.Length
      modifies this, p
      ensures k <= n && k <= |old(data)| && p[..k] == old(data)[..k] && data == old(data)[k..]
      ensures err == Nil || (err == EndOfFile && data == [])
      ensures idle <= old(idle) && (err == Nil && n > 0 && k == 0 ==> idle < old(idle))
    {
      var stutters: bool := *;
      if stutters && idle > 0 {
        idle := idle - 1;
        return 0, Nil;
      }
      var most := Min(n, |data|);
      if most == 0 { k := 0; } else { k :| 1 <= k <= most; }
      forall i | 0 <= i < k { p[i] := data[i]; }
      data := data[k..];
      var ends: bool := *;
      err := if data == [] && (ends || (n > 0 && k == 0)) then EndOfFile else Nil;
    }
  }

  /** readUntil with the delimiter LF: the line including it, or what is left
      of the source and its error. */
  method ReadLine(r: Source) returns (line: Bytes, err: Err)
    modifies r
    ensures var s := old(r.data);
            if Find(s, LF) < |s| then err == Nil && line == s[..Find(s, LF) + 1] && r.data == AfterLine(s)
            else err == EndOfFile && line == s && r.data == []
    ensures r.idle <= old(r.idle)
  {
    line := [];
    var buf := new Byte[1];
    ghost var s := r.data;
    while true
      invariant |line| <= |s| && line == s[..|line|] && r.data == s[|line|..] && LF !in line
      invariant r.idle <= old(r.idle)
      decreases |r.data| + r.idle
    {
      var n, e := r.Read(buf, 1);
      if n > 0 {
        assert buf[..1] == [buf[0]] && buf[0] == s[|line|];
        FirstLF(s, |line|);
        line := line + [buf[0]];
        if buf[0] == LF { return line, Nil; }
      }
      if e != Nil {
        FirstLF(s, |s|);
        return line, e;
      }
    }
  }

  lemma FirstLF(s: Bytes, i: nat)
    requires i <= |s| && LF !in s[..i]
    ensures Find(s, LF) >= i && (i < |s| && s[i] == LF ==> Find(s, LF) == i)
  {
    forall j | 0 <= j < i ensures s[j] != LF { assert s[..i][j] == s[j]; }
    forall j | 0 <= j < Find(s, LF) ensures s[j] != LF { assert s[..Find(s, LF)][j] == s[j]; }
  }

  class ChunkedReader {
    const r: Source
    var rem: int
    var done: bool

    constructor (r: Source)
      ensures this.r == r && rem == 0 && !done
    {
      this.r, rem, done := r, 0, false;
    }

    /** The bytes still to be returned and how reading will end. */
    function Pending(): Reading
      reads this, r
    {
      if done then Reading([], Eof) else Decode(r.data, rem)
    }

    /** The branch of Read that hands over bytes of the current chunk. */
    method ReadData(p: array<Byte>) returns (n: nat, err: Err)
      requires !done && rem > 0
      modifies this, r, p
      ensures n <= p.Length && !done && (err == Nil || err == EndOfFile)
      ensures Decode(old(r.data), old(rem))
              == Then(p[..n], if err == Nil then Decode(r.data, rem) else Reading([], Eof))
      ensures err == Nil && p.Length > 0 ==> |r.data| + r.idle < old(|r.data| + r.idle)
      ensures |r.data| + r.idle <= old(|r.data| + r.idle)
    {
      ghost var s, asked := r.data, rem;
      n, err := r.Read(p, if p.Length > rem then rem else p.Length);
      rem := rem - n;
      SplitChunk(s, asked, n);
      if rem == 0 && err == Nil {
        var _, _ := ReadLine(r);  // the CRLF after the chunk's data
      }
    }

    /** The branch of Read that takes in the next chunk's header. */
    method ReadHeader() returns (err: Err)
      requires !done && rem <= 0
      modifies this, r
      ensures err == Nil ==> Pending() == old(Pending()) && |r.data| < old(|r.data|)
      ensures err != Nil ==> old(Pending()) == Reading([], if err == EndOfFile then Eof else BadSize)
      ensures r.idle <= old(r.idle) && |r.data| <= old(|r.data|)
    {
      var line, e := ReadLine(r);
      if e != Nil { return e; }
      // The line ends in LF, so the handler's own removal of a final CR never
      // applies; TrimSpace in ParseSize is what drops the CRLF.
      var size := ParseSize(line);
      if size.None? { return InvalidSize; }
      if size.value == 0 {
        var _, _ := ReadLine(r);  // the first trailer line, or the empty line
        var _, _ := ReadLine(r);
        done := true;
        return EndOfFile;
      }
      rem := size.value;
      return Nil;
    }

    /** One Read hands over the next bytes of Pending, however few the source
        yields; it ends with an error only when Pending is exhausted. */
    method Read(p: array<Byte>) returns (n: nat, err: Err)
      modifies this, r, p
      ensures n <= p.Length
      ensures old(Pending())
              == Then(p[..n], if err == Nil then Pending() else Reading([], if err == EndOfFile then Eof else BadSize))
      ensures err == Nil && p.Length > 0 ==> |r.data| + r.idle < old(|r.data| + r.idle)
      ensures |r.data| + r.idle <= old(|r.data| + r.idle)
      decreases |r.data| + r.idle
    {
      assert p[..0] == [];
      NilThen(Reading([], Eof));
      NilThen(Reading([], BadSize));
      if done { return 0, EndOfFile; }
      if rem > 0 {
        n, err := ReadData(p);
        return;
      }
      var e := ReadHeader();
      if e != Nil { return 0, e; }
      n, err := Read(p);
    }
  }

  /** Reading k of the outstanding bytes leaves the rest of the stream's meaning. */
  lemma SplitChunk(s: Bytes, rem: int, k: nat)
    requires 0 < rem && k <= rem && k <= |s|
    ensures Decode(s, rem) == Then(s[..k], if k < rem then Decode(s[k..], rem - k) else Decode(AfterLine(s[k..]), 0))
    ensures k == |s| ==> Decode(s, rem) == Then(s[..k], Reading([], Eof))
  {
    if |s| < rem {
      assert s == s[..k] + s[k..];
    } else {
      assert s[k..][..rem - k] == s[k..rem] && s[k..][rem - k..] == s[rem..];
      assert s[..rem] == s[..k] + s[k..rem];
      ThenThen(s[..k], s[k..rem], Decode(AfterLine(s[rem..]), 0));
      if k == |s| { assert AfterLine(s[rem..]) == []; }
    }
  }

  lemma NilThen(x: Reading)
    ensures Then([], x) == x
  {
    assert [] + x.bytes == x.bytes;
  }

  lemma ThenThen(a: Bytes, b: Bytes, x: Reading)
    ensures Then(a, Then(b, x)) == Then(a + b, x)
  {
    assert a + (b + x.bytes) == (a + b) + x.bytes;
  }

  lemma ThenNothing(a: Bytes, end: End)
    ensures Then(a, Reading([], end)) == Reading(a, end)
  {
    assert a + [] == a;
  }

  /** io.Copy over the reader, with whatever buffer sizes: reading ends, and
      what it collects is exactly Pending. */
  method CopyAll(a: ChunkedReader) returns (out: Bytes, end: End)
    modifies a, a.r
    ensures Reading(out, end) == old(a.Pending())
  {
    out := [];
    ghost var all := a.Pending();
    NilThen(all);
    while true
      invariant all == Then(out, a.Pending())
      decreases |a.r.data| + a.r.idle
    {
      ghost var was := out;
      var more, err := CopySome(a);
      out := out + more;
      if err != Nil {
        end := if err == EndOfFile then Eof else BadSize;
        ThenThen(was, more, Reading([], end));
        ThenNothing(out, end);
        return;
      }
      ThenThen(was, more, a.Pending());
    }
  }

  /** One Read with a buffer of some size. */
  method CopySome(a: ChunkedReader) returns (more: Bytes, err: Err)
    modifies a, a.r
    ensures old(a.Pending())
            == Then(more, if err == Nil then a.Pending() else Reading([], if err == EndOfFile then Eof else BadSize))
    ensures err == Nil ==> |a.r.data| + a.r.idle < old(|a.r.data| + a.r.idle)
  {
    var size: nat :| size > 0;
    var p := new Byte[size];
    var n;
    n, err := a.Read(p);
    more := p[..n];
  }

  // ------------------------------------------------------------------- the framing

  /** One chunk: its size in hex as the client spells it, an extension (empty,
      or `;` and anything without a line feed), its data. */
  datatype Chunk = Chunk(size: Bytes, extension: Bytes, data: Bytes)

  ghost predicate Header(size: Bytes, extension: Bytes, n: nat) {
    && size != [] && AllHex(size) && HexValue(size) == n <= MAX_INT64
    && (extension == [] || extension[0] == SEMICOLON) && LF !in extension
  }

  ghost predicate ValidChunk(c: Chunk) { c.data != [] && Header(c.size, c.extension, |c.data|) }

  function HeaderLine(size: Bytes, extension: Bytes): Bytes { size + extension + [CR, LF] }

  function Frame(c: Chunk): Bytes { HeaderLine(c.size, c.extension) + c.data + [CR, LF] }

  /** The chunks, then whatever follows them. */
  function Frames(cs: seq<Chunk>, tail: Bytes): Bytes {
    if cs == [] then tail else Frame(cs[0]) + Frames(cs[1..], tail)
  }

  function Payload(cs: seq<Chunk>): Bytes {
    if cs == [] then [] else cs[0].data + Payload(cs[1..])
  }

  ghost predicate ValidChunks(cs: seq<Chunk>) { forall i :: 0 <= i < |cs| ==> ValidChunk(cs[i]) }

  /** A whole body: the chunks, a zero chunk, and any trailers at all. */
  ghost predicate Encodes(body: Bytes, cs: seq<Chunk>) {
    exists last, ext, trailer :: Header(last, ext, 0) && ValidChunks(cs)
                                 && body == Frames(cs, HeaderLine(last, ext) + trailer)
  }

  lemma NotSpaceNorMark(b: Byte)
    requires HexDigit(b).Some?
    ensures !IsSpace(b) && b != SEMICOLON && b != LF && b != 43 && b != 45
  {
  }

  lemma TrimKeeps(s: Bytes, pad: Bytes)
    requires s != [] && !IsSpace(s[0]) && !IsSpace(s[|s| - 1])
    requires forall i :: 0 <= i < |pad| ==> IsSpace(pad[i])
    ensures TrimSpace(s + pad) == s
  {
    assert TrimLeft(s + pad) == s + pad;
    if pad == [] {
      assert s + pad == s;
    } else {
      assert (s + pad)[..|s + pad| - 1] == s + pad[..|pad| - 1];
      assert TrimLeft(s + pad[..|pad| - 1]) == s + pad[..|pad| - 1];
      TrimKeeps(s, pad[..|pad| - 1]);
    }
  }

  lemma FindAt(s: Bytes, b: Byte, i: nat)
    requires i < |s| && s[i] == b && forall j :: 0 <= j < i ==> s[j] != b
    ensures Find(s, b) == i
  {
    forall j | 0 <= j < Find(s, b) ensures s[j] != b { assert s[..Find(s, b)][j] == s[j]; }
  }

  lemma FindNone(s: Bytes, b: Byte)
    requires b !in s
    ensures Find(s, b) == |s|
  {
  }

  lemma HeaderSize(size: Bytes, extension: Bytes)
    requires size != [] && AllHex(size) && (extension == [] || extension[0] == SEMICOLON)
    ensures TrimSpace(HeaderLine(size, extension)[..Find(HeaderLine(size, extension), SEMICOLON)]) == size
  {
    var line := HeaderLine(size, extension);
    forall i | 0 <= i < |size| ensures size[i] != SEMICOLON && !IsSpace(size[i]) { NotSpaceNorMark(size[i]); }
    if extension == [] {
      assert line == size + [CR, LF] == line[..|line|];
      FindNone(line, SEMICOLON);
      TrimKeeps(size, [CR, LF]);
    } else {
      FindAt(line, SEMICOLON, |size|);
      assert line[..|size|] == size + [];
      TrimKeeps(size, []);
    }
  }

  /** A header line is recognised as one line announcing its size. */
  lemma HeaderParses(size: Bytes, extension: Bytes, n: nat, rest: Bytes)
    requires Header(size, extension, n)
    ensures var line := HeaderLine(size, extension);
            var s := line + rest;
            && Find(s, LF) == |line| - 1 && s[..Find(s, LF) + 1] == line && AfterLine(s) == rest
            && ParseSize(line) == Some(n)
  {
    var line := HeaderLine(size, extension);
    forall i | 0 <= i < |size| ensures size[i] != LF && size[i] != SEMICOLON && !IsSpace(size[i]) {
      NotSpaceNorMark(size[i]);
    }
    forall j | 0 <= j < |line| - 1 ensures (line + rest)[j] != LF {
      if |size| <= j < |size| + |extension| { assert line[j] == extension[j - |size|]; }
    }
    FindAt(line + rest, LF, |line| - 1);
    NotSpaceNorMark(size[0]);
    HeaderSize(size, extension);
  }

  /** After whole chunks reading goes on with whatever follows them. */
  lemma {:induction false} DecodeFramesThen(cs: seq<Chunk>, tail: Bytes)
    requires ValidChunks(cs)
    ensures Decode(Frames(cs, tail), 0) == Then(Payload(cs), Decode(tail, 0))
  {
    if cs == [] {
      NilThen(Decode(tail, 0));
    } else {
      var c, more := cs[0], Frames(cs[1..], tail);
      DecodeFramesThen(cs[1..], tail);
      assert Frames(cs, tail) == HeaderLine(c.size, c.extension) + (c.data + ([CR, LF] + more));
      HeaderParses(c.size, c.extension, |c.data|, c.data + ([CR, LF] + more));
      DecodeData(c.data, [CR, LF] + more);
      AfterCRLF(more);
      ThenThen(c.data, Payload(cs[1..]), Decode(tail, 0));
    }
  }

  /** Decoding a whole body gives back the chunks' data and stops cleanly,
      whatever the size spellings, extensions and trailers. */
  lemma DecodeFrames(cs: seq<Chunk>, last: Bytes, ext: Bytes, trailer: Bytes)
    requires ValidChunks(cs) && Header(last, ext, 0)
    ensures Decode(Frames(cs, HeaderLine(last, ext) + trailer), 0) == Reading(Payload(cs), Eof)
  {
    DecodeFramesThen(cs, HeaderLine(last, ext) + trailer);
    HeaderParses(last, ext, 0, trailer);
    ThenNothing(Payload(cs), Eof);
  }

  lemma DecodeData(data: Bytes, rest: Bytes)
    requires data != []
    ensures Decode(data + rest, |data|) == Then(data, Decode(AfterLine(rest), 0))
  {
    assert (data + rest)[..|data|] == data && (data + rest)[|data|..] == rest;
  }

  lemma AfterCRLF(more: Bytes)
    ensures AfterLine([CR, LF] + more) == more
  {
    FindAt([CR, LF] + more, LF, 1);
  }

  // ----------------------------------------------------------- any header line at all

  ghost predicate AllBlank(s: Bytes) { forall i :: 0 <= i < |s| ==> 9 <= s[i] <= 13 || s[i] == 32 }

  /** The line is white space, a number in hexadecimal digits with or without a
      sign, white space, and perhaps a semicolon with anything behind it. */
  ghost predicate SpellsSize(line: Bytes, before: Bytes, sign: string, digits: Bytes, after: Bytes, rest: Bytes, n: int)
  {
    && AllBlank(before) && AllBlank(after) && digits != [] && AllHex(digits)
    && (rest == [] || rest[0] as char == ';')
    && line == before + SignBytes(sign) + digits + after + rest
    && n == if sign == "-" then -(HexValue(digits) as int) else HexValue(digits)
  }

  ghost function SignBytes(sign: string): Bytes { if sign == "-" then [45] else if sign == "+" then [43] else [] }

  /** The line announces n bytes, an int64. */
  ghost predicate Announces(line: Bytes, n: int) {
    && -0x8000_0000_0000_0000 <= n < 0x8000_0000_0000_0000
    && exists before, sign, digits, after, rest :: SpellsSize(line, before, sign, digits, after, rest, n)
  }

  lemma {:induction false} TrimLeftIs(s: Bytes) returns (before: Bytes)
    ensures s == before + TrimLeft(s) && AllBlank(before) && (TrimLeft(s) != [] ==> !IsSpace(TrimLeft(s)[0]))
  {
    if s != [] && IsSpace(s[0]) {
      var more := TrimLeftIs(s[1..]);
      before := [s[0]] + more;
      assert s == [s[0]] + s[1..];
    } else {
      before := [];
    }
  }

  lemma {:induction false} TrimRightIs(s: Bytes) returns (after: Bytes)
    ensures s == TrimRight(s) + after && AllBlank(after)
  {
    if s != [] && IsSpace(s[|s| - 1]) {
      var more := TrimRightIs(s[..|s| - 1]);
      after := more + [s[|s| - 1]];
      assert s == s[..|s| - 1] + [s[|s| - 1]];
    } else {
      after := [];
    }
  }

  lemma {:induction false} TrimLeftStrips(before: Bytes, s: Bytes)
    requires AllBlank(before) && s != [] && !IsSpace(s[0])
    ensures TrimLeft(before + s) == s
  {
    if before == [] {
      assert before + s == s;
    } else {
      TrimLeftStrips(before[1..], s);
      assert (before + s)[0] == before[0] && (before + s)[1..] == before[1..] + s;
    }
  }

  lemma TrimSpaceIs(before: Bytes, s: Bytes, after: Bytes)
    requires AllBlank(before) && AllBlank(after) && s != [] && !IsSpace(s[0]) && !IsSpace(s[|s| - 1])
    ensures TrimSpace(before + s + after) == s
  {
    assert before + s + after == before + (s + after) && (s + after)[0] == s[0];
    TrimLeftStrips(before, s + after);
    TrimKeeps(s, after);
    assert TrimLeft(s + after) == s + after;
  }

  lemma ParseSizeSpells(line: Bytes, n: int)
    requires ParseSize(line) == Some(n)
    ensures Announces(line, n)
  {
    var i := Find(line, SEMICOLON);
    var before, after := TrimSpaceSplits(line[..i]);
    var sign, digits := SignedDigits(TrimSpace(line[..i]), n);
    assert line == line[..i] + line[i..];
    PartsAppend(line, before, SignBytes(sign), digits, after, line[i..]);
    assert SpellsSize(line, before, sign, digits, after, line[i..], n);
  }

  lemma TrimSpaceSplits(s: Bytes) returns (before: Bytes, after: Bytes)
    ensures AllBlank(before) && AllBlank(after) && s == before + (TrimSpace(s) + after)
  {
    before := TrimLeftIs(s);
    after := TrimRightIs(TrimLeft(s));
  }

  lemma PartsAppend(line: Bytes, before: Bytes, sign: Bytes, digits: Bytes, after: Bytes, rest: Bytes)
    requires line == before + ((sign + digits) + after) + rest
    ensures line == before + sign + digits + after + rest
  {
    assert before + ((sign + digits) + after) == before + sign + digits + after;
  }

  lemma SignedDigits(t: Bytes, n: int) returns (sign: string, digits: Bytes)
    requires ParseInt(t) == Some(n)
    ensures digits != [] && AllHex(digits) && t == SignBytes(sign) + digits
    ensures n == if sign == "-" then -(HexValue(digits) as int) else HexValue(digits)
    ensures -0x8000_0000_0000_0000 <= n < 0x8000_0000_0000_0000
  {
    sign := if t[0] == 45 then "-" else if t[0] == 43 then "+" else "";
    digits := if sign == "" then t else t[1..];
  }

  lemma SignedParses(sign: string, digits: Bytes, n: int)
    requires digits != [] && AllHex(digits) && -0x8000_0000_0000_0000 <= n < 0x8000_0000_0000_0000
    requires n == if sign == "-" then -(HexValue(digits) as int) else HexValue(digits)
    ensures var t := SignBytes(sign) + digits;
            t != [] && ParseInt(t) == Some(n) && !IsSpace(t[0]) && !IsSpace(t[|t| - 1])
    ensures forall i :: 0 <= i < |SignBytes(sign) + digits| ==> (SignBytes(sign) + digits)[i] != SEMICOLON
  {
    forall i | 0 <= i < |digits|
      ensures !IsSpace(digits[i]) && digits[i] != SEMICOLON && digits[i] != 43 && digits[i] != 45
    {
      NotSpaceNorMark(digits[i]);
    }
    var t := SignBytes(sign) + digits;
    assert digits == if SignBytes(sign) == [] then t else t[1..];
  }

  lemma SpelledParses(line: Bytes, before: Bytes, sign: string, digits: Bytes, after: Bytes, rest: Bytes, n: int)
    requires SpellsSize(line, before, sign, digits, after, rest, n)
    requires -0x8000_0000_0000_0000 <= n < 0x8000_0000_0000_0000
    ensures ParseSize(line) == Some(n)
  {
    var t := SignBytes(sign) + digits;
    SignedParses(sign, digits, n);
    assert line == before + t + after + rest;
    HeadIs(line, before, t, after, rest);
    TrimSpaceIs(before, t, after);
  }

  lemma HeadIs(line: Bytes, before: Bytes, t: Bytes, after: Bytes, rest: Bytes)
    requires AllBlank(before) && AllBlank(after) && (forall i :: 0 <= i < |t| ==> t[i] != SEMICOLON)
    requires line == before + t + after + rest && (rest == [] || rest[0] == SEMICOLON)
    ensures line[..Find(line, SEMICOLON)] == before + t + after
  {
    var head := before + t + after;
    assert forall i :: 0 <= i < |head| ==> head[i] != SEMICOLON && line[i] == head[i];
    if rest == [] { FindNone(line, SEMICOLON); } else { FindAt(line, SEMICOLON, |head|); }
    assert line[..|head|] == head;
  }

  /** A header is read as a size exactly when it spells one. */
  lemma ParseSizeIff(line: Bytes, n: int)
    ensures ParseSize(line) == Some(n) <==> Announces(line, n)
  {
    if ParseSize(line) == Some(n) { ParseSizeSpells(line, n); }
    if Announces(line, n) {
      var before, sign, digits, after, rest :| SpellsSize(line, before, sign, digits, after, rest, n);
      SpelledParses(line, before, sign, digits, after, rest, n);
    }
  }

  lemma LineIsRead(line: Bytes, rest: Bytes)
    requires LF !in line
    ensures var s := line + [LF] + rest; Find(s, LF) == |line| && s[..|line| + 1] == line + [LF] && AfterLine(s) == rest
  {
    FindAt(line + [LF] + rest, LF, |line|);
  }

  /** What any line at the place of a header does to the reading. One that is no
      size ends it with an error, zero ends it cleanly, a negative size is passed
      over, and a positive one has that many bytes follow. */
  lemma HeaderDecides(cs: seq<Chunk>, line: Bytes, rest: Bytes)
    requires ValidChunks(cs) && LF !in line
    ensures var r := Decode(Frames(cs, line + [LF] + rest), 0);
            && ((forall n :: !Announces(line + [LF], n)) ==> r == Reading(Payload(cs), BadSize))
            && (Announces(line + [LF], 0) ==> r == Reading(Payload(cs), Eof))
            && (forall n :: Announces(line + [LF], n) && n < 0 ==> r == Then(Payload(cs), Decode(rest, 0)))
            && (forall n :: Announces(line + [LF], n) && n > 0 ==> r == Then(Payload(cs), Decode(rest, n)))
  {
    DecodeFramesThen(cs, line + [LF] + rest);
    LineIsRead(line, rest);
    forall n ensures ParseSize(line + [LF]) == Some(n) <==> Announces(line + [LF], n) { ParseSizeIff(line + [LF], n); }
    ThenNothing(Payload(cs), Eof);
    ThenNothing(Payload(cs), BadSize);
    forall n | n < 0 ensures Decode(rest, n) == Decode(rest, 0) {}
  }

  /** A body with such a line ends in the error for every reader, after the
      payload before it. */
  method ReadBadBody(body: Bytes, idle: nat, ghost cs: seq<Chunk>, ghost line: Bytes, ghost rest: Bytes)
    returns (out: Bytes, end: End)
    requires ValidChunks(cs) && LF !in line && body == Frames(cs, line + [LF] + rest)
    requires forall n :: !Announces(line + [LF], n)
    ensures out == Payload(cs) && end == BadSize
  {
    var source := new Source(body, idle);
    var reader := new ChunkedReader(source);
    HeaderDecides(cs, line, rest);
    out, end := CopyAll(reader);
  }

  ghost function Pow16(n: nat): nat { if n == 0 then 1 else 16 * Pow16(n - 1) }

  lemma Times16(v: int, p: int)
    ensures v * (16 * p) == 16 * (v * p)
  {
  }

  lemma LastDigit(s: Bytes, last: Byte)
    requires AllHex(s) && HexDigit(last).Some?
    ensures AllHex(s + [last]) && HexValue(s + [last]) == 16 * HexValue(s) + HexDigit(last).value
  {
    assert (s + [last])[..|s|] == s;
  }

  lemma OneDigit(d: Byte)
    requires HexDigit(d).Some?
    ensures AllHex([d]) && HexValue([d]) == HexDigit(d).value
  {
    assert [] + [d] == [d];
    LastDigit([], d);
  }

  /** The first digit is the most significant. */
  lemma {:induction false} HexValueIs(d: Byte, s: Bytes)
    requires HexDigit(d).Some? && AllHex(s)
    ensures AllHex([d] + s) && HexValue([d] + s) == HexDigit(d).value * Pow16(|s|) + HexValue(s)
    decreases |s|
  {
    if s == [] {
      OneDigit(d);
      assert [d] + s == [d];
    } else {
      var init, last := s[..|s| - 1], s[|s| - 1];
      HexValueIs(d, init);
      LastDigit(init, last);
      LastDigit([d] + init, last);
      assert s == init + [last] && [d] + s == [d] + init + [last];
      Times16(HexDigit(d).value, Pow16(|init|));
    }
  }

  lemma BodyDecodes(body: Bytes, cs: seq<Chunk>)
    requires Encodes(body, cs)
    ensures Decode(body, 0) == Reading(Payload(cs), Eof)
  {
    var last, ext, trailer :|
        Header(last, ext, 0) && ValidChunks(cs) && body == Frames(cs, HeaderLine(last, ext) + trailer);
    DecodeFrames(cs, last, ext, trailer);
  }

  /** End to end: for every chunk sequence, spelling, extension, trailer, buffer
      size and short-read schedule, the reader delivers exactly the payload. */
  method ReadBody(body: Bytes, idle: nat, ghost cs: seq<Chunk>) returns (out: Bytes, end: End)
    requires Encodes(body, cs)
    ensures out == Payload(cs) && end == Eof
  {
    var source := new Source(body, idle);
    var reader := new ChunkedReader(source);
    BodyDecodes(body, cs);
    out, end := CopyAll(reader);
  }

  // ---------------------------------------------------------------- a cut-off body

  /** How many bytes of the body it takes to see all the data of its chunks. */
  function DataEnd(cs: seq<Chunk>): nat {
    if cs == [] then 0
    else if |cs| == 1 then |HeaderLine(cs[0].size, cs[0].extension)| + |cs[0].data|
    else |Frame(cs[0])| + DataEnd(cs[1..])
  }

  ghost predicate IsPrefix(a: Bytes, b: Bytes) { |a| <= |b| && a == b[..|a|] }

  /** Reading the first k bytes of the body yields a prefix of the payload and
      a clean end, and the whole payload exactly when no chunk data is missing. */
  ghost predicate CutsCleanly(cs: seq<Chunk>, body: Bytes, k: nat)
    requires k <= |body|
  {
    var r := Decode(body[..k], 0);
    r.end == Eof && IsPrefix(r.bytes, Payload(cs)) && (r.bytes == Payload(cs) <==> k >= DataEnd(cs))
  }

  /** A body cut off anywhere is never reported as an error. */
  lemma {:induction false} CutBodyReadsCleanly(cs: seq<Chunk>, last: Bytes, ext: Bytes, trailer: Bytes, k: nat)
    requires ValidChunks(cs) && Header(last, ext, 0)
    requires k <= |Frames(cs, HeaderLine(last, ext) + trailer)|
    ensures CutsCleanly(cs, Frames(cs, HeaderLine(last, ext) + trailer), k)
    decreases |cs|
  {
    var tail := HeaderLine(last, ext) + trailer;
    if cs == [] {
      CutHeader(last, ext, 0, trailer, k);
    } else {
      var n := |HeaderLine(cs[0].size, cs[0].extension)| + |cs[0].data|;
      if k >= n { CutBodyReadsCleanly(cs[1..], last, ext, trailer, if k < n + 2 then 0 else k - n - 2); }
      CutStep(cs, Frames(cs[1..], tail), k);
    }
  }

  lemma CutStep(cs: seq<Chunk>, more: Bytes, k: nat)
    requires cs != [] && ValidChunks(cs) && k <= |Frame(cs[0]) + more|
    requires var n := |HeaderLine(cs[0].size, cs[0].extension)| + |cs[0].data|;
             k >= n ==> CutsCleanly(cs[1..], more, if k < n + 2 then 0 else k - n - 2)
    ensures CutsCleanly(cs, Frame(cs[0]) + more, k)
  {
    var c, rest := cs[0], cs[1..];
    var h := |HeaderLine(c.size, c.extension)|;
    var n := h + |c.data|;
    if k < h { CutEarly(c, more, k); } else { CutLate(c, more, k); }
    PayloadPositive(cs);
    PayloadPositive(rest);
    if k >= n {
      PrefixThen(c.data, Decode(more[..if k < n + 2 then 0 else k - n - 2], 0).bytes, Payload(rest));
    } else if k >= h {
      assert c.data[..k - h] == Payload(cs)[..k - h];
    }
  }

  lemma PrefixThen(data: Bytes, x: Bytes, rest: Bytes)
    requires IsPrefix(x, rest)
    ensures IsPrefix(data + x, data + rest) && (data + x == data + rest <==> x == rest)
  {
    assert (data + rest)[..|data + x|] == data + rest[..|x|];
    if data + x == data + rest { assert (data + x)[|data|..] == x && (data + rest)[|data|..] == rest; }
  }

  /** A cut within the first chunk's header shows nothing of it. */
  lemma CutEarly(c: Chunk, more: Bytes, k: nat)
    requires ValidChunk(c) && k < |HeaderLine(c.size, c.extension)|
    ensures Decode((Frame(c) + more)[..k], 0) == Reading([], Eof)
  {
    var line, rest := HeaderLine(c.size, c.extension), c.data + ([CR, LF] + more);
    assert Frame(c) + more == line + rest;
    CutHeader(c.size, c.extension, |c.data|, rest, k);
  }

  /** A later cut shows the data up to it, or all of the chunk and what follows. */
  lemma CutLate(c: Chunk, more: Bytes, k: nat)
    requires ValidChunk(c) && |HeaderLine(c.size, c.extension)| <= k <= |Frame(c) + more|
    ensures var h := |HeaderLine(c.size, c.extension)|;
            var n := h + |c.data|;
            Decode((Frame(c) + more)[..k], 0)
            == if k < n then Reading(c.data[..k - h], Eof)
               else Then(c.data, Decode(more[..if k < n + 2 then 0 else k - n - 2], 0))
  {
    var line, rest := HeaderLine(c.size, c.extension), c.data + ([CR, LF] + more);
    assert Frame(c) + more == line + rest;
    CutHeader(c.size, c.extension, |c.data|, rest, k);
    CutData(c.data, more, k - |line|);
  }

  lemma CutData(data: Bytes, more: Bytes, m: nat)
    requires data != [] && m <= |data| + 2 + |more|
    ensures Decode((data + ([CR, LF] + more))[..m], |data|)
         == if m < |data| then Reading(data[..m], Eof)
            else Then(data, Decode(more[..if m < |data| + 2 then 0 else m - |data| - 2], 0))
  {
    var rest := data + ([CR, LF] + more);
    if m < |data| {
      assert rest[..m] == data[..m];
    } else {
      assert rest[..m] == data + ([CR, LF] + more)[..m - |data|];
      DecodeData(data, ([CR, LF] + more)[..m - |data|]);
      CutCRLF(more, m - |data|);
      assert more[..0] == [];
    }
  }

  /** A header cut before its line feed reads as a clean end. */
  lemma CutHeader(size: Bytes, extension: Bytes, n: nat, rest: Bytes, k: nat)
    requires Header(size, extension, n) && k <= |HeaderLine(size, extension) + rest|
    ensures var line := HeaderLine(size, extension);
            var s := (line + rest)[..k];
            && (k < |line| ==> Decode(s, 0) == Reading([], Eof))
            && (k >= |line| ==> Decode(s, 0) == if n == 0 then Reading([], Eof) else Decode(rest[..k - |line|], n))
  {
    var line := HeaderLine(size, extension);
    HeaderParses(size, extension, n, rest);
    if k < |line| {
      forall i | 0 <= i < k ensures (line + rest)[..k][i] != LF {
        assert (line + rest)[..Find(line + rest, LF)][i] != LF;
      }
      FindNone((line + rest)[..k], LF);
    } else {
      assert (line + rest)[..k] == line + rest[..k - |line|];
      HeaderParses(size, extension, n, rest[..k - |line|]);
    }
  }

  lemma CutCRLF(more: Bytes, m: nat)
    requires m <= 2 + |more|
    ensures AfterLine(([CR, LF] + more)[..m]) == if m < 2 then [] else more[..m - 2]
  {
    if m < 2 {
      FindNone(([CR, LF] + more)[..m], LF);
    } else {
      assert ([CR, LF] + more)[..m] == [CR, LF] + more[..m - 2];
      AfterCRLF(more[..m - 2]);
    }
  }

  lemma PayloadPositive(cs: seq<Chunk>)
    requires ValidChunks(cs)
    ensures cs != [] ==> Payload(cs) != [] && DataEnd(cs) > 0
  {
    if cs != [] { assert ValidChunk(cs[0]); }
  }

  // ------------------------------------------------------------------- an encoder

  function HexText(n: nat): (s: Bytes)
    ensures s != [] && AllHex(s) && HexValue(s) == n
  {
    var d: Byte := if n % 16 < 10 then 48 + n % 16 else 87 + n % 16;
    if n < 16 then
      assert HexValue([d][..0]) == 0;
      [d]
    else
      var s := HexText(n / 16) + [d];
      assert s[..|s| - 1] == HexText(n / 16);
      s
  }

  function ChunksOf(parts: seq<Bytes>): (cs: seq<Chunk>)
    ensures |cs| == |parts| && forall i :: 0 <= i < |cs| ==> cs[i] == Chunk(HexText(|parts[i]|), [], parts[i])
  {
    seq(|parts|, i requires 0 <= i < |parts| => Chunk(HexText(|parts[i]|), [], parts[i]))
  }

  /** The plain framing: lower-case sizes, no extensions, an empty trailer. */
  function Encode(parts: seq<Bytes>): Bytes {
    Frames(ChunksOf(parts), HeaderLine(HexText(0), []) + [CR, LF])
  }

  function Join(parts: seq<Bytes>): Bytes { if parts == [] then [] else parts[0] + Join(parts[1..]) }

  lemma {:induction false} PayloadOfChunks(parts: seq<Bytes>)
    ensures Payload(ChunksOf(parts)) == Join(parts)
  {
    if parts != [] {
      assert ChunksOf(parts)[1..] == ChunksOf(parts[1..]);
      PayloadOfChunks(parts[1..]);
    }
  }

  /** Decoding is the inverse of encoding. */
  lemma DecodeEncode(parts: seq<Bytes>)
    requires forall i :: 0 <= i < |parts| ==> 0 < |parts[i]| <= MAX_INT64
    ensures Decode(Encode(parts), 0) == Reading(Join(parts), Eof)
  {
    PayloadOfChunks(parts);
    DecodeFrames(ChunksOf(parts), HexText(0), [], [CR, LF]);
  }
}
