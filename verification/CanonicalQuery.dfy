/** The canonical query string of an AWS Signature Version 4 request
    (server/internal/s3/auth.go), over bytes. */
module CanonicalQuery {
  import opened Strings
  import opened Tables
  import opened ByteOrder

  const AMP: Byte := 38
  const EQ: Byte := 61
  const PLUS: Byte := 43
  const PERCENT: Byte := 37
  const SPACE: Byte := 32

  datatype Pair = Pair(key: Bytes, value: Bytes)

  // ------------------------------------------------------------- percent-encoding

  predicate IsUnreserved(c: Byte) {
    65 <= c <= 90 || 97 <= c <= 122 || 48 <= c <= 57 || c in {45, 46, 95, 126}
  }

  function UpperHex(n: Byte): (c: Byte)
    requires n < 16
    ensures IsUnreserved(c)
  {
    if n < 10 then 48 + n else 55 + n
  }

  /** One byte, written as it is or as %XX. */
  function EncodeByte(c: Byte, plain: bool): Bytes {
    if plain then [c] else [PERCENT, UpperHex(c / 16), UpperHex(c % 16)]
  }

  /** awsURIEncode. */
  function Encode(s: Bytes, encodeSlash: bool): Bytes {
    if s == [] then []
    else Encode(s[..|s| - 1], encodeSlash)
         + EncodeByte(s[|s| - 1], IsUnreserved(s[|s| - 1]) || (s[|s| - 1] == SLASH && !encodeSlash))
  }

  /** url.QueryEscape: a space is written +. */
  function Escape(s: Bytes): Bytes {
    if s == [] then []
    else Escape(s[..|s| - 1]) + if s[|s| - 1] == SPACE then [PLUS] else EncodeByte(s[|s| - 1], IsUnreserved(s[|s| - 1]))
  }

  function Prepend(s: Bytes, o: Option<Bytes>): Option<Bytes> { if o.None? then None else Some(s + o.value) }

  /** url.QueryUnescape; None is an error. */
  function Unescape(s: Bytes): Option<Bytes> {
    if s == [] then Some([])
    else if s[0] == PERCENT then
      if |s| < 3 || HexDigit(s[1]).None? || HexDigit(s[2]).None? then None
      else Prepend([HexDigit(s[1]).value * 16 + HexDigit(s[2]).value], Unescape(s[3..]))
    else Prepend([if s[0] == PLUS then SPACE else s[0]], Unescape(s[1..]))
  }

  // ----------------------------------------------- the text of an encoding, byte by byte

  /** A letter, a digit, or one of - . _ ~ */
  ghost predicate PlainChar(c: char) {
    'A' <= c <= 'Z' || 'a' <= c <= 'z' || '0' <= c <= '9' || c == '-' || c == '.' || c == '_' || c == '~'
  }

  /** A digit of an escape, as it is written: 0 to 9 or A to F. */
  ghost predicate EscapeDigit(c: char) { '0' <= c <= '9' || 'A' <= c <= 'F' }

  ghost function DigitValue(c: char): int { if c <= '9' then c as int - '0' as int else c as int - 'A' as int + 10 }

  ghost function CharAt(s: Bytes, i: int): char
    requires 0 <= i < |s|
  {
    s[i] as char
  }

  /** A whole escape stands at i, of a byte that may not be written as it is. */
  ghost predicate EscapeAt(s: Bytes, i: int, slashes: bool)
    requires 0 <= i < |s|
  {
    && i + 2 < |s| && EscapeDigit(CharAt(s, i + 1)) && EscapeDigit(CharAt(s, i + 2))
    && var c := (16 * DigitValue(CharAt(s, i + 1)) + DigitValue(CharAt(s, i + 2))) as char;
       !PlainChar(c) && !(slashes && c == '/')
  }

  /** Only plain characters, slashes if they are kept, and escapes of the rest. */
  ghost predicate Encoded(s: Bytes, slashes: bool) {
    forall i :: 0 <= i < |s| ==>
      || PlainChar(CharAt(s, i)) || (slashes && CharAt(s, i) == '/')
      || (CharAt(s, i) == '%' && EscapeAt(s, i, slashes))
  }

  lemma EncodedConcat(a: Bytes, b: Bytes, slashes: bool)
    requires Encoded(a, slashes) && Encoded(b, slashes)
    ensures Encoded(a + b, slashes)
  {
    var s := a + b;
    forall i | 0 <= i < |s|
      ensures || PlainChar(CharAt(s, i)) || (slashes && CharAt(s, i) == '/')
              || (CharAt(s, i) == '%' && EscapeAt(s, i, slashes))
    {
      if i < |a| {
        assert CharAt(s, i) == CharAt(a, i);
        if i + 2 < |a| { assert CharAt(s, i + 1) == CharAt(a, i + 1) && CharAt(s, i + 2) == CharAt(a, i + 2); }
      } else {
        var j := i - |a|;
        assert CharAt(s, i) == CharAt(b, j);
        if j + 2 < |b| { assert CharAt(s, i + 1) == CharAt(b, j + 1) && CharAt(s, i + 2) == CharAt(b, j + 2); }
      }
    }
  }

  lemma UpperHexIs(n: Byte)
    requires n < 16
    ensures var c := UpperHex(n) as char; EscapeDigit(c) && PlainChar(c) && DigitValue(c) == n
  {
  }

  lemma ByteIsEncoded(c: Byte, slashes: bool)
    ensures Encoded(EncodeByte(c, IsUnreserved(c) || (c == SLASH && slashes)), slashes)
  {
    var e := EncodeByte(c, IsUnreserved(c) || (c == SLASH && slashes));
    UpperHexIs(c / 16);
    UpperHexIs(c % 16);
    assert 16 * (c / 16) + c % 16 == c;
    assert PlainChar(c as char) <==> IsUnreserved(c);
    if |e| == 3 {
      assert CharAt(e, 1) == UpperHex(c / 16) as char && CharAt(e, 2) == UpperHex(c % 16) as char;
      assert EscapeAt(e, 0, slashes);
    }
  }

  lemma {:induction false} EncodeIsEncoded(s: Bytes, encodeSlash: bool)
    ensures Encoded(Encode(s, encodeSlash), !encodeSlash)
  {
    if s != [] {
      EncodeIsEncoded(s[..|s| - 1], encodeSlash);
      ByteIsEncoded(s[|s| - 1], !encodeSlash);
      EncodedConcat(Encode(s[..|s| - 1], encodeSlash),
                    EncodeByte(s[|s| - 1], IsUnreserved(s[|s| - 1]) || (s[|s| - 1] == SLASH && !encodeSlash)),
                        !encodeSlash);
    }
  }

  method AwsURIEncode(s: Bytes, encodeSlash: bool) returns (r: Bytes)
    ensures Encoded(r, !encodeSlash) && Unescape(r) == Some(s)
    ensures r == Encode(s, encodeSlash)
  {
    r := [];
    for i := 0 to |s|
      invariant r == Encode(s[..i], encodeSlash)
    {
      var c := s[i];
      if IsUnreserved(c) || (c == SLASH && !encodeSlash) {
        r := r + [c];
      } else {
        r := r + [PERCENT, UpperHex(c / 16), UpperHex(c % 16)];
      }
      assert s[..i + 1][..i] == s[..i];
    }
    assert s[..|s|] == s;
    EncodeIsEncoded(s, encodeSlash);
    EncodeRoundTrip(s, encodeSlash);
  }

  /** Bytes a query piece may hold without being cut or re-read. */
  ghost predicate Safe(s: Bytes) { forall i :: 0 <= i < |s| ==> s[i] !in {AMP, EQ, SEMICOLON} }

  lemma UnescapeStep(c: Byte, plain: bool, rest: Bytes)
    requires plain ==> c != PERCENT && c != PLUS
    ensures Unescape(EncodeByte(c, plain) + rest) == Prepend([c], Unescape(rest))
  {
    var e := EncodeByte(c, plain) + rest;
    if plain { assert e[1..] == rest; } else { assert e[3..] == rest; }
  }

  lemma PrependNothing(o: Option<Bytes>)
    ensures Prepend([], o) == o
  {
    if o.Some? { assert [] + o.value == o.value; }
  }

  lemma PrependLast(s: Bytes, o: Option<Bytes>)
    requires s != []
    ensures Prepend(s[..|s| - 1], Prepend([s[|s| - 1]], o)) == Prepend(s, o)
  {
    if o.Some? { assert s[..|s| - 1] + ([s[|s| - 1]] + o.value) == s + o.value; }
  }

  lemma {:induction false} EncodeThen(s: Bytes, encodeSlash: bool, rest: Bytes)
    ensures Unescape(Encode(s, encodeSlash) + rest) == Prepend(s, Unescape(rest))
  {
    if s == [] {
      assert Encode(s, encodeSlash) + rest == rest;
      PrependNothing(Unescape(rest));
    } else {
      var init, c := s[..|s| - 1], s[|s| - 1];
      var plain := IsUnreserved(c) || (c == SLASH && !encodeSlash);
      assert Encode(s, encodeSlash) + rest == Encode(init, encodeSlash) + (EncodeByte(c, plain) + rest);
      EncodeThen(init, encodeSlash, EncodeByte(c, plain) + rest);
      UnescapeStep(c, plain, rest);
      PrependLast(s, Unescape(rest));
    }
  }

  lemma {:induction false} EscapeThen(s: Bytes, rest: Bytes)
    ensures Unescape(Escape(s) + rest) == Prepend(s, Unescape(rest))
  {
    if s == [] {
      assert Escape(s) + rest == rest;
      PrependNothing(Unescape(rest));
    } else {
      var init, c := s[..|s| - 1], s[|s| - 1];
      var e := if c == SPACE then [PLUS] else EncodeByte(c, IsUnreserved(c));
      assert Escape(s) + rest == Escape(init) + (e + rest);
      EscapeThen(init, e + rest);
      if c == SPACE { assert ([PLUS] + rest)[1..] == rest; } else { UnescapeStep(c, IsUnreserved(c), rest); }
      PrependLast(s, Unescape(rest));
    }
  }

  /** Every byte string survives encoding and decoding, with or without
      encoded slashes, and its encoding needs no further quoting. */
  lemma EncodeRoundTrip(s: Bytes, encodeSlash: bool)
    ensures Unescape(Encode(s, encodeSlash)) == Some(s) && Safe(Encode(s, encodeSlash))
  {
    EncodeThen(s, encodeSlash, []);
    assert Encode(s, encodeSlash) + [] == Encode(s, encodeSlash) && s + [] == s;
    EncodeIsSafe(s, encodeSlash);
  }

  lemma EscapeRoundTrip(s: Bytes)
    ensures Unescape(Escape(s)) == Some(s) && Safe(Escape(s))
  {
    EscapeThen(s, []);
    assert Escape(s) + [] == Escape(s) && s + [] == s;
    EscapeIsSafe(s);
  }

  lemma {:induction false} EncodeIsSafe(s: Bytes, encodeSlash: bool)
    ensures Safe(Encode(s, encodeSlash))
  {
    if s != [] { EncodeIsSafe(s[..|s| - 1], encodeSlash); }
  }

  lemma {:induction false} EscapeIsSafe(s: Bytes)
    ensures Safe(Escape(s))
  {
    if s != [] { EscapeIsSafe(s[..|s| - 1]); }
  }

  // --------------------------------------------------------------------- parsing

  function Split(s: Bytes): (r: seq<Bytes>)
    ensures r != []
  {
    if s == [] then [[]]
    else
      var rest := Split(s[1..]);
      if s[0] == AMP then [[]] + rest else [[s[0]] + rest[0]] + rest[1..]
  }

  function Join(pieces: seq<Bytes>): Bytes {
    if pieces == [] then []
    else if |pieces| == 1 then pieces[0]
    else pieces[0] + [AMP] + Join(pieces[1..])
  }

  /** strings.Cut at the first "=". */
  function Cut(piece: Bytes): Pair {
    if piece == [] then Pair([], [])
    else if piece[0] == EQ then Pair([], piece[1..])
    else
      var rest := Cut(piece[1..]);
      Pair([piece[0]] + rest.key, rest.value)
  }

  /** One piece of a raw query; None when url.ParseQuery leaves it out. */
  function ParsePiece(piece: Bytes): Option<Pair> {
    if piece == [] || SEMICOLON in piece then None
    else
      var raw := Cut(piece);
      match Unescape(raw.key)
      case None => None
      case Some(k) =>
        match Unescape(raw.value)
        case None => None
        case Some(v) => Some(Pair(k, v))
  }

  function ParseAll(pieces: seq<Bytes>): seq<Pair> {
    if pieces == [] then []
    else ParseAll(pieces[..|pieces| - 1]) + match ParsePiece(pieces[|pieces| - 1]) case None => [] case Some(p) => [p]
  }

  /** The decoded parameters of a raw query, in order. */
  function Pairs(raw: Bytes): seq<Pair> { ParseAll(Split(raw)) }

  lemma {:induction false} SplitFirst(p: Bytes, rest: Bytes)
    requires AMP !in p
    ensures Split(p) == [p] && Split(p + [AMP] + rest) == [p] + Split(rest)
  {
    var s := p + [AMP] + rest;
    if p == [] {
      assert s == [AMP] + rest && s[1..] == rest;
    } else {
      assert s[0] == p[0] && s[1..] == p[1..] + [AMP] + rest && p == [p[0]] + p[1..];
      SplitFirst(p[1..], rest);
    }
  }

  lemma {:induction false} SplitLast(s: Bytes, p: Bytes)
    requires AMP !in p
    ensures Split(s + [AMP] + p) == Split(s) + [p]
  {
    var t := s + [AMP] + p;
    if s == [] {
      assert t == [] + [AMP] + p;
      SplitFirst([], p);
      SplitFirst(p, []);
    } else {
      assert t[0] == s[0] && t[1..] == s[1..] + [AMP] + p;
      SplitLast(s[1..], p);
    }
  }

  lemma {:induction false} SplitJoin(pieces: seq<Bytes>)
    requires pieces != [] && forall i :: 0 <= i < |pieces| ==> AMP !in pieces[i]
    ensures Split(Join(pieces)) == pieces
  {
    if |pieces| == 1 {
      SplitFirst(pieces[0], []);
    } else {
      SplitJoin(pieces[1..]);
      SplitFirst(pieces[0], Join(pieces[1..]));
    }
  }

  lemma {:induction false} CutAt(k: Bytes, v: Bytes)
    requires EQ !in k
    ensures Cut(k + [EQ] + v) == Pair(k, v)
  {
    var s := k + [EQ] + v;
    if k == [] {
      assert s == [EQ] + v && s[1..] == v;
    } else {
      assert s[0] == k[0] && s[1..] == k[1..] + [EQ] + v;
      CutAt(k[1..], v);
    }
  }

  /** The piece AWS signs for a parameter, and the one url.Values.Encode writes. */
  function Piece(p: Pair): Bytes { Encode(p.key, true) + [EQ] + Encode(p.value, true) }

  function FormPiece(p: Pair): Bytes { Escape(p.key) + [EQ] + Escape(p.value) }

  lemma EncodedParses(k: Bytes, v: Bytes, ek: Bytes, ev: Bytes)
    requires Safe(ek) && Safe(ev) && Unescape(ek) == Some(k) && Unescape(ev) == Some(v)
    ensures ParsePiece(ek + [EQ] + ev) == Some(Pair(k, v)) && AMP !in ek + [EQ] + ev
  {
    CutAt(ek, ev);
    assert SEMICOLON !in ek + [EQ] + ev;
  }

  lemma PieceParses(p: Pair)
    ensures ParsePiece(Piece(p)) == Some(p) && AMP !in Piece(p)
    ensures ParsePiece(FormPiece(p)) == Some(p) && AMP !in FormPiece(p)
  {
    EncodeRoundTrip(p.key, true);
    EncodeRoundTrip(p.value, true);
    EncodedParses(p.key, p.value, Encode(p.key, true), Encode(p.value, true));
    EscapeRoundTrip(p.key);
    EscapeRoundTrip(p.value);
    EncodedParses(p.key, p.value, Escape(p.key), Escape(p.value));
  }

  function Pieces(ps: seq<Pair>): seq<Bytes> {
    if ps == [] then [] else Pieces(ps[..|ps| - 1]) + [Piece(ps[|ps| - 1])]
  }

  function FormPieces(ps: seq<Pair>): seq<Bytes> {
    if ps == [] then [] else FormPieces(ps[..|ps| - 1]) + [FormPiece(ps[|ps| - 1])]
  }

  lemma {:induction false} PiecesAre(ps: seq<Pair>)
    ensures |Pieces(ps)| == |ps| && forall i :: 0 <= i < |ps| ==> Pieces(ps)[i] == Piece(ps[i])
  {
    if ps != [] { PiecesAre(ps[..|ps| - 1]); }
  }

  lemma {:induction false} FormPiecesAre(ps: seq<Pair>)
    ensures |FormPieces(ps)| == |ps| && forall i :: 0 <= i < |ps| ==> FormPieces(ps)[i] == FormPiece(ps[i])
  {
    if ps != [] { FormPiecesAre(ps[..|ps| - 1]); }
  }

  lemma {:induction false} PiecesParse(pieces: seq<Bytes>, ps: seq<Pair>)
    requires |pieces| == |ps| && forall i :: 0 <= i < |ps| ==> ParsePiece(pieces[i]) == Some(ps[i]) && AMP !in pieces[i]
    ensures Pairs(Join(pieces)) == ps
  {
    if ps == [] {
      EmptyQuery();
    } else {
      SplitJoin(pieces);
      ParsesTo(pieces, ps);
    }
  }

  lemma EmptyQuery()
    ensures Pairs([]) == []
  {
    var pieces := Split([]);
    assert pieces == [[]] && pieces[..0] == [];
  }

  lemma {:induction false} ParsesTo(pieces: seq<Bytes>, ps: seq<Pair>)
    requires |pieces| == |ps| && forall i :: 0 <= i < |ps| ==> ParsePiece(pieces[i]) == Some(ps[i])
    ensures ParseAll(pieces) == ps
  {
    if ps != [] { ParsesTo(pieces[..|ps| - 1], ps[..|ps| - 1]); }
  }

  /** Encoded parameters parse back to the parameters. */
  lemma JoinParses(ps: seq<Pair>)
    ensures Pairs(Join(Pieces(ps))) == ps && Pairs(Join(FormPieces(ps))) == ps
  {
    forall p: Pair ensures ParsePiece(Piece(p)) == Some(p) && AMP !in Piece(p) { PieceParses(p); }
    forall p: Pair ensures ParsePiece(FormPiece(p)) == Some(p) && AMP !in FormPiece(p) { PieceParses(p); }
    PiecesAre(ps);
    FormPiecesAre(ps);
    PiecesParse(Pieces(ps), ps);
    PiecesParse(FormPieces(ps), ps);
  }

  // ---------------------------------------------------- what a raw query says, outright

  /** Without a percent sign decoding only turns + into a space. */
  lemma {:induction false} UnescapePlain(s: Bytes)
    requires forall i :: 0 <= i < |s| ==> s[i] as char != '%'
    ensures Unescape(s).Some? && |Unescape(s).value| == |s|
    ensures forall i :: 0 <= i < |s| ==>
              Unescape(s).value[i] as char == if s[i] as char == '+' then ' ' else s[i] as char
  {
    if s != [] { UnescapePlain(s[1..]); }
  }

  /** A percent sign needs two digits, of either case, and stands for their byte. */
  lemma UnescapeEscape(s: Bytes)
    requires s != [] && s[0] as char == '%'
    ensures |s| < 3 || HexDigit(s[1]).None? || HexDigit(s[2]).None? ==> Unescape(s) == None
    ensures |s| >= 3 && HexDigit(s[1]).Some? && HexDigit(s[2]).Some? ==>
              Unescape(s) == match Unescape(s[3..])
                             case None => None
                             case Some(rest) => Some([HexDigit(s[1]).value * 16 + HexDigit(s[2]).value] + rest)
  {
  }

  ghost predicate Without(s: Bytes, c: char) { forall i :: 0 <= i < |s| ==> s[i] as char != c }

  /** s followed by one character and more. */
  ghost function Behind(s: Bytes, c: char, rest: Bytes): Bytes
    requires c < 256 as char
  {
    s + [c as int] + rest
  }

  lemma {:induction false} ParseFirst(piece: Bytes, rest: seq<Bytes>)
    ensures ParseAll([piece] + rest)
         == (match ParsePiece(piece) case None => [] case Some(p) => [p]) + ParseAll(rest)
    decreases |rest|
  {
    var ps := [piece] + rest;
    if rest == [] {
      assert ps == [piece] && ps[..0] == [] && ParseAll([]) == [];
    } else {
      ParseFirst(piece, rest[..|rest| - 1]);
      assert ps[..|ps| - 1] == [piece] + rest[..|rest| - 1] && ps[|ps| - 1] == rest[|rest| - 1];
    }
  }

  /** Parameters are cut at & and at their first =, and decoded. One that holds a
      semicolon, or does not decode, is left out, and so is an empty one. */
  lemma QueryMeans(k: Bytes, v: Bytes, rest: Bytes)
    requires Without(k, '&') && Without(v, '&') && Without(k, '=')
    ensures var piece := Behind(k, '=', v);
            Pairs(Behind(piece, '&', rest)) == Decoded(k, v) + Pairs(rest)
    ensures k != [] ==> Pairs(Behind(k, '&', rest)) == Decoded(k, []) + Pairs(rest)
    ensures Pairs(Behind([], '&', rest)) == Pairs(rest)
  {
    forall p: Bytes | Without(p, '&') ensures Split(Behind(p, '&', rest)) == [p] + Split(rest) {
      assert AMP !in p;
      SplitFirst(p, rest);
    }
    forall p: Bytes { ParseFirst(p, Split(rest)); }
    assert EQ !in k;
    var piece := Behind(k, '=', v);
    assert Without(piece, '&');
    CutAt(k, v);
    PieceMeans(k, v, piece);
    if k != [] {
      CutWhole(k);
      PieceMeans(k, [], k);
    }
  }

  /** The parameter a key and a value decode to, if they do. */
  ghost function Decoded(k: Bytes, v: Bytes): seq<Pair> {
    if !Without(k, ';') || !Without(v, ';') || Unescape(k).None? || Unescape(v).None? then []
    else [Pair(Unescape(k).value, Unescape(v).value)]
  }

  lemma PieceMeans(k: Bytes, v: Bytes, piece: Bytes)
    requires piece != [] && Cut(piece) == Pair(k, v) && (piece == Behind(k, '=', v) || (piece == k && v == []))
    ensures Decoded(k, v) == match ParsePiece(piece) case None => [] case Some(p) => [p]
  {
    assert SEMICOLON in piece <==> !Without(k, ';') || !Without(v, ';') by {
      if i :| 0 <= i < |k| && k[i] as char == ';' { assert piece[i] == SEMICOLON; }
      if i :| 0 <= i < |v| && v[i] as char == ';' { assert piece[|k| + 1 + i] == SEMICOLON; }
      if SEMICOLON in piece {
        var i :| 0 <= i < |piece| && piece[i] == SEMICOLON;
        assert i < |k| ==> k[i] as char == ';';
        assert i > |k| ==> v[i - |k| - 1] as char == ';';
      }
    }
  }

  lemma {:induction false} CutWhole(k: Bytes)
    requires EQ !in k
    ensures Cut(k) == Pair(k, [])
  {
    if k != [] {
      CutWhole(k[1..]);
      assert k == [k[0]] + k[1..];
    }
  }

  // --------------------------------------------------------------------- sorting

  /** less is a strict total order. */
  ghost predicate TotalOrder<T(!new)>(less: (T, T) -> bool) {
    && (forall a, b, c :: less(a, b) && less(b, c) ==> less(a, c))
    && (forall a :: !less(a, a))
    && (forall a, b :: a == b || less(a, b) || less(b, a))
  }

  function Insert<T>(less: (T, T) -> bool, x: T, xs: seq<T>): seq<T> {
    if xs == [] || !less(xs[0], x) then [x] + xs else [xs[0]] + Insert(less, x, xs[1..])
  }

  function Sort<T>(less: (T, T) -> bool, xs: seq<T>): seq<T> {
    if xs == [] then [] else Insert(less, xs[|xs| - 1], Sort(less, xs[..|xs| - 1]))
  }

  ghost predicate Sorted<T(!new)>(less: (T, T) -> bool, xs: seq<T>) {
    forall i, j :: 0 <= i < j < |xs| ==> !less(xs[j], xs[i])
  }

  lemma {:induction false} InsertKeeps<T>(less: (T, T) -> bool, x: T, xs: seq<T>)
    ensures multiset(Insert(less, x, xs)) == multiset(xs) + multiset{x}
  {
    if xs != [] && less(xs[0], x) {
      InsertKeeps(less, x, xs[1..]);
      assert xs == [xs[0]] + xs[1..];
    }
  }

  lemma SortedBehind<T(!new)>(less: (T, T) -> bool, x: T, xs: seq<T>)
    requires Sorted(less, xs) && forall y :: y in xs ==> !less(y, x)
    ensures Sorted(less, [x] + xs)
  {
    forall j | 0 <= j < |xs| ensures !less(xs[j], x) { assert xs[j] in xs; }
  }

  lemma NoneBelow<T(!new)>(less: (T, T) -> bool, x: T, xs: seq<T>, y: T)
    requires TotalOrder(less) && Sorted(less, xs) && xs != [] && !less(xs[0], x) && y in xs
    ensures !less(y, x)
  {
    LeastIsFirst(less, xs, y);
  }

  lemma {:induction false} InsertSorts<T(!new)>(less: (T, T) -> bool, x: T, xs: seq<T>)
    requires TotalOrder(less) && Sorted(less, xs)
    ensures Sorted(less, Insert(less, x, xs)) && multiset(Insert(less, x, xs)) == multiset(xs) + multiset{x}
  {
    InsertKeeps(less, x, xs);
    if xs != [] && less(xs[0], x) {
      InsertSorts(less, x, xs[1..]);
      var tail := Insert(less, x, xs[1..]);
      forall y | y in tail ensures !less(y, xs[0]) {
        assert y in multiset(tail);
        if y != x {
          assert y in xs[1..];
          LeastIsFirst(less, xs, y);
        }
      }
      SortedBehind(less, xs[0], tail);
    } else {
      forall y | y in xs ensures !less(y, x) { NoneBelow(less, x, xs, y); }
      SortedBehind(less, x, xs);
    }
  }

  lemma {:induction false} SortSorts<T(!new)>(less: (T, T) -> bool, xs: seq<T>)
    requires TotalOrder(less)
    ensures Sorted(less, Sort(less, xs)) && multiset(Sort(less, xs)) == multiset(xs)
  {
    if xs != [] {
      SortSorts(less, xs[..|xs| - 1]);
      InsertSorts(less, xs[|xs| - 1], Sort(less, xs[..|xs| - 1]));
      assert xs == xs[..|xs| - 1] + [xs[|xs| - 1]];
    }
  }

  lemma LeastIsFirst<T(!new)>(less: (T, T) -> bool, a: seq<T>, x: T)
    requires TotalOrder(less) && Sorted(less, a) && x in a
    ensures x == a[0] || less(a[0], x)
  {
    var i :| 0 <= i < |a| && a[i] == x;
  }

  lemma Tail<T>(a: seq<T>)
    requires a != []
    ensures multiset(a[1..]) == multiset(a) - multiset{a[0]}
  {
    assert a == [a[0]] + a[1..];
  }

  lemma FirstsAgree<T(!new)>(less: (T, T) -> bool, a: seq<T>, b: seq<T>)
    requires TotalOrder(less) && Sorted(less, a) && Sorted(less, b) && multiset(a) == multiset(b) && a != []
    ensures b != [] && a[0] == b[0]
  {
    assert |a| == |multiset(a)| == |multiset(b)| == |b|;
    assert a[0] in multiset(b) && b[0] in multiset(a);
    LeastIsFirst(less, a, b[0]);
    LeastIsFirst(less, b, a[0]);
  }

  lemma TailsAgree<T(!new)>(less: (T, T) -> bool, a: seq<T>, b: seq<T>)
    requires Sorted(less, a) && Sorted(less, b) && multiset(a) == multiset(b) && a != [] && b != [] && a[0] == b[0]
    ensures Sorted(less, a[1..]) && Sorted(less, b[1..]) && multiset(a[1..]) == multiset(b[1..])
  {
    Tail(a);
    Tail(b);
  }

  /** A multiset has one sorted arrangement. */
  lemma {:induction false} SortedUnique<T(!new)>(less: (T, T) -> bool, a: seq<T>, b: seq<T>)
    requires TotalOrder(less) && Sorted(less, a) && Sorted(less, b) && multiset(a) == multiset(b)
    ensures a == b
  {
    if a != [] {
      FirstsAgree(less, a, b);
      TailsAgree(less, a, b);
      SortedUnique(less, a[1..], b[1..]);
      assert a == [a[0]] + a[1..] && b == [b[0]] + b[1..];
    } else {
      assert |b| == |multiset(b)|;
    }
  }

  predicate PairLess(a: Pair, b: Pair) { Less(a.key, b.key) || (a.key == b.key && Less(a.value, b.value)) }

  lemma OrdersAreTotal()
    ensures TotalOrder(Less) && TotalOrder(PairLess)
  {
    forall a, b, c | Less(a, b) && Less(b, c) ensures Less(a, c) { LessTransitive(a, b, c); }
    forall a ensures !Less(a, a) { LessIrreflexive(a); }
    forall a, b ensures a == b || Less(a, b) || Less(b, a) { LessTotal(a, b); }
    assert TotalOrder(Less);
    PairOrderIsTotal();
  }

  lemma PairOrderIsTotal()
    requires TotalOrder(Less)
    ensures TotalOrder(PairLess)
  {
  }

  // ------------------------------------------------------------- the normal form

  /** The parameters in order of key, then value, re-encoded. */
  function Canon(raw: Bytes): Bytes { Join(Pieces(Sort(PairLess, Pairs(raw)))) }

  /** Parsing the canonical string gives the decoded parameters back. */
  lemma CanonParsesBack(raw: Bytes)
    ensures Pairs(Canon(raw)) == Sort(PairLess, Pairs(raw))
    ensures multiset(Pairs(Canon(raw))) == multiset(Pairs(raw))
  {
    JoinParses(Sort(PairLess, Pairs(raw)));
    OrdersAreTotal();
    SortSorts(PairLess, Pairs(raw));
  }

  /** Two raw queries have one canonical string exactly when they decode to the
      same parameters, counted with repetition, in whatever order and spelling. */
  lemma CanonIsNormalForm(a: Bytes, b: Bytes)
    ensures Canon(a) == Canon(b) <==> multiset(Pairs(a)) == multiset(Pairs(b))
  {
    CanonParsesBack(a);
    CanonParsesBack(b);
    if multiset(Pairs(a)) == multiset(Pairs(b)) {
      SortDependsOnMultiset(Pairs(a), Pairs(b));
    }
  }

  /** The parameters in the order of the bytes of their keys, and of their
      values where keys are equal. */
  ghost predicate InKeyOrder(ps: seq<Pair>) {
    forall i, j :: 0 <= i < j < |ps| ==>
      Less(ps[i].key, ps[j].key)
      || (ps[i].key == ps[j].key && (ps[i].value == ps[j].value || Less(ps[i].value, ps[j].value)))
  }

  /** key=value, both encoded with their slashes. */
  ghost predicate SpellsPair(piece: Bytes, p: Pair) {
    exists k, v ::
      && piece == Behind(k, '=', v) && Encoded(k, false) && Encoded(v, false)
      && Unescape(k) == Some(p.key) && Unescape(v) == Some(p.value)
  }

  /** r is these parameters, spelled one after the other with & between them. */
  ghost predicate SpellsAll(r: Bytes, ps: seq<Pair>)
    decreases |ps|
  {
    if ps == [] then r == []
    else if |ps| == 1 then SpellsPair(r, ps[0])
    else exists piece, rest :: r == Behind(piece, '&', rest) && SpellsPair(piece, ps[0]) && SpellsAll(rest, ps[1..])
  }

  lemma PieceSpells(p: Pair)
    ensures SpellsPair(Piece(p), p)
  {
    EncodeRoundTrip(p.key, true);
    EncodeRoundTrip(p.value, true);
    EncodeIsEncoded(p.key, true);
    EncodeIsEncoded(p.value, true);
    assert Piece(p) == Behind(Encode(p.key, true), '=', Encode(p.value, true));
  }

  lemma {:induction false} JoinSpells(pieces: seq<Bytes>, ps: seq<Pair>)
    requires |pieces| == |ps| && forall i :: 0 <= i < |ps| ==> SpellsPair(pieces[i], ps[i])
    ensures SpellsAll(Join(pieces), ps)
    decreases |ps|
  {
    if |ps| > 1 {
      JoinSpells(pieces[1..], ps[1..]);
      assert Join(pieces) == Behind(pieces[0], '&', Join(pieces[1..]));
    }
  }

  /** The canonical string, outright: every parameter of the query, in key order,
      spelled in the one way signatures are computed over. */
  ghost predicate IsCanonical(r: Bytes, ps: seq<Pair>) {
    exists sorted :: multiset(sorted) == multiset(ps) && InKeyOrder(sorted) && SpellsAll(r, sorted)
  }

  lemma SortedIsCanonical(ps: seq<Pair>)
    ensures IsCanonical(Join(Pieces(Sort(PairLess, ps))), ps)
  {
    var sorted := Sort(PairLess, ps);
    OrdersAreTotal();
    SortSorts(PairLess, ps);
    InOrderIfSorted(sorted);
    PiecesAre(sorted);
    forall i | 0 <= i < |sorted| ensures SpellsPair(Pieces(sorted)[i], sorted[i]) { PieceSpells(sorted[i]); }
    JoinSpells(Pieces(sorted), sorted);
  }

  lemma InOrderIfSorted(ps: seq<Pair>)
    requires TotalOrder(Less) && Sorted(PairLess, ps)
    ensures InKeyOrder(ps)
  {
    forall i, j | 0 <= i < j < |ps|
      ensures Less(ps[i].key, ps[j].key)
              || (ps[i].key == ps[j].key && (ps[i].value == ps[j].value || Less(ps[i].value, ps[j].value)))
    {
      LessTotal(ps[i].key, ps[j].key);
      LessTotal(ps[i].value, ps[j].value);
    }
  }

  lemma CanonIsIdempotent(raw: Bytes)
    ensures Canon(Canon(raw)) == Canon(raw)
  {
    CanonParsesBack(raw);
    CanonIsNormalForm(Canon(raw), raw);
  }

  // ------------------------------------------------------------- the code's loops

  type Values = map<Bytes, seq<Bytes>>

  /** url.Values: each key's values in order of appearance. */
  function Group(ps: seq<Pair>): Values {
    if ps == [] then map[]
    else
      var m, p := Group(ps[..|ps| - 1]), ps[|ps| - 1];
      m[p.key := (if p.key in m then m[p.key] else []) + [p.value]]
  }

  function ParseQuery(raw: Bytes): Values { Group(Pairs(raw)) }

  function WithKey(k: Bytes, vs: seq<Bytes>): (ps: seq<Pair>)
    ensures |ps| == |vs| && forall i :: 0 <= i < |ps| ==> ps[i] == Pair(k, vs[i])
  {
    if vs == [] then [] else WithKey(k, vs[..|vs| - 1]) + [Pair(k, vs[|vs| - 1])]
  }

  /** The parameters of m, key after key. */
  function Flatten(keys: seq<Bytes>, m: Values): seq<Pair> {
    if keys == [] then []
    else
      var init, k := keys[..|keys| - 1], keys[|keys| - 1];
      Flatten(init, m) + WithKey(k, if k in m then m[k] else [])
  }

  function SortValues(m: Values): Values { map k | k in m :: Sort(Less, m[k]) }

  /** The keys of a map in some order: Go's iteration order is unspecified. */
  method KeysOf(m: Values) returns (keys: seq<Bytes>)
    ensures multiset(keys) == multiset(m.Keys)
  {
    keys := [];
    var left := m.Keys;
    while left != {}
      invariant left <= m.Keys && multiset(keys) + multiset(left) == multiset(m.Keys)
      decreases |left|
    {
      var k :| k in left;
      keys, left := keys + [k], left - {k};
    }
  }

  lemma KeysAreOnce(keys: seq<Bytes>, m: Values)
    requires multiset(keys) == multiset(m.Keys)
    ensures forall k :: k in keys <==> k in m
    ensures forall i, j :: 0 <= i < j < |keys| ==> keys[i] != keys[j]
  {
    forall k ensures k in keys <==> k in m { assert k in keys <==> k in multiset(keys); }
    forall i, j | 0 <= i < j < |keys| ensures keys[i] != keys[j] {
      assert keys == keys[..j] + [keys[j]] + keys[j + 1..];
      assert keys[i] == keys[..j][i];
      assert keys[i] in multiset(keys[..j]) && multiset(keys)[keys[j]] <= 1;
    }
  }

  method CanonicalQueryString(rawQuery: Bytes) returns (r: Bytes)
    ensures IsCanonical(r, Pairs(rawQuery))
    ensures r == Canon(rawQuery)
  {
    SortedIsCanonical(Pairs(rawQuery));
    if rawQuery == [] {
      EmptyQuery();
      return [];
    }
    var vals := ParseQuery(rawQuery);
    var order := KeysOf(vals);
    var keys := Sort(Less, order);
    SortedKeys(order, vals);
    var parts := Parts(vals, keys);
    SortedWalk(Pairs(rawQuery), order);
    r := Join(parts);
  }

  /** The outer loop of CanonicalQueryString. */
  method Parts(vals: Values, keys: seq<Bytes>) returns (parts: seq<Bytes>)
    requires forall k :: k in keys ==> k in vals
    ensures parts == Pieces(Flatten(keys, SortValues(vals)))
  {
    parts := [];
    for i := 0 to |keys|
      invariant parts == Pieces(Flatten(keys[..i], SortValues(vals)))
    {
      parts := AppendValues(parts, Flatten(keys[..i], SortValues(vals)), keys[i], Sort(Less, vals[keys[i]]));
      assert keys[..i + 1][..i] == keys[..i];
    }
    assert keys[..|keys|] == keys;
  }

  /** The inner loop of CanonicalQueryString, over one key's sorted values. */
  method AppendValues(parts: seq<Bytes>, ghost before: seq<Pair>, key: Bytes, vs: seq<Bytes>) returns (r: seq<Bytes>)
    requires parts == Pieces(before)
    ensures r == Pieces(before + WithKey(key, vs))
  {
    r := parts;
    assert before + [] == before;
    for j := 0 to |vs|
      invariant r == Pieces(before + WithKey(key, vs[..j]))
    {
      var k := AwsURIEncode(key, true);
      var v := AwsURIEncode(vs[j], true);
      r := r + [k + [EQ] + v];
      NextValue(before, key, vs, j);
    }
    assert vs[..|vs|] == vs;
  }

  lemma NextValue(before: seq<Pair>, key: Bytes, vs: seq<Bytes>, j: nat)
    requires j < |vs|
    ensures Pieces(before + WithKey(key, vs[..j + 1]))
            == Pieces(before + WithKey(key, vs[..j])) + [Piece(Pair(key, vs[j]))]
  {
    assert vs[..j + 1][..j] == vs[..j];
    assert before + WithKey(key, vs[..j + 1]) == before + WithKey(key, vs[..j]) + [Pair(key, vs[j])];
    AppendPiece(before + WithKey(key, vs[..j]), Pair(key, vs[j]));
  }

  lemma AppendPiece(ps: seq<Pair>, p: Pair)
    ensures Pieces(ps + [p]) == Pieces(ps) + [Piece(p)]
  {
    assert (ps + [p])[..|ps|] == ps;
  }

  lemma {:induction false} WithKeyCounts(k: Bytes, vs: seq<Bytes>, p: Pair)
    ensures multiset(WithKey(k, vs))[p] == if p.key == k then multiset(vs)[p.value] else 0
  {
    if vs != [] {
      WithKeyCounts(k, vs[..|vs| - 1], p);
      assert vs == vs[..|vs| - 1] + [vs[|vs| - 1]];
    }
  }

  lemma {:induction false} FlattenCounts(keys: seq<Bytes>, m: Values, p: Pair)
    requires forall i, j :: 0 <= i < j < |keys| ==> keys[i] != keys[j]
    ensures multiset(Flatten(keys, m))[p] == if p.key in keys && p.key in m then multiset(m[p.key])[p.value] else 0
    decreases |keys|
  {
    if keys != [] {
      var init, k := keys[..|keys| - 1], keys[|keys| - 1];
      FlattenCounts(init, m, p);
      WithKeyCounts(k, if k in m then m[k] else [], p);
      assert keys == init + [k] && k !in init;
    }
  }

  lemma {:induction false} GroupCounts(ps: seq<Pair>, p: Pair)
    ensures multiset(ps)[p] == if p.key in Group(ps) then multiset(Group(ps)[p.key])[p.value] else 0
  {
    if ps != [] {
      GroupCounts(ps[..|ps| - 1], p);
      assert ps == ps[..|ps| - 1] + [ps[|ps| - 1]];
    }
  }

  lemma {:induction false} FlattenSorted(keys: seq<Bytes>, m: Values)
    requires TotalOrder(Less) && TotalOrder(PairLess) && Sorted(Less, keys)
    requires forall i, j :: 0 <= i < j < |keys| ==> keys[i] != keys[j]
    requires forall k :: k in m ==> Sorted(Less, m[k])
    ensures Sorted(PairLess, Flatten(keys, m))
    ensures forall p :: p in Flatten(keys, m) ==> p.key in keys
    decreases |keys|
  {
    if keys != [] {
      var init, k := keys[..|keys| - 1], keys[|keys| - 1];
      FlattenSorted(init, m);
      assert keys == init + [k];
      var vs := if k in m then m[k] else [];
      var a, b := Flatten(init, m), WithKey(k, vs);
      forall i, j | 0 <= i < j < |a + b| ensures !PairLess((a + b)[j], (a + b)[i]) {
        if i < |a| <= j { BeforeKey(init, k, a[i]); } else if i >= |a| { assert !Less(vs[j - |a|], vs[i - |a|]); }
      }
    }
  }

  lemma BeforeKey(init: seq<Bytes>, k: Bytes, p: Pair)
    requires TotalOrder(Less) && Sorted(Less, init + [k]) && k !in init && p.key in init
    ensures Less(p.key, k)
  {
    var i :| 0 <= i < |init| && init[i] == p.key;
    assert (init + [k])[i] == p.key && (init + [k])[|init|] == k;
  }

  lemma SortedKeys(order: seq<Bytes>, m: Values)
    requires multiset(order) == multiset(m.Keys)
    ensures forall k :: k in Sort(Less, order) ==> k in m
    ensures multiset(Sort(Less, order)) == multiset(m.Keys)
  {
    OrdersAreTotal();
    SortSorts(Less, order);
    KeysAreOnce(Sort(Less, order), m);
  }

  lemma SortDependsOnMultiset(a: seq<Pair>, b: seq<Pair>)
    requires multiset(a) == multiset(b)
    ensures Sort(PairLess, a) == Sort(PairLess, b)
  {
    OrdersAreTotal();
    SortSorts(PairLess, a);
    SortSorts(PairLess, b);
    SortedUnique(PairLess, Sort(PairLess, a), Sort(PairLess, b));
  }

  /** Grouped parameters are the parameters, whatever the order of keys and
      within each key. */
  lemma GroupedAreAll(ps: seq<Pair>, keys: seq<Bytes>, m: Values)
    requires m.Keys == Group(ps).Keys && multiset(keys) == multiset(m.Keys)
    requires forall k :: k in m ==> multiset(m[k]) == multiset(Group(ps)[k])
    ensures multiset(Flatten(keys, m)) == multiset(ps)
  {
    KeysAreOnce(keys, m);
    forall p: Pair ensures multiset(Flatten(keys, m))[p] == multiset(ps)[p] {
      FlattenCounts(keys, m, p);
      GroupCounts(ps, p);
    }
  }

  /** Walking the sorted keys and each key's sorted values gives the parameters
      sorted as pairs. */
  lemma SortedWalk(ps: seq<Pair>, order: seq<Bytes>)
    requires multiset(order) == multiset(Group(ps).Keys)
    ensures Flatten(Sort(Less, order), SortValues(Group(ps))) == Sort(PairLess, ps)
  {
    var keys, m := Sort(Less, order), SortValues(Group(ps));
    WalkIsSorted(order, Group(ps));
    SortedValues(Group(ps));
    SortedKeys(order, Group(ps));
    GroupedAreAll(ps, keys, m);
    SortedPairs(Flatten(keys, m), ps);
  }

  lemma SortedPairs(a: seq<Pair>, ps: seq<Pair>)
    requires Sorted(PairLess, a) && multiset(a) == multiset(ps)
    ensures a == Sort(PairLess, ps)
  {
    OrdersAreTotal();
    SortSorts(PairLess, ps);
    SortedUnique(PairLess, a, Sort(PairLess, ps));
  }

  lemma SortedValues(m: Values)
    ensures forall k :: k in m ==> Sorted(Less, SortValues(m)[k]) && multiset(SortValues(m)[k]) == multiset(m[k])
  {
    OrdersAreTotal();
    forall k | k in m ensures Sorted(Less, SortValues(m)[k]) && multiset(SortValues(m)[k]) == multiset(m[k]) {
      SortSorts(Less, m[k]);
    }
  }

  lemma WalkIsSorted(order: seq<Bytes>, m: Values)
    requires multiset(order) == multiset(m.Keys)
    ensures Sorted(PairLess, Flatten(Sort(Less, order), SortValues(m)))
  {
    OrdersAreTotal();
    SortSorts(Less, order);
    KeysAreOnce(Sort(Less, order), m);
    SortedValues(m);
    FlattenSorted(Sort(Less, order), SortValues(m));
  }

  // ------------------------------------------------------------- presigned queries

  /** "X-Amz-Signature". */
  const SIGNATURE: Bytes := [88, 45, 65, 109, 122, 45, 83, 105, 103, 110, 97, 116, 117, 114, 101]

  function Unsigned(ps: seq<Pair>): seq<Pair> {
    if ps == [] then []
    else Unsigned(ps[..|ps| - 1]) + if ps[|ps| - 1].key == SIGNATURE then [] else [ps[|ps| - 1]]
  }

  /** url.Values.Encode: keys sorted, each key's values in order. */
  function EncodeValues(m: Values, keys: seq<Bytes>): Bytes { Join(FormPieces(Flatten(keys, m))) }

  function Kept(q: Values, keys: seq<Bytes>): Values { map k | k in keys && k in q && k != SIGNATURE :: q[k] }

  lemma KeptNext(q: Values, keys: seq<Bytes>, k: Bytes)
    requires k in q
    ensures Kept(q, keys + [k]) == if k == SIGNATURE then Kept(q, keys) else Kept(q, keys)[k := q[k]]
  {
    assert forall l :: l in keys + [k] <==> l in keys || l == k;
  }

  /** The rebuilding loops: every parameter but the signature, added one by one. */
  method WithoutSignature(q: Values) returns (canonicalVals: Values)
    requires forall k :: k in q ==> q[k] != []
    ensures canonicalVals == map k | k in q && k != SIGNATURE :: q[k]
  {
    var order := KeysOf(q);
    KeysAreOnce(order, q);
    canonicalVals := map[];
    for i := 0 to |order|
      invariant canonicalVals == Kept(q, order[..i])
    {
      var k := order[i];
      KeptNext(q, order[..i], k);
      assert order[..i + 1] == order[..i] + [k];
      if k == SIGNATURE { continue; }
      canonicalVals := AddValues(canonicalVals, k, q[k]);
    }
    assert order[..|order|] == order;
  }

  /** canonicalVals.Add(k, v) for each value. */
  method AddValues(vals: Values, k: Bytes, vs: seq<Bytes>) returns (r: Values)
    requires k !in vals && vs != []
    ensures r == vals[k := vs]
  {
    r := vals;
    for j := 0 to |vs|
      invariant r == if j == 0 then vals else vals[k := vs[..j]]
    {
      r := r[k := (if k in r then r[k] else []) + [vs[j]]];
      assert vs[..j + 1] == vs[..j] + [vs[j]];
    }
    assert vs[..|vs|] == vs;
  }

  ghost predicate IsSignature(key: Bytes) {
    |key| == |"X-Amz-Signature"| && forall i :: 0 <= i < |key| ==> key[i] as char == "X-Amz-Signature"[i]
  }

  /** qs has every parameter of ps, as often, but those named X-Amz-Signature. */
  ghost predicate DropsSignature(ps: seq<Pair>, qs: seq<Pair>) {
    forall p: Pair :: multiset(qs)[p] == if IsSignature(p.key) then 0 else multiset(ps)[p]
  }

  lemma SignatureIs(key: Bytes)
    ensures IsSignature(key) <==> key == SIGNATURE
  {
    var name := "X-Amz-Signature";
    assert |name| == |SIGNATURE| == 15;
    forall i | 0 <= i < 15 ensures SIGNATURE[i] as char == name[i] {}
    if IsSignature(key) { assert forall i :: 0 <= i < 15 ==> key[i] == SIGNATURE[i]; }
  }

  lemma {:induction false} UnsignedDrops(ps: seq<Pair>)
    ensures DropsSignature(ps, Unsigned(ps))
  {
    forall p: Pair ensures IsSignature(p.key) <==> p.key == SIGNATURE { SignatureIs(p.key); }
    if ps != [] {
      UnsignedDrops(ps[..|ps| - 1]);
      assert ps == ps[..|ps| - 1] + [ps[|ps| - 1]];
    }
  }

  /** The canonical query VerifyPresignedQuery signs. */
  method PresignedQuery(rawQuery: Bytes) returns (r: Bytes)
    ensures exists ps :: DropsSignature(Pairs(rawQuery), ps) && IsCanonical(r, ps)
    ensures r == Join(Pieces(Sort(PairLess, Unsigned(Pairs(rawQuery)))))
  {
    UnsignedDrops(Pairs(rawQuery));
    SortedIsCanonical(Unsigned(Pairs(rawQuery)));
    var q := ParseQuery(rawQuery);
    forall k | k in q ensures q[k] != [] { GroupHasValues(Pairs(rawQuery), k); }
    var canonicalVals := WithoutSignature(q);
    UnsignedGroups(Pairs(rawQuery));
    var order := KeysOf(canonicalVals);
    var keys := Sort(Less, order);
    SortedKeys(order, canonicalVals);
    r := CanonicalQueryString(EncodeValues(canonicalVals, keys));
    FormReparses(Unsigned(Pairs(rawQuery)), keys);
  }

  lemma {:induction false} GroupHasValues(ps: seq<Pair>, k: Bytes)
    ensures k in Group(ps) ==> Group(ps)[k] != []
  {
    if ps != [] { GroupHasValues(ps[..|ps| - 1], k); }
  }

  lemma {:induction false} UnsignedGroups(ps: seq<Pair>)
    ensures Group(Unsigned(ps)) == map k | k in Group(ps) && k != SIGNATURE :: Group(ps)[k]
  {
    if ps != [] {
      var init, p := ps[..|ps| - 1], ps[|ps| - 1];
      UnsignedGroups(init);
      if p.key == SIGNATURE {
        assert Unsigned(ps) == Unsigned(init);
      } else {
        assert (Unsigned(init) + [p])[..|Unsigned(init)|] == Unsigned(init);
      }
    }
  }

  /** Re-encoding grouped parameters and canonicalising is sorting them. */
  lemma FormReparses(ps: seq<Pair>, keys: seq<Bytes>)
    requires multiset(keys) == multiset(Group(ps).Keys)
    ensures Canon(EncodeValues(Group(ps), keys)) == Join(Pieces(Sort(PairLess, ps)))
  {
    JoinParses(Flatten(keys, Group(ps)));
    GroupedAreAll(ps, keys, Group(ps));
    SortDependsOnMultiset(Flatten(keys, Group(ps)), ps);
  }

  lemma AppendedParses(raw: Bytes, p: Pair)
    ensures Pairs(raw + [AMP] + Piece(p)) == Pairs(raw) + [p]
  {
    PieceParses(p);
    SplitLast(raw, Piece(p));
    LastPiece(Split(raw), Piece(p), p);
  }

  lemma LastPiece(pieces: seq<Bytes>, piece: Bytes, p: Pair)
    requires ParsePiece(piece) == Some(p)
    ensures ParseAll(pieces + [piece]) == ParseAll(pieces) + [p]
  {
    assert (pieces + [piece])[..|pieces|] == pieces;
  }

  /** A client that signs a query's canonical form and then appends the
      signature parameter is verified against exactly what it signed. */
  lemma PresignedIsWhatWasSigned(raw: Bytes, signature: Bytes)
    requires forall i :: 0 <= i < |Pairs(raw)| ==> Pairs(raw)[i].key != SIGNATURE
    ensures Join(Pieces(Sort(PairLess, Unsigned(Pairs(raw + [AMP] + Piece(Pair(SIGNATURE, signature))))))) == Canon(raw)
  {
    AppendedParses(raw, Pair(SIGNATURE, signature));
    NothingSigned(Pairs(raw), Pair(SIGNATURE, signature));
  }

  lemma NothingSigned(ps: seq<Pair>, p: Pair)
    requires p.key == SIGNATURE && forall i :: 0 <= i < |ps| ==> ps[i].key != SIGNATURE
    ensures Unsigned(ps + [p]) == ps
  {
    assert (ps + [p])[..|ps|] == ps;
    KeepsAll(ps);
  }

  lemma {:induction false} KeepsAll(ps: seq<Pair>)
    requires forall i :: 0 <= i < |ps| ==> ps[i].key != SIGNATURE
    ensures Unsigned(ps) == ps
  {
    if ps != [] { KeepsAll(ps[..|ps| - 1]); }
  }
}
