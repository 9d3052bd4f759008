/**
 * `parse_bytes`, `parse_bytes_traditional` and `format_bytes` of
 * `repr::strconv`: the two text forms of PostgreSQL's `bytea` type
 * (section 8.4.1, "bytea Hex Format", and section 8.4.2, "bytea Escape
 * Format", of the PostgreSQL 14 manual), plus the `hex` crate's
 * `encode`/`decode` that the source delegates the hex form to.
 */
module ByteaCodec {
  import opened Results
  import opened Text
  import opened Strconv

  const Backslash: byte := 0x5C

  // ----- The `hex` crate -----

  predicate IsHexDigit(c: byte) {
    (0x30 <= c <= 0x39) || (0x61 <= c <= 0x66) || (0x41 <= c <= 0x46)
  }

  function HexValue(c: byte): (v: nat)
    requires IsHexDigit(c)
    ensures v < 16
  {
    if c <= 0x39 then c - 0x30 else if c <= 0x46 then c - 0x41 + 10 else c - 0x61 + 10
  }

  /** Decodes the digit pairs of `h`, whose first byte sits at `offset` in
      the whole input; the first bad digit, left to right, is reported. */
  function DecodePairs(h: seq<byte>, offset: nat): (r: Result<seq<byte>, Error>)
    requires |h| % 2 == 0
    ensures r.Ok? <==> forall i | 0 <= i < |h| :: IsHexDigit(h[i])
    ensures r.Ok? ==> |r.value| * 2 == |h|
    ensures r.Err? ==> r.error.InvalidHexCharacter? && offset <= r.error.index < offset + |h|
                       && !IsHexDigit(h[r.error.index - offset])
  {
    if h == [] then Ok([])
    else if !IsHexDigit(h[0]) then Err(InvalidHexCharacter(h[0], offset))
    else if !IsHexDigit(h[1]) then Err(InvalidHexCharacter(h[1], offset + 1))
    else
      match DecodePairs(h[2..], offset + 2)
      case Err(e) => Err(e)
      case Ok(rest) => Ok([HexValue(h[0]) * 16 + HexValue(h[1])] + rest)
  }

  /** `hex::decode`: an odd length is refused before any digit is looked at. */
  function HexDecode(h: seq<byte>): (r: Result<seq<byte>, Error>)
    ensures |h| % 2 == 1 ==> r == Err(OddLength)
    ensures r.Ok? <==> |h| % 2 == 0 && forall i | 0 <= i < |h| :: IsHexDigit(h[i])
    ensures r.Ok? ==> |r.value| * 2 == |h|
  {
    if |h| % 2 != 0 then Err(OddLength) else DecodePairs(h, 0)
  }

  /** The lower-case hex digit for a nibble. */
  function LowerHexDigit(v: nat): (c: char)
    requires v < 16
    ensures c as int < 0x80
    ensures IsHexDigit(c as int) && HexValue(c as int) == v
  {
    if v < 10 then ('0' as int + v) as char else ('a' as int + v - 10) as char
  }

  predicate IsLowerHexDigit(c: char) {
    '0' <= c <= '9' || 'a' <= c <= 'f'
  }

  /** `hex::encode`: two lower-case digits per byte, high nibble first. */
  function HexEncode(b: seq<byte>): (r: string)
    ensures |r| == 2 * |b|
    ensures forall i | 0 <= i < |r| :: IsLowerHexDigit(r[i])
  {
    if b == [] then [] else [LowerHexDigit(b[0] / 16), LowerHexDigit(b[0] % 16)] + HexEncode(b[1..])
  }

  lemma HexEncodeIsAscii(b: seq<byte>)
    ensures IsAscii(HexEncode(b))
  {
  }

  lemma {:induction false} DecodeEncoded(b: seq<byte>, offset: nat)
    ensures IsAscii(HexEncode(b))
    ensures DecodePairs(AsciiCodes(HexEncode(b)), offset) == Ok(b)
  {
    HexEncodeIsAscii(b);
    if b == [] {
      assert AsciiCodes(HexEncode(b)) == [];
    } else {
      DecodeEncoded(b[1..], offset + 2);
      DecodeEncodedCons(b, offset);
    }
  }

  lemma DecodeEncodedCons(b: seq<byte>, offset: nat)
    requires b != [] && IsAscii(HexEncode(b[1..]))
    requires DecodePairs(AsciiCodes(HexEncode(b[1..])), offset + 2) == Ok(b[1..])
    ensures IsAscii(HexEncode(b))
    ensures DecodePairs(AsciiCodes(HexEncode(b)), offset) == Ok(b)
  {
    var h := AsciiCodes(HexEncode(b));
    assert |h| >= 2 && IsHexDigit(h[0]) && IsHexDigit(h[1]) && HexValue(h[0]) * 16 + HexValue(h[1]) == b[0]
        && h[2..] == AsciiCodes(HexEncode(b[1..])) by {
      EncodedHead(b);
    }
    assert |h| % 2 == 0 by {
      Twice(|b|);
    }
    DecodePairsCons(h, offset, b[1..]);
    assert [b[0]] + b[1..] == b;
  }

  /** The first two codes of the encoding are the digits of the first byte,
      and the rest encode the rest. */
  lemma EncodedHead(b: seq<byte>)
    requires b != []
    ensures IsAscii(HexEncode(b)) && IsAscii(HexEncode(b[1..]))
    ensures var h := AsciiCodes(HexEncode(b));
      && |h| >= 2 && IsHexDigit(h[0]) && IsHexDigit(h[1])
      && HexValue(h[0]) * 16 + HexValue(h[1]) == b[0]
      && h[2..] == AsciiCodes(HexEncode(b[1..]))
  {
    HexEncodeIsAscii(b);
    HexEncodeIsAscii(b[1..]);
    var h := AsciiCodes(HexEncode(b));
    assert h[0] == LowerHexDigit(b[0] / 16) as int;
    assert h[1] == LowerHexDigit(b[0] % 16) as int;
    var t := AsciiCodes(HexEncode(b[1..]));
    assert |h[2..]| == |t|;
    forall i | 0 <= i < |t|
      ensures h[2..][i] == t[i]
    {
      assert HexEncode(b)[i + 2] == HexEncode(b[1..])[i];
    }
  }

  /** Two good digits in front of a decodable rest decode to one more byte. */
  lemma DecodePairsCons(h: seq<byte>, offset: nat, rest: seq<byte>)
    requires |h| >= 2 && |h| % 2 == 0 && IsHexDigit(h[0]) && IsHexDigit(h[1])
    requires DecodePairs(h[2..], offset + 2) == Ok(rest)
    ensures DecodePairs(h, offset) == Ok([HexValue(h[0]) * 16 + HexValue(h[1])] + rest)
  {
  }

  /** Decoding the ASCII codes of `hex::encode`'s output gives the bytes back. */
  lemma HexRoundTrip(b: seq<byte>)
    ensures IsAscii(HexEncode(b))
    ensures HexDecode(AsciiCodes(HexEncode(b))) == Ok(b)
  {
    HexEncodeIsAscii(b);
    var h := AsciiCodes(HexEncode(b));
    assert |h| % 2 == 0 by {
      Twice(|b|);
    }
    HexDecodeEven(h);
    DecodeEncoded(b, 0);
  }

  lemma Twice(n: nat)
    ensures (2 * n) % 2 == 0
  {
  }

  /** On an even number of codes, `hex::decode` is the pairwise decoder. */
  lemma HexDecodeEven(h: seq<byte>)
    requires |h| % 2 == 0
    ensures HexDecode(h) == DecodePairs(h, 0)
  {
  }

  // ----- The escape format -----

  predicate IsOctalDigit(c: byte) {
    0x30 <= c <= 0x37
  }

  /** `parse_bytes_traditional`: bytes are copied, except that `\\` stands
      for one backslash and `\d2d1d0` (d2 in 0-3, d1 and d0 in 0-7) for the
      byte with that octal value; any other escape is refused. */
  function ParseBytesTraditional(buf: seq<byte>): (r: Result<seq<byte>, Error>)
    ensures r.Ok? ==> |r.value| <= |buf|
    ensures r.Err? ==> r.error == Message("bytea input ends with escape character")
                       || r.error == Message("invalid bytea escape sequence")
  {
    if buf == [] then Ok([])
    else if buf[0] != Backslash then
      match ParseBytesTraditional(buf[1..])
      case Err(e) => Err(e)
      case Ok(rest) => Ok([buf[0]] + rest)
    else if |buf| == 1 then Err(Message("bytea input ends with escape character"))
    else if buf[1] == Backslash then
      match ParseBytesTraditional(buf[2..])
      case Err(e) => Err(e)
      case Ok(rest) => Ok([Backslash] + rest)
    else if |buf| >= 4 && 0x30 <= buf[1] <= 0x33 && IsOctalDigit(buf[2]) && IsOctalDigit(buf[3]) then
      // The value is at most 3*64 + 7*8 + 7 = 255, which the `byte` type checks.
      var v := (buf[1] - 0x30) * 64 + (buf[2] - 0x30) * 8 + (buf[3] - 0x30);
      match ParseBytesTraditional(buf[4..])
      case Err(e) => Err(e)
      case Ok(rest) => Ok([v] + rest)
    else Err(Message("invalid bytea escape sequence"))
  }

  /** Input without a backslash is copied unchanged. */
  lemma {:induction false} TraditionalCopiesPlainBytes(buf: seq<byte>)
    requires forall i | 0 <= i < |buf| :: buf[i] != Backslash
    ensures ParseBytesTraditional(buf) == Ok(buf)
  {
    if buf != [] {
      TraditionalCopiesPlainBytes(buf[1..]);
      assert buf == [buf[0]] + buf[1..];
    }
  }

  /** PostgreSQL's escape-format output for one byte: a backslash is doubled,
      a byte outside the printable ASCII range becomes `\` and three octal
      digits, and every other byte stands for itself. */
  function EscapeByte(b: byte): seq<byte> {
    if b == Backslash then [Backslash, Backslash]
    else if b < 0x20 || b > 0x7E then [Backslash, 0x30 + b / 64, 0x30 + (b / 8) % 8, 0x30 + b % 8]
    else [b]
  }

  function EscapeFormat(b: seq<byte>): seq<byte> {
    if b == [] then [] else EscapeByte(b[0]) + EscapeFormat(b[1..])
  }

  lemma EscapeByteReadsBack(b: byte, rest: seq<byte>)
    ensures ParseBytesTraditional(EscapeByte(b) + rest) ==
            match ParseBytesTraditional(rest)
            case Err(e) => Err(e)
            case Ok(r) => Ok([b] + r)
  {
    var s := EscapeByte(b) + rest;
    if b == Backslash {
      assert s[2..] == rest;
    } else if b < 0x20 || b > 0x7E {
      OctalEscapeReadsBack(b, rest);
    } else {
      PlainStep(b, rest);
    }
  }

  lemma OctalEscapeReadsBack(b: byte, rest: seq<byte>)
    requires b != Backslash && (b < 0x20 || b > 0x7E)
    ensures ParseBytesTraditional(EscapeByte(b) + rest) ==
            match ParseBytesTraditional(rest)
            case Err(e) => Err(e)
            case Ok(r) => Ok([b] + r)
  {
    var s := EscapeByte(b) + rest;
    OctalDigits(b);
    assert |s| >= 4 && s[0] == Backslash && s[4..] == rest;
    assert (s[1] - 0x30) * 64 + (s[2] - 0x30) * 8 + (s[3] - 0x30) == b;
    OctalAt(s);
  }

  /** The three octal digits of a byte, most significant first. */
  lemma OctalDigits(b: byte)
    ensures b / 64 <= 3 && (b / 8) % 8 < 8 && b % 8 < 8
    ensures (b / 64) * 64 + ((b / 8) % 8) * 8 + b % 8 == b
  {
  }

  /** A backslash and three octal digits stand for the byte with that value. */
  lemma OctalAt(buf: seq<byte>)
    requires |buf| >= 4 && buf[0] == Backslash && 0x30 <= buf[1] <= 0x33
    requires IsOctalDigit(buf[2]) && IsOctalDigit(buf[3])
    ensures ParseBytesTraditional(buf) ==
            match ParseBytesTraditional(buf[4..])
            case Err(e) => Err(e)
            case Ok(r) => Ok([(buf[1] - 0x30) * 64 + (buf[2] - 0x30) * 8 + (buf[3] - 0x30)] + r)
  {
  }

  /** The escape format the traditional parser accepts is the one PostgreSQL
      writes: parsing the escape-format text of any bytes gives them back. */
  lemma {:induction false} EscapeFormatRoundTrip(b: seq<byte>)
    ensures ParseBytesTraditional(EscapeFormat(b)) == Ok(b)
  {
    if b != [] {
      EscapeFormatRoundTrip(b[1..]);
      EscapeByteReadsBack(b[0], EscapeFormat(b[1..]));
      assert b == [b[0]] + b[1..];
    }
  }

  // ----- parse_bytes / format_bytes -----

  /** `parse_bytes`: text starting with `\x` is hex, anything else is in the
      escape format; both read the UTF-8 bytes of the text. */
  function ParseBytes(s: string): (r: Result<seq<byte>, Error>)
    ensures |s| >= 2 && s[..2] == "\\x" ==> (r.Ok? ==> 2 * |r.value| == |Utf8Encode(s)| - 2)
    ensures |s| >= 2 && s[..2] == "\\x" ==>
      var h := Utf8Encode(s[2..]);
      (r.Ok? <==> |h| % 2 == 0 && forall i | 0 <= i < |h| :: IsHexDigit(h[i]))
    ensures !(|s| >= 2 && s[..2] == "\\x") && r.Ok? ==> |r.value| <= |Utf8Encode(s)|
  {
    if |s| >= 2 && s[..2] == "\\x" then
      Utf8EncodeAppend(s[..2], s[2..]);
      assert s == s[..2] + s[2..];
      HexDecode(Utf8Encode(s[2..]))
    else ParseBytesTraditional(Utf8Encode(s))
  }

  /** Input starting with `\x` is the hex decoding of the UTF-8 bytes after it. */
  lemma ParseBytesHex(s: string)
    requires |s| >= 2 && s[..2] == "\\x"
    ensures ParseBytes(s) == HexDecode(Utf8Encode(s[2..]))
  {
  }

  /** `format_bytes`: `\x` and the lower-case hex digits, which never need
      escaping, and which `parse_bytes` reads back as the same bytes. */
  function FormatBytes(b: seq<byte>): (r: Formatted)
    ensures r.nest == Yes
    ensures |r.text| == 2 + 2 * |b| && r.text[..2] == "\\x"
    ensures ParseBytes(r.text) == Ok(b)
  {
    var t := "\\x" + HexEncode(b);
    HexRoundTrip(b);
    assert t[2..] == HexEncode(b);
    Utf8EncodeAscii(HexEncode(b));
    Formatted(t, Yes)
  }

  /** Text that does not start with `\x` is read in the escape format. */
  lemma ParseBytesNotHex(s: string)
    requires !(|s| >= 2 && s[..2] == "\\x")
    ensures ParseBytes(s) == ParseBytesTraditional(Utf8Encode(s))
  {
  }

  /** The doc example of `format_bytes`: `hello` is written `\x68656c6c6f`. */
  lemma FormatHello()
    ensures FormatBytes([0x68, 0x65, 0x6c, 0x6c, 0x6f]).text == "\\x68656c6c6f"
  {
    HelloDigits();
    FormatBytesText([0x68, 0x65, 0x6c, 0x6c, 0x6f]);
    ShapeHello();
  }

  lemma ShapeHello()
    ensures "\\x" + "68656c6c6f" == "\\x68656c6c6f"
  {
  }

  /** ... and `parse_bytes` reads that text back as `hello`. */
  lemma ParseHexHello()
    ensures ParseBytes("\\x68656c6c6f") == Ok([0x68, 0x65, 0x6c, 0x6c, 0x6f])
  {
    var b: seq<byte> := [0x68, 0x65, 0x6c, 0x6c, 0x6f];
    var f := FormatBytes(b);
    FormatHello();
  }

  lemma FormatBytesText(b: seq<byte>)
    ensures FormatBytes(b).text == "\\x" + HexEncode(b)
  {
  }

  lemma HexEncodeCons(x: byte, r: seq<byte>)
    ensures HexEncode([x] + r) == [LowerHexDigit(x / 16), LowerHexDigit(x % 16)] + HexEncode(r)
  {
    assert ([x] + r)[0] == x && ([x] + r)[1..] == r;
  }

  lemma HelloDigits()
    ensures HexEncode([0x68, 0x65, 0x6c, 0x6c, 0x6f]) == "68656c6c6f"
  {
    var t4: seq<byte> := [0x65] + [0x6c, 0x6c, 0x6f];
    HelloMid();
    HelloNibbles();
    HexEncodeCons(0x68, t4);
    HelloShape();
  }

  lemma HelloMid()
    ensures HexEncode([0x65] + [0x6c, 0x6c, 0x6f]) == "65" + "6c6c6f"
  {
    HelloNibbles();
    HelloTail();
    HexEncodeCons(0x65, [0x6c, 0x6c, 0x6f]);
  }

  lemma HelloShape()
    ensures var b: seq<byte> := [0x68] + ([0x65] + [0x6c, 0x6c, 0x6f]); b == [0x68, 0x65, 0x6c, 0x6c, 0x6f]
    ensures ['6', '8'] + ("65" + "6c6c6f") == "68656c6c6f"
  {
  }

  lemma HelloTail()
    ensures HexEncode([0x6c, 0x6c, 0x6f]) == "6c6c6f"
  {
    HelloNibbles();
    HexEncodeCons(0x6f, []);
    HexEncodeCons(0x6c, [0x6f]);
    HexEncodeCons(0x6c, [0x6c, 0x6f]);
    assert HexEncode([]) == [];
  }

  lemma HelloNibbles()
    ensures LowerHexDigit(6) == '6' && LowerHexDigit(8) == '8' && LowerHexDigit(5) == '5'
    ensures LowerHexDigit(0xc) == 'c' && LowerHexDigit(0xf) == 'f'
  {
  }

  /** `\154` is octal for `l`. */
  lemma ParseEscapedHello()
    ensures ParseBytes("hel\\154o") == Ok([0x68, 0x65, 0x6c, 0x6c, 0x6f])
  {
    EscapedHelloBytes();
    EscapedHelloParsed();
  }

  lemma EscapedHelloBytes()
    ensures ParseBytes("hel\\154o") == ParseBytesTraditional([0x68, 0x65, 0x6c, 0x5c, 0x31, 0x35, 0x34, 0x6f])
  {
    TraditionalInput("hel\\154o", [0x68, 0x65, 0x6c, 0x5c, 0x31, 0x35, 0x34, 0x6f]);
  }

  lemma EscapedHelloParsed()
    ensures ParseBytesTraditional([0x68, 0x65, 0x6c, 0x5c, 0x31, 0x35, 0x34, 0x6f]) == Ok([0x68, 0x65, 0x6c, 0x6c, 0x6f])
  {
    OctalL();
    PlainPrefix([0x68, 0x65, 0x6c], [0x5c, 0x31, 0x35, 0x34, 0x6f], [0x6c, 0x6f]);
    assert [0x68, 0x65, 0x6c] + [0x5c, 0x31, 0x35, 0x34, 0x6f] == [0x68, 0x65, 0x6c, 0x5c, 0x31, 0x35, 0x34, 0x6f];
    assert [0x68, 0x65, 0x6c] + [0x6c, 0x6f] == [0x68, 0x65, 0x6c, 0x6c, 0x6f];
  }

  /** Text not starting with `\x` is read in the escape format. */
  lemma TraditionalInput(s: string, u: seq<byte>)
    requires 0 < |s| && s[0] != '\\'
    requires |s| == |u| && forall i | 0 <= i < |s| :: s[i] as int == u[i]
    requires forall i | 0 <= i < |u| :: u[i] < 0x80
    ensures ParseBytes(s) == ParseBytesTraditional(u)
  {
    assert !(|s| >= 2 && s[..2] == "\\x") by {
      if |s| >= 2 {
        assert s[..2][0] == s[0];
      }
    }
    ParseBytesNotHex(s);
    AsciiBytesOf(s, u);
  }

  lemma OctalL()
    ensures ParseBytesTraditional([0x5c, 0x31, 0x35, 0x34, 0x6f]) == Ok([0x6c, 0x6f])
  {
    var u: seq<byte> := [0x5c, 0x31, 0x35, 0x34, 0x6f];
    assert u[4..] == [0x6f];
    PlainPrefix([0x6f], [], []);
    assert [0x6f] + [] == [0x6f] && [0x6c] + [0x6f] == [0x6c, 0x6f];
  }

  /** A prefix without backslashes is copied in front of what follows. */
  lemma {:induction false} PlainPrefix(p: seq<byte>, rest: seq<byte>, out: seq<byte>)
    requires forall i | 0 <= i < |p| :: p[i] != Backslash
    requires ParseBytesTraditional(rest) == Ok(out)
    ensures ParseBytesTraditional(p + rest) == Ok(p + out)
  {
    if p == [] {
      assert p + rest == rest && p + out == out;
    } else {
      PlainPrefix(p[1..], rest, out);
      ConsSplit(p, rest);
      ConsSplit(p, out);
      PlainStep(p[0], p[1..] + rest);
    }
  }

  /** A byte other than a backslash is copied and parsing goes on after it. */
  lemma PlainStep(c: byte, t: seq<byte>)
    requires c != Backslash
    ensures ParseBytesTraditional([c] + t) ==
            match ParseBytesTraditional(t)
            case Err(e) => Err(e)
            case Ok(r) => Ok([c] + r)
  {
    assert ([c] + t)[1..] == t;
  }

  lemma ConsSplit(p: seq<byte>, x: seq<byte>)
    requires p != []
    ensures p + x == [p[0]] + (p[1..] + x)
  {
    assert p == [p[0]] + p[1..];
    ConcatAssoc([p[0]], p[1..], x);
  }

  /** A prefix without backslashes does not hide an error after it. */
  lemma {:induction false} PlainPrefixErr(p: seq<byte>, rest: seq<byte>, e: Error)
    requires forall i | 0 <= i < |p| :: p[i] != Backslash
    requires ParseBytesTraditional(rest) == Err(e)
    ensures ParseBytesTraditional(p + rest) == Err(e)
  {
    if p == [] {
      assert p + rest == rest;
    } else {
      PlainPrefixErr(p[1..], rest, e);
      ConsSplit(p, rest);
      PlainStep(p[0], p[1..] + rest);
    }
  }

  /** An escape that is neither `\\` nor three octal digits is refused. */
  lemma ParseBadEscape()
    ensures ParseBytes("bad\\9") == Err(Message("invalid bytea escape sequence"))
  {
    var u: seq<byte> := [0x62, 0x61, 0x64, 0x5c, 0x39];
    TraditionalInput("bad\\9", u);
    BadEscapeBytes();
  }

  lemma BadEscapeBytes()
    ensures ParseBytesTraditional([0x62, 0x61, 0x64, 0x5c, 0x39]) == Err(Message("invalid bytea escape sequence"))
  {
    var e := Message("invalid bytea escape sequence");
    assert ParseBytesTraditional([0x5c, 0x39]) == Err(e);
    PlainPrefixErr([0x62, 0x61, 0x64], [0x5c, 0x39], e);
    assert [0x62, 0x61, 0x64] + [0x5c, 0x39] == [0x62, 0x61, 0x64, 0x5c, 0x39];
  }

  /** A lone trailing backslash is refused. */
  lemma ParseTrailingBackslash()
    ensures ParseBytes("ab\\") == Err(Message("bytea input ends with escape character"))
  {
    var u: seq<byte> := [0x61, 0x62, 0x5c];
    TraditionalInput("ab\\", u);
    TrailingBackslashBytes();
  }

  lemma TrailingBackslashBytes()
    ensures ParseBytesTraditional([0x61, 0x62, 0x5c]) == Err(Message("bytea input ends with escape character"))
  {
    var e := Message("bytea input ends with escape character");
    assert ParseBytesTraditional([0x5c]) == Err(e);
    PlainPrefixErr([0x61, 0x62], [0x5c], e);
    assert [0x61, 0x62] + [0x5c] == [0x61, 0x62, 0x5c];
  }

  /** The UTF-8 bytes of a short ASCII literal, stated point by point. */
  lemma AsciiBytesOf(s: string, u: seq<byte>)
    requires |s| == |u| && forall i | 0 <= i < |s| :: s[i] as int == u[i]
    requires forall i | 0 <= i < |u| :: u[i] < 0x80
    ensures Utf8Encode(s) == u
  {
    Utf8EncodeAscii(s);
  }
}
