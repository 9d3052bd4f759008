/**
 * `escape_list_elem` of `repr::strconv`: the in-place rewrite that quotes a
 * list element and backslash-escapes its quotes and backslashes.
 *
 * The source works on the UTF-8 bytes of the output buffer. The method
 * below does the same, on a sequence of bytes, with the source's backward
 * walk; the in-place update of the buffer becomes a new sequence. The list formatter and parser reason about characters, so the
 * same escaping is also defined on strings, and the bridge lemmas at the
 * end prove that escaping the UTF-8 encoding of a string is the UTF-8
 * encoding of the escaped string: every byte the escaper looks at or
 * inserts is ASCII, and no byte of a multi-byte character is ASCII.
 */
module ListEscape {
  import opened Text

  /** The list literal syntax as the source writes it, and a variant with
      the repairs this model proposes (see the findings in the README). */
  datatype Variant = AsWritten | Corrected

  /** Characters that force an element of a list literal to be quoted. */
  predicate IsSpecial(c: char) {
    c == '{' || c == '}' || c == ',' || c == ' ' || c == '"' || c == '\\'
  }

  /** Characters that are backslash-escaped inside a quoted element. */
  predicate IsEscaped(c: char) {
    c == '"' || c == '\\'
  }

  predicate HasSpecial(e: string) {
    exists i | 0 <= i < |e| :: IsSpecial(e[i])
  }

  /** Whether an element that may need escaping is written quoted. The
      source quotes the empty text, the text `NULL` and text with a special
      character; the corrected variant also quotes text with whitespace,
      which the parser would otherwise trim before comparing with `NULL`. */
  predicate NeedsQuoting(e: string, v: Variant) {
    || e == []
    || e == "NULL"
    || HasSpecial(e)
    || (v == Corrected && HasWhitespace(e))
  }

  function EscapeChar(c: char): string {
    if IsEscaped(c) then ['\\', c] else [c]
  }

  /** The inside of a quoted element: each quote and backslash gets a backslash. */
  function EscapeBody(e: string): string {
    if e == [] then [] else EscapeChar(e[0]) + EscapeBody(e[1..])
  }

  /** The quoted form of an element. */
  function Quote(e: string): string {
    "\"" + EscapeBody(e) + "\""
  }

  // ---------------------------------------------------------------------
  // The same escaping on UTF-8 bytes, as the source performs it.

  const QuoteByte: byte := 0x22
  const BackslashByte: byte := 0x5C

  /** `{`, `}`, `,`, space, `"` and `\`. */
  predicate IsSpecialByte(b: byte) {
    b == 0x7B || b == 0x7D || b == 0x2C || b == 0x20 || b == QuoteByte || b == BackslashByte
  }

  predicate IsEscapedByte(b: byte) {
    b == QuoteByte || b == BackslashByte
  }

  predicate HasSpecialByte(e: seq<byte>) {
    exists i | 0 <= i < |e| :: IsSpecialByte(e[i])
  }

  /** The bytes of `NULL`. */
  const NullBytes: seq<byte> := [0x4E, 0x55, 0x4C, 0x4C]

  /** The test at the head of `escape_list_elem`. */
  predicate NeedsQuotingBytes(e: seq<byte>) {
    e == [] || e == NullBytes || HasSpecialByte(e)
  }

  /** The number of quotes and backslashes, each of which costs one extra byte. */
  function CountEscapes(e: seq<byte>): nat {
    if e == [] then 0 else (if IsEscapedByte(e[0]) then 1 else 0) + CountEscapes(e[1..])
  }

  function EscapedByte(b: byte): seq<byte> {
    if IsEscapedByte(b) then [BackslashByte, b] else [b]
  }

  function EscapeBodyBytes(e: seq<byte>): (r: seq<byte>)
    ensures |r| == |e| + CountEscapes(e)
  {
    if e == [] then [] else EscapedByte(e[0]) + EscapeBodyBytes(e[1..])
  }

  function QuoteBytes(e: seq<byte>): seq<byte> {
    [QuoteByte] + EscapeBodyBytes(e) + [QuoteByte]
  }

  lemma {:induction false} CountEscapesAppend(a: seq<byte>, b: seq<byte>)
    ensures CountEscapes(a + b) == CountEscapes(a) + CountEscapes(b)
  {
    if a == [] {
      assert a + b == b;
    } else {
      assert (a + b)[1..] == a[1..] + b;
      CountEscapesAppend(a[1..], b);
    }
  }

  /**
   * `escape_list_elem(buf, start)`: the element is `buf[start..]`. If it
   * needs quoting, the buffer is padded by two bytes plus one per quote or
   * backslash and the element is rewritten in place, walking backwards so
   * that no byte is read after it has been overwritten; the write index
   * lands exactly on `start`, which the source asserts.
   */
  method EscapeListElem(buf: seq<byte>, start: nat) returns (out: seq<byte>)
    requires start <= |buf|
    ensures !NeedsQuotingBytes(buf[start..]) ==> out == buf
    ensures NeedsQuotingBytes(buf[start..]) ==> out == buf[..start] + QuoteBytes(buf[start..])
  {
    var elem := buf[start..];
    if !NeedsQuotingBytes(elem) {
      return buf;
    }
    var extras := 2 + CountEscapes(elem);
    var origEnd := |buf|;
    var newEnd := origEnd + extras;
    // The buffer grows by `extras` padding bytes, all overwritten below.
    var a: seq<byte> := buf + Zeros(extras);
    var wi: nat := newEnd - 1;
    a := a[wi := QuoteByte];
    wi := wi - 1;
    StartInv(buf, start, a, wi);
    a, wi := Walk(buf, start, a, wi);
    FinishInv(buf, start, a, wi);
    a := a[wi := QuoteByte];
    assert wi == start;
    out := a;
  }

  /** The backward loop of `escape_list_elem`: reads the element from its
      end and writes each byte, and a backslash before a quote or a
      backslash, from the end of the padded buffer. */
  method Walk(buf: seq<byte>, start: nat, a0: seq<byte>, wi0: nat) returns (a: seq<byte>, wi: nat)
    requires WalkInv(buf, start, |a0|, a0, |buf|, wi0)
    ensures WalkInv(buf, start, |a0|, a, start, wi)
  {
    a, wi := a0, wi0;
    var ri: nat := |buf|;
    while ri > start
      invariant WalkInv(buf, start, |a0|, a, ri, wi)
      decreases ri
    {
      ri := ri - 1;
      StepInv(buf, start, |a0|, a, ri, wi);
      var c := a[ri];
      a := a[wi := c];
      wi := wi - 1;
      if IsEscapedByte(a[ri]) {
        a := a[wi := BackslashByte];
        wi := wi - 1;
      }
    }
  }

  /** When the walk reaches `start`, so does the write index, and writing
      the opening quote there completes the quoted element. */
  lemma FinishInv(buf: seq<byte>, start: nat, a: seq<byte>, wi: nat)
    requires WalkInv(buf, start, |a|, a, start, wi)
    ensures wi == start && a[wi := QuoteByte] == buf[..start] + QuoteBytes(buf[start..])
  {
    var a' := a[wi := QuoteByte];
    assert a' == a'[..start] + [a'[start]] + a'[start + 1..];
  }

  /** The state of the backward walk once `buf[ri..]` has been rewritten:
      the unread prefix is intact, `wi` is the next index to write, and the
      bytes after it are the escaped suffix and the closing quote. */
  ghost predicate WalkInv(buf: seq<byte>, start: nat, newEnd: nat, a: seq<byte>, ri: nat, wi: nat) {
    && start <= ri <= |buf| && |a| == newEnd && wi < newEnd
    && wi == ri + CountEscapes(buf[start..ri])
    && a[..ri] == buf[..ri]
    && a[wi + 1..] == EscapeBodyBytes(buf[ri..]) + [QuoteByte]
  }

  lemma StartInv(buf: seq<byte>, start: nat, a: seq<byte>, wi: nat)
    requires start <= |buf| && |a| == |buf| + 2 + CountEscapes(buf[start..])
    requires a[..|buf|] == buf && wi + 1 == |a| - 1 && a[wi + 1] == QuoteByte
    ensures WalkInv(buf, start, |a|, a, |buf|, wi)
  {
    assert buf[start..|buf|] == buf[start..];
    assert a[..|buf|] == buf[..|buf|];
    assert a[wi + 1..] == [QuoteByte];
    assert buf[|buf|..] == [];
  }

  /** One step of the walk, reading `buf[ri]`, keeps `WalkInv`; the read
      index is always below the write index, so the byte read is intact. */
  lemma StepInv(buf: seq<byte>, start: nat, newEnd: nat, a: seq<byte>, ri: nat, wi: nat)
    requires WalkInv(buf, start, newEnd, a, ri + 1, wi)
    requires start <= ri
    ensures a[ri] == buf[ri] && ri + 1 <= wi
    ensures IsEscapedByte(buf[ri]) ==> ri + 2 <= wi && WalkInv(buf, start, newEnd, a[wi := buf[ri]][wi - 1 := BackslashByte], ri, wi - 2)
    ensures !IsEscapedByte(buf[ri]) ==> WalkInv(buf, start, newEnd, a[wi := buf[ri]], ri, wi - 1)
  {
    assert a[ri] == a[..ri + 1][ri];
    if IsEscapedByte(buf[ri]) {
      StepInvEscaped(buf, start, newEnd, a, ri, wi);
    } else {
      StepInvPlain(buf, start, newEnd, a, ri, wi);
    }
  }

  lemma StepInvEscaped(buf: seq<byte>, start: nat, newEnd: nat, a: seq<byte>, ri: nat, wi: nat)
    requires WalkInv(buf, start, newEnd, a, ri + 1, wi)
    requires start <= ri && IsEscapedByte(buf[ri])
    ensures ri + 2 <= wi && WalkInv(buf, start, newEnd, a[wi := buf[ri]][wi - 1 := BackslashByte], ri, wi - 2)
  {
    StepFacts(buf, start, ri);
    var tail := a[wi + 1..];
    var a' := a[wi := buf[ri]][wi - 1 := BackslashByte];
    assert a'[..ri] == a[..ri];
    assert a'[wi + 1..] == tail;
    assert a'[wi - 1..] == [BackslashByte, buf[ri]] + tail;
    ConcatAssoc(EscapedByte(buf[ri]), EscapeBodyBytes(buf[ri + 1..]), [QuoteByte]);
  }

  lemma StepInvPlain(buf: seq<byte>, start: nat, newEnd: nat, a: seq<byte>, ri: nat, wi: nat)
    requires WalkInv(buf, start, newEnd, a, ri + 1, wi)
    requires start <= ri && !IsEscapedByte(buf[ri])
    ensures ri + 1 <= wi && WalkInv(buf, start, newEnd, a[wi := buf[ri]], ri, wi - 1)
  {
    StepFacts(buf, start, ri);
    var tail := a[wi + 1..];
    var a' := a[wi := buf[ri]];
    assert a'[..ri] == a[..ri];
    assert a'[wi + 1..] == tail;
    assert a'[wi..] == [buf[ri]] + tail;
    ConcatAssoc(EscapedByte(buf[ri]), EscapeBodyBytes(buf[ri + 1..]), [QuoteByte]);
  }

  /** `n` zero bytes. */
  function Zeros(n: nat): (r: seq<byte>)
    ensures |r| == n
  {
    if n == 0 then [] else [0] + Zeros(n - 1)
  }

  /** How one step of the backward walk splits the element. */
  lemma StepFacts(buf: seq<byte>, start: nat, ri: nat)
    requires start <= ri < |buf|
    ensures CountEscapes(buf[start..ri + 1]) == CountEscapes(buf[start..ri]) + (if IsEscapedByte(buf[ri]) then 1 else 0)
    ensures EscapeBodyBytes(buf[ri..]) == EscapedByte(buf[ri]) + EscapeBodyBytes(buf[ri + 1..])
  {
    assert buf[start..ri + 1] == buf[start..ri] + [buf[ri]];
    CountEscapesAppend(buf[start..ri], [buf[ri]]);
    assert buf[ri..][1..] == buf[ri + 1..];
  }

  // ---------------------------------------------------------------------
  // Bridge between the byte-level and the character-level escaping.

  lemma {:induction false} HasSpecialByteAppend(a: seq<byte>, b: seq<byte>)
    ensures HasSpecialByte(a + b) <==> HasSpecialByte(a) || HasSpecialByte(b)
  {
    if HasSpecialByte(a + b) {
      var i :| 0 <= i < |a + b| && IsSpecialByte((a + b)[i]);
      if i < |a| {
        assert IsSpecialByte(a[i]);
      } else {
        assert IsSpecialByte(b[i - |a|]);
      }
    }
    if HasSpecialByte(a) {
      var i :| 0 <= i < |a| && IsSpecialByte(a[i]);
      assert (a + b)[i] == a[i];
    }
    if HasSpecialByte(b) {
      var i :| 0 <= i < |b| && IsSpecialByte(b[i]);
      assert (a + b)[|a| + i] == b[i];
    }
  }

  lemma EncodeCharSpecial(c: char)
    ensures HasSpecialByte(Utf8EncodeChar(c)) <==> IsSpecial(c)
  {
    var r := Utf8EncodeChar(c);
    if c as int < 0x80 {
      assert r == [c as int];
      if IsSpecial(c) {
        assert IsSpecialByte(r[0]);
      }
    }
  }

  /** A string has a special character iff its UTF-8 encoding has a special byte. */
  lemma {:induction false} EncodeSpecial(e: string)
    ensures HasSpecialByte(Utf8Encode(e)) <==> HasSpecial(e)
  {
    if e == [] {
      assert !HasSpecialByte([]);
    } else {
      EncodeSpecial(e[1..]);
      EncodeCharSpecial(e[0]);
      HasSpecialByteAppend(Utf8EncodeChar(e[0]), Utf8Encode(e[1..]));
      if HasSpecial(e) {
        var i :| 0 <= i < |e| && IsSpecial(e[i]);
        if i > 0 {
          assert IsSpecial(e[1..][i - 1]);
        }
      }
      if HasSpecial(e[1..]) {
        var i :| 0 <= i < |e[1..]| && IsSpecial(e[1..][i]);
        assert IsSpecial(e[i + 1]);
      }
    }
  }

  /** Text whose UTF-8 encoding is all ASCII bytes is ASCII text. */
  lemma {:induction false} AsciiBytesMeanAsciiText(e: string)
    requires forall k | 0 <= k < |Utf8Encode(e)| :: Utf8Encode(e)[k] < 0x80
    ensures IsAscii(e)
  {
    if e != [] {
      var first := Utf8EncodeChar(e[0]);
      assert Utf8Encode(e) == first + Utf8Encode(e[1..]);
      assert Utf8Encode(e)[0] == first[0];
      forall k | 0 <= k < |Utf8Encode(e[1..])|
        ensures Utf8Encode(e[1..])[k] < 0x80
      {
        assert Utf8Encode(e)[|first| + k] == Utf8Encode(e[1..])[k];
      }
      AsciiBytesMeanAsciiText(e[1..]);
      forall i | 0 <= i < |e|
        ensures e[i] as int < 0x80
      {
        if i > 0 {
          assert e[i] == e[1..][i - 1];
        }
      }
    }
  }

  /** The element is the four bytes `NULL` exactly when it is the text `NULL`. */
  lemma EncodeNull(e: string)
    ensures Utf8Encode(e) == NullBytes <==> e == "NULL"
  {
    assert IsAscii("NULL");
    Utf8EncodeAscii("NULL");
    if Utf8Encode(e) == NullBytes {
      AsciiBytesMeanAsciiText(e);
      Utf8EncodeAscii(e);
      assert |e| == 4;
      assert e[0] as int == 0x4E && e[1] as int == 0x55 && e[2] as int == 0x4C && e[3] as int == 0x4C;
      assert e == "NULL";
    }
  }

  lemma EncodeEmpty(e: string)
    ensures Utf8Encode(e) == [] <==> e == []
  {
  }

  /** The byte-level test of `escape_list_elem` decides, on the UTF-8 encoding
      of an element, exactly what `NeedsQuoting` decides on its characters. */
  lemma NeedsQuotingEncoded(e: string)
    ensures NeedsQuotingBytes(Utf8Encode(e)) <==> NeedsQuoting(e, AsWritten)
  {
    EncodeEmpty(e);
    EncodeNull(e);
    EncodeSpecial(e);
  }

  lemma {:induction false} EscapeBodyBytesAppend(a: seq<byte>, b: seq<byte>)
    ensures EscapeBodyBytes(a + b) == EscapeBodyBytes(a) + EscapeBodyBytes(b)
  {
    if a == [] {
      assert a + b == b;
    } else {
      assert (a + b)[1..] == a[1..] + b;
      EscapeBodyBytesAppend(a[1..], b);
    }
  }

  lemma {:induction false} EscapeBodyBytesPlain(b: seq<byte>)
    requires forall k | 0 <= k < |b| :: !IsEscapedByte(b[k])
    ensures EscapeBodyBytes(b) == b
  {
    if b != [] {
      EscapeBodyBytesPlain(b[1..]);
    }
  }

  lemma EscapeCharEncoded(c: char)
    ensures EscapeBodyBytes(Utf8EncodeChar(c)) == Utf8Encode(EscapeChar(c))
  {
    var r := Utf8EncodeChar(c);
    if IsEscaped(c) {
      assert r == [c as int];
      assert Utf8Encode(['\\', c]) == [0x5C] + Utf8Encode([c]);
      assert Utf8Encode([c]) == r + Utf8Encode([]);
      assert EscapeBodyBytes(r) == EscapedByte(r[0]) + EscapeBodyBytes([]);
    } else {
      assert Utf8Encode([c]) == r + Utf8Encode([]);
      EscapeBodyBytesPlain(r);
    }
  }

  lemma {:induction false} EscapeBodyEncoded(e: string)
    ensures EscapeBodyBytes(Utf8Encode(e)) == Utf8Encode(EscapeBody(e))
  {
    if e != [] {
      EscapeBodyEncoded(e[1..]);
      EscapeCharEncoded(e[0]);
      EscapeBodyBytesAppend(Utf8EncodeChar(e[0]), Utf8Encode(e[1..]));
      Utf8EncodeAppend(EscapeChar(e[0]), EscapeBody(e[1..]));
    }
  }

  /** Quoting the UTF-8 bytes of an element gives the UTF-8 bytes of its quoted form. */
  lemma QuoteEncoded(e: string)
    ensures QuoteBytes(Utf8Encode(e)) == Utf8Encode(Quote(e))
  {
    EscapeBodyEncoded(e);
    Utf8EncodeAppend("\"" + EscapeBody(e), "\"");
    Utf8EncodeAppend("\"", EscapeBody(e));
    assert Utf8Encode("\"") == [QuoteByte] + Utf8Encode([]);
  }

  /** `escape_list_elem` applied to an element written as UTF-8 text leaves the
      text alone or replaces it by the UTF-8 encoding of its quoted form. */
  lemma EscapeListElemOnText(prefix: seq<byte>, e: string)
    ensures NeedsQuotingBytes(Utf8Encode(e)) <==> NeedsQuoting(e, AsWritten)
    ensures NeedsQuoting(e, AsWritten) ==> QuoteBytes(Utf8Encode(e)) == Utf8Encode(Quote(e))
    ensures (prefix + Utf8Encode(e))[|prefix|..] == Utf8Encode(e)
  {
    NeedsQuotingEncoded(e);
    QuoteEncoded(e);
    assert (prefix + Utf8Encode(e))[|prefix|..] == Utf8Encode(e);
  }
}
