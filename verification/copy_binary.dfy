/**
 * `pgcopy::to::binary`: the encoder of the binary `COPY TO` format of
 * PostgreSQL 14 (the "Binary Format" part of the COPY reference page). A
 * stream is a 19-byte header, one tuple per row (a 16-bit field count,
 * then per field a 32-bit length and that many bytes, or length -1 for
 * NULL), and a 16-bit -1 trailer. All integers are big-endian.
 *
 * The encoder is an immutable record; each `&mut self` method returns the
 * next record. A row is a sequence of optional datums (`None` is the null
 * datum, for which `Value::from_datum` yields `None`); the binary encoding
 * of a non-null datum is a parameter, `payload`.
 */
module CopyBinary {
  import opened Results
  import opened Text
  import opened Cast

  /** `PGCOPY\n\377\r\n\0`. */
  const Signature: seq<byte> := [0x50, 0x47, 0x43, 0x4F, 0x50, 0x59, 0x0A, 0xFF, 0x0D, 0x0A, 0x00]

  /** The signature, a zero flags field and a zero header-extension length. */
  const Header: seq<byte> := Signature + [0, 0, 0, 0] + [0, 0, 0, 0]

  /** Big-endian two's complement of an `i16`. */
  function I16Be(v: int): (r: seq<byte>)
    requires I16Min <= v <= I16Max
    ensures |r| == 2
  {
    var u := v % 0x1_0000;
    [u / 0x100, u % 0x100]
  }

  /** Big-endian two's complement of an `i32`. */
  function I32Be(v: int): (r: seq<byte>)
    requires I32Min <= v <= I32Max
    ensures |r| == 4
  {
    var u := v % 0x1_0000_0000;
    [u / 0x100_0000, (u / 0x1_0000) % 0x100, (u / 0x100) % 0x100, u % 0x100]
  }

  /** The `i16` that the first two bytes hold. */
  function ReadI16(b: seq<byte>): (r: int)
    requires |b| >= 2
    ensures I16Min <= r <= I16Max
  {
    FromTwos(b[0] as int * 0x100 + b[1], 0x8000)
  }

  /** The `i32` that the first four bytes hold. */
  function ReadI32(b: seq<byte>): (r: int)
    requires |b| >= 4
    ensures I32Min <= r <= I32Max
  {
    FromTwos(((b[0] as int * 0x100 + b[1]) * 0x100 + b[2]) * 0x100 + b[3], 0x8000_0000)
  }

  lemma ReadI16Be(v: int, rest: seq<byte>)
    requires I16Min <= v <= I16Max
    ensures ReadI16(I16Be(v) + rest) == v
  {
    var u := v % 0x1_0000;
    var b := I16Be(v) + rest;
    assert b[0] as int * 0x100 + b[1] == u;
    TruncationIsLossless(v, 0x8000);
  }

  lemma ReadI32Be(v: int, rest: seq<byte>)
    requires I32Min <= v <= I32Max
    ensures ReadI32(I32Be(v) + rest) == v
  {
    var u := v % 0x1_0000_0000;
    var b := I32Be(v) + rest;
    BigEndianFour(u);
    assert ((b[0] as int * 0x100 + b[1]) * 0x100 + b[2]) * 0x100 + b[3] == u;
    TruncationIsLossless(v, 0x8000_0000);
  }

  /** The four big-endian bytes of a 32-bit pattern put back together. */
  lemma BigEndianFour(u: int)
    requires 0 <= u < 0x1_0000_0000
    ensures ((u / 0x100_0000 * 0x100 + (u / 0x1_0000) % 0x100) * 0x100 + (u / 0x100) % 0x100) * 0x100 + u % 0x100 == u
  {
    var hi, lo := u / 0x1_0000, u % 0x1_0000;
    DivDiv(u);
    assert u / 0x100_0000 * 0x100 + hi % 0x100 == hi;
    DivSplit(u, hi, lo);
    assert (u / 0x100) % 0x100 == lo / 0x100;
    assert u % 0x100 == lo % 0x100;
  }

  lemma DivDiv(u: int)
    requires 0 <= u
    ensures u / 0x1_0000 / 0x100 == u / 0x100_0000
  {
    var q, r := u / 0x1_0000, u % 0x1_0000;
    var q2, r2 := q / 0x100, q % 0x100;
    assert u == q2 * 0x100_0000 + (r2 * 0x1_0000 + r);
  }

  /** Dividing `hi * 0x1_0000 + lo` by 256 leaves `hi * 256 + lo / 256`. */
  lemma DivSplit(u: int, hi: int, lo: int)
    requires 0 <= lo < 0x1_0000 && hi >= 0 && u == hi * 0x1_0000 + lo
    ensures u / 0x100 == hi * 0x100 + lo / 0x100 && u % 0x100 == lo % 0x100
  {
    assert u == (hi * 0x100 + lo / 0x100) * 0x100 + lo % 0x100;
  }

  /** `NULL_ENCODING`: the length field of a null, `-1` as an `i32`. */
  const NullEncoding: seq<byte> := I32Be(-1)

  /** The trailer `finish` writes: a field count of `-1`. */
  const Trailer: seq<byte> := I16Be(-1)

  lemma MarkerBytes()
    ensures NullEncoding == [0xFF, 0xFF, 0xFF, 0xFF]
    ensures Trailer == [0xFF, 0xFF]
    ensures ReadI32(NullEncoding) == -1 && ReadI16(Trailer) == -1
  {
  }

  /** The header is the 11-byte signature, a zero flags field and a zero
      extension length: 19 bytes. */
  lemma HeaderLayout()
    ensures |Header| == 19
    ensures Header[..11] == AsciiCodes("PGCOPY\n") + [0xFF] + AsciiCodes("\r\n") + [0x00]
    ensures ReadI32(Header[11..]) == 0 && ReadI32(Header[15..]) == 0
  {
    SignatureText();
    HeaderFields();
  }

  lemma SignatureText()
    ensures Signature == AsciiCodes("PGCOPY\n") + [0xFF] + AsciiCodes("\r\n") + [0x00]
  {
    CrLfCodes();
    PgcopyCodes();
  }

  lemma CrLfCodes()
    ensures AsciiCodes("\r\n") == [0x0D, 0x0A]
  {
    var s := "\r\n";
    assert s[1..] == "\n";
  }

  lemma PgcopyCodes()
    ensures AsciiCodes("PGCOPY\n") == [0x50, 0x47, 0x43, 0x4F, 0x50, 0x59, 0x0A]
  {
    CodesOf("PGCOPY\n", [0x50, 0x47, 0x43, 0x4F, 0x50, 0x59, 0x0A]);
  }

  /** The byte codes of an ASCII literal, given point by point. */
  lemma CodesOf(s: string, u: seq<byte>)
    requires IsAscii(s) && |s| == |u|
    requires forall i | 0 <= i < |s| :: s[i] as int == u[i]
    ensures AsciiCodes(s) == u
  {
  }

  lemma HeaderFields()
    ensures |Header| == 19 && Header[..11] == Signature
    ensures Header[11..] == [0, 0, 0, 0, 0, 0, 0, 0] && Header[15..] == [0, 0, 0, 0]
    ensures ReadI32(Header[11..]) == 0 && ReadI32(Header[15..]) == 0
  {
  }

  /** `CopyToBinary`: the field count, the column types and the output buffer. */
  datatype Encoder<Ty> = Encoder(fieldCount: int, fieldTypes: seq<Ty>, outBuf: seq<byte>)

  /** What `new` establishes: the field count is the number of columns as an `i16`. */
  predicate Valid<Ty>(e: Encoder<Ty>) {
    e.fieldCount == |e.fieldTypes| <= I16Max
  }

  /** `CopyToBinary::new`. The column count is checked before anything is written. */
  function New<Ty>(fieldTypes: seq<Ty>): (r: Result<Encoder<Ty>, string>)
    ensures r.Ok? <==> |fieldTypes| <= I16Max
    ensures r.Ok? ==> Valid(r.value) && r.value.fieldTypes == fieldTypes && r.value.outBuf == Header
    ensures r.Err? ==> r.error == "field count does not fit into an i16"
  {
    FieldCountMessage();
    var fieldCount :- I16("field count", |fieldTypes|);
    Ok(Encoder(fieldCount, fieldTypes, Header))
  }

  lemma FieldCountMessage()
    ensures "field count" + " does not fit into an i16" == "field count does not fit into an i16"
  {
  }

  /** The field values of a row: `None` for a null datum, the binary
      encoding of the datum otherwise. */
  function Values<Ty, V>(row: seq<Option<V>>, tys: seq<Ty>, payload: (V, Ty) -> seq<byte>)
    : (r: seq<Option<seq<byte>>>)
    requires |row| == |tys|
    ensures |r| == |row|
  {
    if row == [] then []
    else [if row[0].None? then None else Some(payload(row[0].value, tys[0]))] + Values(row[1..], tys[1..], payload)
  }

  /** Column `i` of the encoded row is null exactly when the datum is, and
      otherwise holds the payload of the datum for the column's type. */
  lemma {:induction false} ValuesAt<Ty, V>(row: seq<Option<V>>, tys: seq<Ty>, payload: (V, Ty) -> seq<byte>, i: int)
    requires |row| == |tys| && 0 <= i < |row|
    ensures Values(row, tys, payload)[i].None? <==> row[i].None?
    ensures row[i].Some? ==> Values(row, tys, payload)[i] == Some(payload(row[i].value, tys[i]))
  {
    if i > 0 {
      ValuesAt(row[1..], tys[1..], payload, i - 1);
    }
  }

  /** Every value is short enough for its length to be an `i32`. */
  predicate Fits(vals: seq<Option<seq<byte>>>) {
    forall i | 0 <= i < |vals| :: vals[i].Some? ==> |vals[i].value| <= I32Max
  }

  /** One field of a tuple: the null marker, or the length and the bytes. */
  function FieldBytes(f: Option<seq<byte>>): (r: seq<byte>)
    requires f.Some? ==> |f.value| <= I32Max
  {
    if f.None? then NullEncoding else I32Be(|f.value|) + f.value
  }

  function FieldsBytes(vals: seq<Option<seq<byte>>>): seq<byte>
    requires Fits(vals)
  {
    if vals == [] then [] else FieldBytes(vals[0]) + FieldsBytes(vals[1..])
  }

  /** One tuple: the field count, then the fields in column order. */
  function TupleBytes(vals: seq<Option<seq<byte>>>): seq<byte>
    requires |vals| <= I16Max && Fits(vals)
  {
    I16Be(|vals|) + FieldsBytes(vals)
  }

  /** `encode_row` with a complete non-null branch (length, then payload). */
  function EncodeRow<Ty, V>(e: Encoder<Ty>, row: seq<Option<V>>, payload: (V, Ty) -> seq<byte>)
    : (r: Encoder<Ty>)
    requires Valid(e) && |row| == |e.fieldTypes|
    requires Fits(Values(row, e.fieldTypes, payload))
    ensures Valid(r) && r.fieldTypes == e.fieldTypes
    ensures |r.outBuf| >= |e.outBuf| + 2 && r.outBuf[..|e.outBuf|] == e.outBuf
  {
    var added := TupleBytes(Values(row, e.fieldTypes, payload));
    e.(outBuf := e.outBuf + added)
  }

  /** What `encode_row` appends starts with the row's field count. */
  lemma EncodeRowCount<Ty, V>(e: Encoder<Ty>, row: seq<Option<V>>, payload: (V, Ty) -> seq<byte>)
    requires Valid(e) && |row| == |e.fieldTypes|
    requires Fits(Values(row, e.fieldTypes, payload))
    ensures ReadI16(EncodeRow(e, row, payload).outBuf[|e.outBuf|..]) == |row|
  {
    var added := TupleBytes(Values(row, e.fieldTypes, payload));
    ReadI16Be(|row|, FieldsBytes(Values(row, e.fieldTypes, payload)));
    assert (e.outBuf + added)[|e.outBuf|..] == added;
  }

  /** A field as the source writes it: the null marker for a null and
      nothing at all for a value. */
  function FieldAsWritten<V>(d: Option<V>): (r: seq<byte>) {
    if d.None? then NullEncoding else []
  }

  function FieldsAsWritten<V>(row: seq<Option<V>>): seq<byte> {
    if row == [] then [] else FieldAsWritten(row[0]) + FieldsAsWritten(row[1..])
  }

  /** `encode_row` as written. */
  function EncodeRowAsWritten<Ty, V>(e: Encoder<Ty>, row: seq<Option<V>>): (r: Encoder<Ty>)
    requires Valid(e) && |row| == |e.fieldTypes|
    ensures Valid(r) && r.fieldTypes == e.fieldTypes
    ensures |r.outBuf| >= |e.outBuf| + 2 && r.outBuf[..|e.outBuf|] == e.outBuf
    ensures ReadI16(r.outBuf[|e.outBuf|..]) == |row|
  {
    var added := I16Be(e.fieldCount) + FieldsAsWritten(row);
    ReadI16Be(e.fieldCount, FieldsAsWritten(row));
    assert (e.outBuf + added)[|e.outBuf|..] == added;
    e.(outBuf := e.outBuf + added)
  }

  /** `flush`: hands over the buffered bytes and leaves the buffer empty. */
  function Flush<Ty>(e: Encoder<Ty>): (r: (Encoder<Ty>, seq<byte>))
    ensures r.0.outBuf == [] && r.1 == e.outBuf
    ensures r.0.fieldCount == e.fieldCount && r.0.fieldTypes == e.fieldTypes
  {
    (e.(outBuf := []), e.outBuf)
  }

  /** `finish`: the buffered bytes followed by the `-1` trailer. */
  function Finish<Ty>(e: Encoder<Ty>): (r: seq<byte>)
    ensures |r| == |e.outBuf| + 2 && r[..|e.outBuf|] == e.outBuf
    ensures ReadI16(r[|e.outBuf|..]) == -1
  {
    assert (e.outBuf + Trailer)[|e.outBuf|..] == Trailer;
    e.outBuf + Trailer
  }
}
