/**
 * A whole binary `COPY` stream: `new`, any interleaving of `encode_row`
 * and `flush`, then `finish`. The partner of the encoder is a reader of
 * the same file layout, written from the PostgreSQL 14 description of the
 * format; the stream the encoder produces reads back as the rows encoded,
 * however the flushes cut it.
 */
module CopyStream {
  import opened Results
  import opened Text
  import opened Cast
  import opened CopyBinary

  /** A decoded value and the bytes after it. */
  datatype Decoded<+T> = Decoded(value: T, rest: seq<byte>)

  /** One field: a length, then that many bytes; length `-1` is a null. */
  function DecodeField(b: seq<byte>): (r: Result<Decoded<Option<seq<byte>>>, string>)
    ensures r.Ok? ==> |r.value.rest| <= |b|
  {
    if |b| < 4 then Err("truncated field")
    else
      var len := ReadI32(b);
      if len == -1 then Ok(Decoded(None, b[4..]))
      else if len < 0 || |b| - 4 < len then Err("bad field length")
      else Ok(Decoded(Some(b[4..4 + len]), b[4 + len..]))
  }

  /** The fields of a tuple that has `n` of them. */
  function DecodeFields(b: seq<byte>, n: nat): (r: Result<Decoded<seq<Option<seq<byte>>>>, string>)
    ensures r.Ok? ==> |r.value.rest| <= |b| && |r.value.value| == n
    decreases n
  {
    if n == 0 then Ok(Decoded([], b))
    else
      var f :- DecodeField(b);
      var tail :- DecodeFields(f.rest, n - 1);
      Ok(Decoded([f.value] + tail.value, tail.rest))
  }

  /** Tuples up to the trailer, which must end the input. */
  function DecodeTuples(b: seq<byte>): (r: Result<seq<seq<Option<seq<byte>>>>, string>)
    decreases |b|
  {
    if |b| < 2 then Err("truncated tuple")
    else
      var n := ReadI16(b);
      if n == -1 then
        if |b| == 2 then Ok([]) else Err("data after trailer")
      else if n < 0 then Err("bad field count")
      else
        var f :- DecodeFields(b[2..], n);
        var tail :- DecodeTuples(f.rest);
        Ok([f.value] + tail)
  }

  /** A complete stream: the header, the tuples and the trailer. */
  function DecodeStream(b: seq<byte>): (r: Result<seq<seq<Option<seq<byte>>>>, string>)
    ensures r.Ok? ==> |b| >= 21 && b[..19] == Header
  {
    if |b| < 19 || b[..19] != Header then Err("bad header")
    else
      var rows := DecodeTuples(b[19..]);
      if rows.Ok? then DecodeTuplesLength(b[19..]); rows else rows
  }

  lemma {:induction false} DecodeTuplesLength(b: seq<byte>)
    requires DecodeTuples(b).Ok?
    ensures |b| >= 2
  {
  }

  /** Every row can be written as a tuple. */
  predicate Tuples(rows: seq<seq<Option<seq<byte>>>>) {
    forall i | 0 <= i < |rows| :: |rows[i]| <= I16Max && Fits(rows[i])
  }

  /** The tuples of `rows`, one after the other. */
  function TuplesBytes(rows: seq<seq<Option<seq<byte>>>>): seq<byte>
    requires Tuples(rows)
  {
    if rows == [] then [] else TupleBytes(rows[0]) + TuplesBytes(rows[1..])
  }

  lemma FieldsTail(vals: seq<Option<seq<byte>>>)
    requires Fits(vals) && vals != []
    ensures Fits(vals[1..])
  {
    assert forall i | 0 <= i < |vals[1..]| :: vals[1..][i] == vals[i + 1];
  }

  lemma DecodeNull(tail: seq<byte>)
    ensures DecodeField(NullEncoding + tail) == Ok(Decoded(None, tail))
  {
    var b := NullEncoding + tail;
    ReadI32Be(-1, tail);
    assert b[4..] == tail;
  }

  lemma DecodeValue(p: seq<byte>, tail: seq<byte>)
    requires |p| <= I32Max
    ensures DecodeField(I32Be(|p|) + p + tail) == Ok(Decoded(Some(p), tail))
  {
    var b := I32Be(|p|) + p + tail;
    ReadI32Be(|p|, p + tail);
    assert b == I32Be(|p|) + (p + tail);
    assert b[4..4 + |p|] == p;
    assert b[4 + |p|..] == tail;
  }

  /** A field reads back as the value written, ahead of whatever follows it. */
  lemma DecodeFieldOf(f: Option<seq<byte>>, tail: seq<byte>)
    requires f.Some? ==> |f.value| <= I32Max
    ensures DecodeField(FieldBytes(f) + tail) == Ok(Decoded(f, tail))
  {
    if f.None? {
      DecodeNull(tail);
    } else {
      DecodeValue(f.value, tail);
    }
  }

  /** The fields of a tuple read back as the values written. */
  lemma {:induction false} DecodeFieldsOf(vals: seq<Option<seq<byte>>>, rest: seq<byte>)
    requires Fits(vals)
    ensures DecodeFields(FieldsBytes(vals) + rest, |vals|) == Ok(Decoded(vals, rest))
  {
    if vals != [] {
      FieldsTail(vals);
      DecodeFieldsOf(vals[1..], rest);
      DecodeFieldsCons(vals, rest);
    } else {
      assert FieldsBytes(vals) + rest == rest;
    }
  }

  lemma DecodeFieldsCons(vals: seq<Option<seq<byte>>>, rest: seq<byte>)
    requires Fits(vals) && vals != [] && Fits(vals[1..])
    requires DecodeFields(FieldsBytes(vals[1..]) + rest, |vals| - 1) == Ok(Decoded(vals[1..], rest))
    ensures DecodeFields(FieldsBytes(vals) + rest, |vals|) == Ok(Decoded(vals, rest))
  {
    var head := FieldBytes(vals[0]);
    var tail := FieldsBytes(vals[1..]) + rest;
    assert FieldsBytes(vals) + rest == head + tail by {
      assert FieldsBytes(vals) == head + FieldsBytes(vals[1..]);
      BytesAssoc(head, FieldsBytes(vals[1..]), rest);
    }
    assert DecodeField(head + tail) == Ok(Decoded(vals[0], tail)) by {
      DecodeFieldOf(vals[0], tail);
    }
    DecodeFieldsStep(head + tail, |vals|, vals[0], tail, vals[1..], rest);
    assert [vals[0]] + vals[1..] == vals;
  }

  /** A field, then the remaining `n - 1` fields. */
  lemma DecodeFieldsStep(b: seq<byte>, n: nat, x: Option<seq<byte>>, t: seq<byte>,
                         xs: seq<Option<seq<byte>>>, rest: seq<byte>)
    requires n > 0 && DecodeField(b) == Ok(Decoded(x, t))
    requires DecodeFields(t, n - 1) == Ok(Decoded(xs, rest))
    ensures DecodeFields(b, n) == Ok(Decoded([x] + xs, rest))
  {
  }

  lemma BytesAssoc(a: seq<byte>, b: seq<byte>, c: seq<byte>)
    ensures (a + b) + c == a + (b + c)
  {
  }

  /** Puts a decoded tuple in front of the tuples decoded after it. */
  function ConsRow(vals: seq<Option<seq<byte>>>, r: Result<seq<seq<Option<seq<byte>>>>, string>)
    : Result<seq<seq<Option<seq<byte>>>>, string>
  {
    if r.Ok? then Ok([vals] + r.value) else r
  }

  /** A tuple read back, ahead of whatever follows it. */
  lemma DecodeTupleStep(vals: seq<Option<seq<byte>>>, rest: seq<byte>)
    requires |vals| <= I16Max && Fits(vals)
    ensures DecodeTuples(TupleBytes(vals) + rest) == ConsRow(vals, DecodeTuples(rest))
  {
    var b := TupleBytes(vals) + rest;
    var f := FieldsBytes(vals) + rest;
    assert b == I16Be(|vals|) + f by {
      ConcatAssoc(I16Be(|vals|), FieldsBytes(vals), rest);
    }
    assert |b| >= 2 && ReadI16(b) == |vals| && b[2..] == f by {
      ReadI16Be(|vals|, f);
    }
    DecodeFieldsOf(vals, rest);
    DecodeTuplesAt(b, vals, rest);
  }

  /** A field count that is not the trailer, then its fields, then the rest. */
  lemma DecodeTuplesAt(b: seq<byte>, vals: seq<Option<seq<byte>>>, rest: seq<byte>)
    requires |b| >= 2 && ReadI16(b) == |vals|
    requires DecodeFields(b[2..], |vals|) == Ok(Decoded(vals, rest))
    ensures DecodeTuples(b) == ConsRow(vals, DecodeTuples(rest))
  {
  }

  lemma DecodeTrailer()
    ensures DecodeTuples(Trailer) == Ok([])
  {
    MarkerBytes();
  }

  /** The tuples and the trailer read back as the rows written. */
  lemma {:induction false} DecodeTuplesOf(rows: seq<seq<Option<seq<byte>>>>)
    requires Tuples(rows)
    ensures DecodeTuples(TuplesBytes(rows) + Trailer) == Ok(rows)
  {
    if rows == [] {
      assert TuplesBytes(rows) + Trailer == Trailer;
      DecodeTrailer();
    } else {
      TuplesTail(rows);
      DecodeTuplesOf(rows[1..]);
      DecodeTuplesCons(rows);
    }
  }

  lemma TuplesTail(rows: seq<seq<Option<seq<byte>>>>)
    requires Tuples(rows) && rows != []
    ensures Tuples(rows[1..])
  {
    assert forall i | 0 <= i < |rows[1..]| :: rows[1..][i] == rows[i + 1];
  }

  lemma DecodeTuplesCons(rows: seq<seq<Option<seq<byte>>>>)
    requires Tuples(rows) && rows != [] && Tuples(rows[1..])
    requires DecodeTuples(TuplesBytes(rows[1..]) + Trailer) == Ok(rows[1..])
    ensures DecodeTuples(TuplesBytes(rows) + Trailer) == Ok(rows)
  {
    var rest := TuplesBytes(rows[1..]) + Trailer;
    assert TuplesBytes(rows) + Trailer == TupleBytes(rows[0]) + rest by {
      assert TuplesBytes(rows) == TupleBytes(rows[0]) + TuplesBytes(rows[1..]);
      BytesAssoc(TupleBytes(rows[0]), TuplesBytes(rows[1..]), Trailer);
    }
    DecodeTupleStep(rows[0], rest);
    assert [rows[0]] + rows[1..] == rows;
  }

  /** One step of a session: encode a row, or flush. */
  datatype Op<V> = EncodeOp(row: seq<Option<V>>) | FlushOp

  /** Every row has one datum per column and encodes within the format's limits. */
  predicate OpsFit<Ty, V>(tys: seq<Ty>, ops: seq<Op<V>>, payload: (V, Ty) -> seq<byte>)
    decreases |ops|
  {
    ops == [] ||
    ((ops[0].FlushOp? || (|ops[0].row| == |tys| && Fits(Values(ops[0].row, tys, payload))))
     && OpsFit(tys, ops[1..], payload))
  }

  lemma OpsFitTail<Ty, V>(tys: seq<Ty>, ops: seq<Op<V>>, payload: (V, Ty) -> seq<byte>)
    requires ops != [] && OpsFit(tys, ops, payload)
    ensures OpsFit(tys, ops[1..], payload)
    ensures ops[0].EncodeOp? ==> |ops[0].row| == |tys| && Fits(Values(ops[0].row, tys, payload))
  {
  }

  /** The field values of the rows a session encodes, in order. */
  function RowsOf<Ty, V>(tys: seq<Ty>, ops: seq<Op<V>>, payload: (V, Ty) -> seq<byte>)
    : (r: seq<seq<Option<seq<byte>>>>)
    requires |tys| <= I16Max && OpsFit(tys, ops, payload)
    ensures Tuples(r)
  {
    if ops == [] then []
    else
      OpsFitTail(tys, ops, payload);
      var tail := RowsOf(tys, ops[1..], payload);
      if ops[0].FlushOp? then tail else [Values(ops[0].row, tys, payload)] + tail
  }

  /** The row an operation encodes, as field values; a flush encodes none. */
  function OpRows<Ty, V>(tys: seq<Ty>, op: Op<V>, payload: (V, Ty) -> seq<byte>)
    : (r: seq<seq<Option<seq<byte>>>>)
    requires |tys| <= I16Max
    requires op.EncodeOp? ==> |op.row| == |tys| && Fits(Values(op.row, tys, payload))
    ensures Tuples(r) && |r| == if op.FlushOp? then 0 else 1
  {
    if op.FlushOp? then [] else [Values(op.row, tys, payload)]
  }

  /** One operation of a session: the encoder after it and what it handed over. */
  function Step<Ty, V>(e: Encoder<Ty>, op: Op<V>, payload: (V, Ty) -> seq<byte>)
    : (r: (Encoder<Ty>, seq<byte>))
    requires Valid(e)
    requires op.EncodeOp? ==> |op.row| == |e.fieldTypes| && Fits(Values(op.row, e.fieldTypes, payload))
    ensures Valid(r.0) && r.0.fieldTypes == e.fieldTypes
    ensures op.EncodeOp? ==> r.1 == []
  {
    if op.FlushOp? then Flush(e) else (EncodeRow(e, op.row, payload), [])
  }

  /** No operation loses or reorders a byte: what it hands over followed by
      what is then buffered is what was buffered, then the tuple of its row. */
  lemma StepBytes<Ty, V>(e: Encoder<Ty>, op: Op<V>, payload: (V, Ty) -> seq<byte>)
    requires Valid(e)
    requires op.EncodeOp? ==> |op.row| == |e.fieldTypes| && Fits(Values(op.row, e.fieldTypes, payload))
    ensures var r := Step(e, op, payload);
      r.1 + r.0.outBuf == e.outBuf + TuplesBytes(OpRows(e.fieldTypes, op, payload))
  {
    if op.FlushOp? {
      assert e.outBuf + [] == e.outBuf;
    } else {
      var vals := Values(op.row, e.fieldTypes, payload);
      TuplesBytesOne(vals);
      EncodeRowAppends(e, op.row, payload);
    }
  }

  lemma TuplesBytesOne(vals: seq<Option<seq<byte>>>)
    requires |vals| <= I16Max && Fits(vals)
    ensures Tuples([vals]) && TuplesBytes([vals]) == TupleBytes(vals)
  {
    assert [vals][1..] == [];
  }

  /** Runs a session: the encoder at the end and the bytes every `flush`
      handed over, in order. */
  function Run<Ty, V>(e: Encoder<Ty>, ops: seq<Op<V>>, payload: (V, Ty) -> seq<byte>)
    : (r: (Encoder<Ty>, seq<byte>))
    requires Valid(e) && OpsFit(e.fieldTypes, ops, payload)
    ensures Valid(r.0) && r.0.fieldTypes == e.fieldTypes
    decreases |ops|
  {
    if ops == [] then (e, [])
    else
      OpsFitTail(e.fieldTypes, ops, payload);
      var (e1, handed) := Step(e, ops[0], payload);
      var (e2, later) := Run(e1, ops[1..], payload);
      (e2, handed + later)
  }

  /** What was flushed and what is still buffered together are what was
      buffered at the start followed by one tuple per row. */
  lemma {:induction false} RunBytes<Ty, V>(e: Encoder<Ty>, ops: seq<Op<V>>, payload: (V, Ty) -> seq<byte>)
    requires Valid(e) && OpsFit(e.fieldTypes, ops, payload)
    ensures var r := Run(e, ops, payload);
      r.1 + r.0.outBuf == e.outBuf + TuplesBytes(RowsOf(e.fieldTypes, ops, payload))
    decreases |ops|
  {
    if ops == [] {
      assert e.outBuf + [] == [] + e.outBuf;
    } else {
      OpsFitTail(e.fieldTypes, ops, payload);
      var s := Step(e, ops[0], payload);
      var t := Run(s.0, ops[1..], payload);
      var x := TuplesBytes(OpRows(e.fieldTypes, ops[0], payload));
      var rest := TuplesBytes(RowsOf(e.fieldTypes, ops[1..], payload));
      StepBytes(e, ops[0], payload);
      RunBytes(s.0, ops[1..], payload);
      RowsOfStep(e.fieldTypes, ops, payload);
      StepThrough(e.outBuf, s.1, s.0.outBuf, t.1, t.0.outBuf, x, rest);
    }
  }

  /** Chains the bytes of one step with those of the rest of the session. */
  lemma StepThrough(buf: seq<byte>, h: seq<byte>, mid: seq<byte>, later: seq<byte>, last: seq<byte>,
                    x: seq<byte>, rest: seq<byte>)
    requires h + mid == buf + x && later + last == mid + rest
    ensures (h + later) + last == buf + (x + rest)
  {
    calc {
      (h + later) + last;
      h + (later + last);
      h + (mid + rest);
      (h + mid) + rest;
      (buf + x) + rest;
    }
  }

  /** The rows of a session are the row of its first operation, then the rest. */
  lemma RowsOfStep<Ty, V>(tys: seq<Ty>, ops: seq<Op<V>>, payload: (V, Ty) -> seq<byte>)
    requires |tys| <= I16Max && OpsFit(tys, ops, payload) && ops != []
    ensures OpsFit(tys, ops[1..], payload)
    ensures ops[0].EncodeOp? ==> |ops[0].row| == |tys| && Fits(Values(ops[0].row, tys, payload))
    ensures TuplesBytes(RowsOf(tys, ops, payload))
         == TuplesBytes(OpRows(tys, ops[0], payload)) + TuplesBytes(RowsOf(tys, ops[1..], payload))
  {
    OpsFitTail(tys, ops, payload);
    var rows := RowsOf(tys, ops, payload);
    if ops[0].FlushOp? {
      assert TuplesBytes(OpRows(tys, ops[0], payload)) == [];
    } else {
      var vals := Values(ops[0].row, tys, payload);
      TuplesBytesOne(vals);
      assert rows[1..] == RowsOf(tys, ops[1..], payload);
    }
  }

  /** `EncodeRow` appends the row's tuple to the buffer. */
  lemma EncodeRowAppends<Ty, V>(e: Encoder<Ty>, row: seq<Option<V>>, payload: (V, Ty) -> seq<byte>)
    requires Valid(e) && |row| == |e.fieldTypes|
    requires Fits(Values(row, e.fieldTypes, payload))
    ensures EncodeRow(e, row, payload).outBuf == e.outBuf + TupleBytes(Values(row, e.fieldTypes, payload))
  {
  }

  /** The session without its flushes. */
  function WithoutFlushes<V>(ops: seq<Op<V>>): (r: seq<Op<V>>)
    ensures forall i | 0 <= i < |r| :: r[i].EncodeOp?
  {
    if ops == [] then []
    else if ops[0].FlushOp? then WithoutFlushes(ops[1..])
    else [ops[0]] + WithoutFlushes(ops[1..])
  }

  lemma {:induction false} WithoutFlushesRows<Ty, V>(tys: seq<Ty>, ops: seq<Op<V>>, payload: (V, Ty) -> seq<byte>)
    requires |tys| <= I16Max && OpsFit(tys, ops, payload)
    ensures OpsFit(tys, WithoutFlushes(ops), payload)
    ensures RowsOf(tys, WithoutFlushes(ops), payload) == RowsOf(tys, ops, payload)
  {
    if ops != [] {
      OpsFitTail(tys, ops, payload);
      WithoutFlushesRows(tys, ops[1..], payload);
      var w := WithoutFlushes(ops);
      if ops[0].EncodeOp? {
        assert w[1..] == WithoutFlushes(ops[1..]);
      }
    }
  }

  lemma {:induction false} NoFlushHandsOverNothing<Ty, V>(e: Encoder<Ty>, ops: seq<Op<V>>, payload: (V, Ty) -> seq<byte>)
    requires Valid(e) && OpsFit(e.fieldTypes, ops, payload)
    requires forall i | 0 <= i < |ops| :: ops[i].EncodeOp?
    ensures Run(e, ops, payload).1 == []
    decreases |ops|
  {
    if ops != [] {
      OpsFitTail(e.fieldTypes, ops, payload);
      NoFlushHandsOverNothing(Step(e, ops[0], payload).0, ops[1..], payload);
    }
  }

  /** `flush` only cuts the output: every flushed chunk followed by what
      `finish` returns is the output of the same session without flushes. */
  lemma FlushesConcatenate<Ty, V>(e: Encoder<Ty>, ops: seq<Op<V>>, payload: (V, Ty) -> seq<byte>)
    requires Valid(e) && OpsFit(e.fieldTypes, ops, payload)
    ensures OpsFit(e.fieldTypes, WithoutFlushes(ops), payload)
    ensures var a := Run(e, ops, payload);
      var b := Run(e, WithoutFlushes(ops), payload);
      b.1 == [] && a.1 + Finish(a.0) == Finish(b.0)
  {
    WithoutFlushesRows(e.fieldTypes, ops, payload);
    NoFlushHandsOverNothing(e, WithoutFlushes(ops), payload);
    RunBytes(e, ops, payload);
    RunBytes(e, WithoutFlushes(ops), payload);
    var a := Run(e, ops, payload);
    var b := Run(e, WithoutFlushes(ops), payload);
    assert b.1 + b.0.outBuf == b.0.outBuf;
    BytesAssoc(a.1, a.0.outBuf, Trailer);
  }

  function Session<Ty, V>(tys: seq<Ty>, ops: seq<Op<V>>, payload: (V, Ty) -> seq<byte>): seq<byte>
    requires |tys| <= I16Max && OpsFit(tys, ops, payload)
  {
    var r := Run(New(tys).value, ops, payload);
    r.1 + Finish(r.0)
  }

  /** A session's output is a well-formed stream that reads back as the
      rows encoded, in order, with nulls as nulls. */
  lemma SessionReadsBack<Ty, V>(tys: seq<Ty>, ops: seq<Op<V>>, payload: (V, Ty) -> seq<byte>)
    requires |tys| <= I16Max && OpsFit(tys, ops, payload)
    ensures DecodeStream(Session(tys, ops, payload)) == Ok(RowsOf(tys, ops, payload))
  {
    var rows := RowsOf(tys, ops, payload);
    SessionLayout(tys, ops, payload);
    DecodeTuplesOf(rows);
    StreamOf(TuplesBytes(rows) + Trailer);
  }

  /** A session writes the header, a tuple per row and the trailer. */
  lemma SessionLayout<Ty, V>(tys: seq<Ty>, ops: seq<Op<V>>, payload: (V, Ty) -> seq<byte>)
    requires |tys| <= I16Max && OpsFit(tys, ops, payload)
    ensures Session(tys, ops, payload) == Header + (TuplesBytes(RowsOf(tys, ops, payload)) + Trailer)
  {
    var e := New(tys).value;
    var r := Run(e, ops, payload);
    RunBytes(e, ops, payload);
    FinishAfter(r.1, r.0.outBuf, Header, TuplesBytes(RowsOf(tys, ops, payload)));
  }

  lemma FinishAfter(flushed: seq<byte>, buf: seq<byte>, h: seq<byte>, t: seq<byte>)
    requires flushed + buf == h + t
    ensures flushed + (buf + Trailer) == h + (t + Trailer)
  {
    calc {
      flushed + (buf + Trailer);
      (flushed + buf) + Trailer;
      (h + t) + Trailer;
      h + (t + Trailer);
    }
  }

  lemma StreamOf(body: seq<byte>)
    ensures DecodeStream(Header + body) == DecodeTuples(body)
  {
    var b := Header + body;
    assert b[..19] == Header && b[19..] == body;
  }

  /** The source's null path is right: on a row of nulls only, `encode_row`
      as written appends what the complete encoder appends. */
  lemma AsWrittenNullRows<Ty, V>(e: Encoder<Ty>, row: seq<Option<V>>, payload: (V, Ty) -> seq<byte>)
    requires Valid(e) && |row| == |e.fieldTypes|
    requires forall i | 0 <= i < |row| :: row[i].None?
    ensures Fits(Values(row, e.fieldTypes, payload))
    ensures EncodeRowAsWritten(e, row) == EncodeRow(e, row, payload)
  {
    var vals := Values(row, e.fieldTypes, payload);
    forall i | 0 <= i < |row|
      ensures vals[i].None?
    {
      ValuesAt(row, e.fieldTypes, payload, i);
    }
    NullFields(row, vals);
  }

  lemma {:induction false} NullFields<V>(row: seq<Option<V>>, vals: seq<Option<seq<byte>>>)
    requires |row| == |vals|
    requires forall i | 0 <= i < |row| :: row[i].None? && vals[i].None?
    ensures Fits(vals) && FieldsAsWritten(row) == FieldsBytes(vals)
  {
    if row != [] {
      NullFields(row[1..], vals[1..]);
    }
  }

  /** As written, a non-null datum leaves no trace: a one-column row holding
      a value is encoded as a field count of 1 with no field after it, and
      the stream does not read back. */
  lemma AsWrittenValueLost<Ty, V>(t: Ty, x: V)
    ensures New([t]).Ok?
    ensures Finish(EncodeRowAsWritten(New([t]).value, [Some(x)])) == Header + [0x00, 0x01, 0xFF, 0xFF]
    ensures DecodeStream(Header + [0x00, 0x01, 0xFF, 0xFF]).Err?
  {
    MarkerBytes();
    var e := New([t]).value;
    assert FieldsAsWritten([Some(x)]) == [] by {
      assert [Some(x)][1..] == [];
    }
    assert I16Be(1) == [0x00, 0x01];
    assert EncodeRowAsWritten(e, [Some(x)]).outBuf == Header + [0x00, 0x01];
    var body: seq<byte> := [0x00, 0x01, 0xFF, 0xFF];
    StreamOf(body);
    assert ReadI16(body) == 1;
    assert body[2..] == [0xFF, 0xFF];
    assert DecodeField([0xFF, 0xFF]).Err?;
  }
}
