/**
 * `format_list` and `ListElementWriter::write_null` of `repr::strconv`.
 *
 * The element formatter of the source is a closure that appends the
 * element's text through a `ListElementWriter` and returns a `Nestable`;
 * here it is a function from the element to the `Formatted` text it
 * appends.
 */
module ListFormat {
  import opened Text
  import opened Strconv
  import opened ListEscape

  /** `ListElementWriter::write_null`: the unquoted token `NULL`. */
  function WriteNull(): Formatted {
    Formatted("NULL", Yes)
  }

  /** The text an element occupies in the list: a formatter that reports
      `MayNeedEscaping` has its text quoted when it needs quoting. */
  function Piece(f: Formatted, v: Variant): string {
    if f.nest == MayNeedEscaping && NeedsQuoting(f.text, v) then Quote(f.text) else f.text
  }

  function Pieces<T>(elems: seq<T>, fmt: T -> Formatted, v: Variant): (r: seq<string>)
    ensures |r| == |elems|
    ensures forall i | 0 <= i < |elems| :: r[i] == Piece(fmt(elems[i]), v)
  {
    if elems == [] then [] else [Piece(fmt(elems[0]), v)] + Pieces(elems[1..], fmt, v)
  }

  /** The pieces separated by commas. */
  function Join(ps: seq<string>): string {
    if ps == [] then ""
    else if |ps| == 1 then ps[0]
    else ps[0] + "," + Join(ps[1..])
  }

  /** The list literal: the joined pieces in braces. */
  function ListText<T>(elems: seq<T>, fmt: T -> Formatted, v: Variant): string {
    "{" + Join(Pieces(elems, fmt, v)) + "}"
  }

  /** A join of two or more pieces is the first, a comma and the join of the rest. */
  lemma JoinCons(ps: seq<string>, rest: string)
    requires |ps| >= 2
    ensures Join(ps) == ps[0] + ("," + Join(ps[1..]))
    ensures Join(ps) + rest == ps[0] + ("," + (Join(ps[1..]) + rest))
  {
    var p, j1 := ps[0], Join(ps[1..]);
    assert Join(ps) == p + "," + j1;
    AppendAssoc(p, ",", j1);
    AppendAssoc(p, "," + j1, rest);
    AppendAssoc(",", j1, rest);
  }

  lemma AppendAssoc(a: string, b: string, c: string)
    ensures a + b + c == a + (b + c)
  {
  }

  lemma {:induction false} JoinSnoc(ps: seq<string>, p: string)
    ensures Join(ps + [p]) == if ps == [] then p else Join(ps) + "," + p
  {
    if |ps| == 1 {
      assert ps + [p] == [ps[0], p];
      assert [ps[0], p][1..] == [p];
    } else if |ps| > 1 {
      assert (ps + [p])[1..] == ps[1..] + [p];
      JoinSnoc(ps[1..], p);
    }
  }

  /** What the buffer holds after `i` elements: the brace, the first `i`
      pieces and, while elements remain, the comma written after the last. */
  function Written<T>(elems: seq<T>, fmt: T -> Formatted, i: nat): string
    requires i <= |elems|
  {
    "{" + Join(Pieces(elems[..i], fmt, AsWritten)) + (if 0 < i < |elems| then "," else "")
  }

  /**
   * `format_list`: writes `{`, each element through the formatter with
   * `escape_list_elem` applied to the text of a formatter that reports
   * `MayNeedEscaping`, a comma between elements and `}`; the result is
   * always nestable. The buffer holds UTF-8 bytes.
   */
  method FormatList<T>(buf: seq<byte>, elems: seq<T>, fmt: T -> Formatted) returns (out: seq<byte>, nest: Nestable)
    ensures out == buf + Utf8Encode(ListText(elems, fmt, AsWritten))
    ensures nest == Yes
  {
    out := buf + [0x7B];
    assert Utf8Encode("{") == [0x7B] + Utf8Encode([]);
    assert elems[..0] == [];
    var i := 0;
    while i < |elems|
      invariant 0 <= i <= |elems|
      invariant out == buf + Utf8Encode(Written(elems, fmt, i))
    {
      var start := |out|;
      var f := fmt(elems[i]);
      ghost var before := out;
      out := out + Utf8Encode(f.text);
      if f.nest == MayNeedEscaping {
        EscapeListElemOnText(before, f.text);
        out := EscapeListElem(out, start);
        assert out[..start] == before;
      }
      assert out == before + Utf8Encode(Piece(f, AsWritten));
      ghost var after := out;
      if i + 1 < |elems| {
        out := out + [0x2C];
      }
      WrittenStep(buf, elems, fmt, i, before, after, out);
      i := i + 1;
    }
    out := out + [0x7D];
    WrittenAll(elems, fmt);
    Utf8EncodeAppend(Written(elems, fmt, |elems|), "}");
    assert Utf8Encode("}") == [0x7D] + Utf8Encode([]);
    nest := Yes;
  }

  lemma WrittenStep<T>(buf: seq<byte>, elems: seq<T>, fmt: T -> Formatted, i: nat,
                       before: seq<byte>, after: seq<byte>, out: seq<byte>)
    requires i < |elems|
    requires before == buf + Utf8Encode(Written(elems, fmt, i))
    requires after == before + Utf8Encode(Piece(fmt(elems[i]), AsWritten))
    requires out == if i + 1 < |elems| then after + [0x2C] else after
    ensures out == buf + Utf8Encode(Written(elems, fmt, i + 1))
  {
    var w := Written(elems, fmt, i);
    var p := Piece(fmt(elems[i]), AsWritten);
    WrittenSnoc(elems, fmt, i);
    assert after == buf + Utf8Encode(w + p) by {
      Utf8EncodeAppend(w, p);
      ConcatAssoc(buf, Utf8Encode(w), Utf8Encode(p));
    }
    if i + 1 < |elems| {
      Utf8EncodeAppend(w + p, ",");
      CommaBytes();
      ConcatAssoc(buf, Utf8Encode(w + p), [0x2C]);
    } else {
      assert w + p + "" == w + p;
    }
  }

  lemma CommaBytes()
    ensures Utf8Encode(",") == [0x2C]
  {
    assert Utf8Encode(",") == [0x2C] + Utf8Encode([]);
  }

  lemma WrittenSnoc<T>(elems: seq<T>, fmt: T -> Formatted, i: nat)
    requires i < |elems|
    ensures Written(elems, fmt, i + 1)
         == Written(elems, fmt, i) + Piece(fmt(elems[i]), AsWritten) + (if i + 1 < |elems| then "," else "")
  {
    var ps := Pieces(elems[..i], fmt, AsWritten);
    var p := Piece(fmt(elems[i]), AsWritten);
    assert elems[..i + 1] == elems[..i] + [elems[i]];
    assert Pieces(elems[..i + 1], fmt, AsWritten) == ps + [p];
    JoinSnoc(ps, p);
    if i == 0 {
      assert ps == [];
    }
  }

  /** All elements written, the closing brace completes the list literal. */
  lemma WrittenAll<T>(elems: seq<T>, fmt: T -> Formatted)
    ensures Written(elems, fmt, |elems|) + "}" == ListText(elems, fmt, AsWritten)
  {
    assert elems[..|elems|] == elems;
  }
}
