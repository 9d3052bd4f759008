/**
 * `parse_list` reads back what `format_list` writes.
 *
 * The generic statement: when every element's piece of the list literal
 * is read back by the parser as some value, the whole literal is read
 * back as the sequence of those values. It is then instantiated for lists
 * of nullable strings (the string formatter and a null marker) and for
 * lists of such lists.
 */
module ListRoundTrip {
  import opened Results
  import opened Text
  import opened Strconv
  import opened ListEscape
  import opened ListFormat
  import opened ListParse

  /** The parser reads `piece` as `y`, whatever delimiter follows it. */
  ghost predicate ReadsBack<T>(piece: string, y: T, nullValue: T, parseElem: string -> Result<T, Error>, v: Variant) {
    && piece != [] && piece[0] != '}' && piece[0] != ' '
    && forall t: string | t != [] && (t[0] == ',' || t[0] == '}') ::
         ParseElement(piece + t, nullValue, parseElem, v) == Ok(Parsed(y, t))
  }

  /** The quantifier of `ReadsBack`, at one delimiter. */
  lemma ReadsBackAt<T>(p: string, y: T, t: string, nullValue: T, parseElem: string -> Result<T, Error>, v: Variant)
    requires ReadsBack(p, y, nullValue, parseElem, v)
    requires t != [] && (t[0] == ',' || t[0] == '}')
    ensures (p + t)[0] == p[0]
    ensures ParseElement(p + t, nullValue, parseElem, v) == Ok(Parsed(y, t))
  {
  }

  /** The items loop at an element that parses: the delimiter after it decides. */
  lemma ItemsAtElement<T>(s: string, nullValue: T, parseElem: string -> Result<T, Error>, v: Variant)
    requires s != [] && s[0] != '}' && s[0] != ' '
    requires ParseElement(s, nullValue, parseElem, v).Ok?
    ensures var p := ParseElement(s, nullValue, parseElem, v).value;
      ParseItems(s, nullValue, parseElem, v) == ParseDelimiter(p.value, SkipSpaces(p.rest), nullValue, parseElem, v)
  {
  }

  /** An element piece followed by a comma and the rest of the items. */
  lemma ItemsStep<T>(p: string, y: T, u: string, nullValue: T, parseElem: string -> Result<T, Error>, v: Variant)
    requires ReadsBack(p, y, nullValue, parseElem, v)
    requires ParseItems(u, nullValue, parseElem, v).Ok?
    ensures ParseItems(p + "," + u, nullValue, parseElem, v)
         == Ok([y] + ParseItems(u, nullValue, parseElem, v).value)
  {
    var t := "," + u;
    assert p + "," + u == p + t;
    ReadsBackAt(p, y, t, nullValue, parseElem, v);
    ItemsAtElement(p + t, nullValue, parseElem, v);
    assert SkipSpaces(t) == t;
    assert t[1..] == u;
  }

  /** The last element piece, followed by the closing brace. */
  lemma ItemsLast<T>(p: string, y: T, nullValue: T, parseElem: string -> Result<T, Error>, v: Variant)
    requires ReadsBack(p, y, nullValue, parseElem, v)
    ensures ParseItems(p + "}", nullValue, parseElem, v) == Ok([y])
  {
    var s := p + "}";
    assert ParseItems(s, nullValue, parseElem, v) == ParseDelimiter(y, SkipSpaces("}"), nullValue, parseElem, v) by {
      ReadsBackAt(p, y, "}", nullValue, parseElem, v);
      ItemsAtElement(s, nullValue, parseElem, v);
    }
    DelimiterClose(y, nullValue, parseElem, v);
  }

  /** A closing brace with nothing after it ends the list. */
  lemma DelimiterClose<T>(y: T, nullValue: T, parseElem: string -> Result<T, Error>, v: Variant)
    ensures ParseDelimiter(y, SkipSpaces("}"), nullValue, parseElem, v) == Ok([y])
  {
    var t := SkipSpaces("}");
    assert t == "}" by {
      BraceHasNoSpace();
    }
    DelimiterAtBrace(y, t, nullValue, parseElem, v);
  }

  lemma BraceHasNoSpace()
    ensures SkipSpaces("}") == "}"
  {
    var s := "}";
    assert s[0] == '}';
  }

  lemma DelimiterAtBrace<T>(y: T, t: string, nullValue: T, parseElem: string -> Result<T, Error>, v: Variant)
    requires |t| == 1 && t[0] == '}'
    ensures ParseDelimiter(y, t, nullValue, parseElem, v) == Ok([y])
  {
  }

  lemma {:induction false} ItemsReadBack<T>(elems: seq<T>, ys: seq<T>, fmt: T -> Formatted,
                                            nullValue: T, parseElem: string -> Result<T, Error>, v: Variant)
    requires |ys| == |elems| && elems != []
    requires forall i | 0 <= i < |elems| :: ReadsBack(Piece(fmt(elems[i]), v), ys[i], nullValue, parseElem, v)
    ensures ParseItems(Join(Pieces(elems, fmt, v)) + "}", nullValue, parseElem, v) == Ok(ys)
  {
    var ps := Pieces(elems, fmt, v);
    if |elems| == 1 {
      ItemsLast(ps[0], ys[0], nullValue, parseElem, v);
      assert Join(ps) == ps[0];
      assert ys == [ys[0]];
    } else {
      PiecesTail(elems, fmt, v);
      ShiftReadsBack(elems, ys, fmt, nullValue, parseElem, v);
      ItemsReadBack(elems[1..], ys[1..], fmt, nullValue, parseElem, v);
      JoinItemsStep(ps, ys, nullValue, parseElem, v);
    }
  }

  lemma JoinItemsStep<T>(ps: seq<string>, ys: seq<T>, nullValue: T, parseElem: string -> Result<T, Error>, v: Variant)
    requires |ps| == |ys| >= 2
    requires ReadsBack(ps[0], ys[0], nullValue, parseElem, v)
    requires ParseItems(Join(ps[1..]) + "}", nullValue, parseElem, v) == Ok(ys[1..])
    ensures ParseItems(Join(ps) + "}", nullValue, parseElem, v) == Ok(ys)
  {
    var u := Join(ps[1..]) + "}";
    assert Join(ps) + "}" == ps[0] + "," + u by {
      JoinCons(ps, "}");
      AppendAssoc(ps[0], ",", u);
    }
    ItemsStep(ps[0], ys[0], u, nullValue, parseElem, v);
    assert ys == [ys[0]] + ys[1..];
  }

  lemma PiecesTail<T>(elems: seq<T>, fmt: T -> Formatted, v: Variant)
    requires elems != []
    ensures Pieces(elems, fmt, v)[1..] == Pieces(elems[1..], fmt, v)
  {
  }

  lemma ShiftReadsBack<T>(elems: seq<T>, ys: seq<T>, fmt: T -> Formatted,
                          nullValue: T, parseElem: string -> Result<T, Error>, v: Variant)
    requires |ys| == |elems| && elems != []
    requires forall i | 0 <= i < |elems| :: ReadsBack(Piece(fmt(elems[i]), v), ys[i], nullValue, parseElem, v)
    ensures forall i | 0 <= i < |elems[1..]| :: ReadsBack(Piece(fmt(elems[1..][i]), v), ys[1..][i], nullValue, parseElem, v)
  {
    forall i | 0 <= i < |elems[1..]|
      ensures ReadsBack(Piece(fmt(elems[1..][i]), v), ys[1..][i], nullValue, parseElem, v)
    {
      assert elems[1..][i] == elems[i + 1] && ys[1..][i] == ys[i + 1];
    }
  }

  lemma ParseListOpen<T>(x: string, nullValue: T, parseElem: string -> Result<T, Error>, v: Variant)
    ensures ParseList("{" + x, nullValue, parseElem, v) == ParseItems(x, nullValue, parseElem, v)
  {
    assert ("{" + x)[1..] == x;
  }

  /** If each element's piece reads back as the corresponding `ys[i]`, the
      list literal reads back as `ys`. */
  lemma ListReadsBack<T>(elems: seq<T>, ys: seq<T>, fmt: T -> Formatted,
                         nullValue: T, parseElem: string -> Result<T, Error>, v: Variant)
    requires |ys| == |elems|
    requires forall i | 0 <= i < |elems| :: ReadsBack(Piece(fmt(elems[i]), v), ys[i], nullValue, parseElem, v)
    ensures ParseList(ListText(elems, fmt, v), nullValue, parseElem, v) == Ok(ys)
  {
    var j := Join(Pieces(elems, fmt, v));
    ParseListOpen(j + "}", nullValue, parseElem, v);
    assert ListText(elems, fmt, v) == "{" + (j + "}");
    if elems == [] {
      assert j + "}" == "}";
    } else {
      ItemsReadBack(elems, ys, fmt, nullValue, parseElem, v);
    }
  }

  // ---------------------------------------------------------------------
  // The three shapes of piece.

  lemma {:induction false} ScanQuotedEscaped(e: string, t: string)
    ensures ScanQuoted(EscapeBody(e) + "\"" + t) == Ok(Scan(e, t))
  {
    if e == [] {
      assert EscapeBody(e) + "\"" + t == "\"" + t;
      assert ("\"" + t)[1..] == t;
    } else {
      ScanQuotedEscaped(e[1..], t);
      ScanQuotedEscapedCons(e, t);
    }
  }

  lemma ScanQuotedEscapedCons(e: string, t: string)
    requires e != [] && ScanQuoted(EscapeBody(e[1..]) + "\"" + t) == Ok(Scan(e[1..], t))
    ensures ScanQuoted(EscapeBody(e) + "\"" + t) == Ok(Scan(e, t))
  {
    var tail := EscapeBody(e[1..]) + "\"" + t;
    assert EscapeBody(e) + "\"" + t == EscapeChar(e[0]) + tail by {
      var c := EscapeChar(e[0]);
      var b := EscapeBody(e[1..]);
      assert EscapeBody(e) == c + b;
      AppendAssoc(c, b, "\"");
      AppendAssoc(c, b + "\"", t);
    }
    if IsEscaped(e[0]) {
      ScanQuotedAtEscape(e[0], tail);
    } else {
      ScanQuotedAtPlain(e[0], tail);
    }
    assert [e[0]] + e[1..] == e;
  }

  /** An escaped quote or backslash stands for itself. */
  lemma ScanQuotedAtEscape(c: char, tail: string)
    requires IsEscaped(c)
    ensures ScanQuoted(['\\', c] + tail) == Prepend(c, ScanQuoted(tail))
  {
    assert (['\\', c] + tail)[2..] == tail;
  }

  /** Any other character is collected as it is. */
  lemma ScanQuotedAtPlain(c: char, tail: string)
    requires !IsEscaped(c)
    ensures ScanQuoted([c] + tail) == Prepend(c, ScanQuoted(tail))
  {
    assert ([c] + tail)[1..] == tail;
  }

  /** A quoted piece reads back as what the element parser makes of its text. */
  lemma QuotedReadsBack<T>(e: string, y: T, nullValue: T, parseElem: string -> Result<T, Error>, v: Variant)
    requires parseElem(e) == Ok(y)
    ensures ReadsBack(Quote(e), y, nullValue, parseElem, v)
  {
    forall t: string | t != [] && (t[0] == ',' || t[0] == '}')
      ensures ParseElement(Quote(e) + t, nullValue, parseElem, v) == Ok(Parsed(y, t))
    {
      var s := Quote(e) + t;
      assert s[1..] == EscapeBody(e) + "\"" + t;
      ScanQuotedEscaped(e, t);
    }
  }

  lemma {:induction false} ScanUnquotedPlain(e: string, t: string)
    requires !HasSpecial(e)
    requires t != [] && EndsUnquoted(t[0])
    ensures ScanUnquoted(e + t) == Ok(Scan(e, t))
  {
    if e == [] {
      assert e + t == t;
    } else {
      assert !IsSpecial(e[0]);
      NoSpecialTail(e);
      ScanUnquotedPlain(e[1..], t);
      assert (e + t)[1..] == e[1..] + t;
      assert [e[0]] + e[1..] == e;
    }
  }

  lemma NoSpecialTail(e: string)
    requires e != [] && !HasSpecial(e)
    ensures !HasSpecial(e[1..])
  {
    forall i | 0 <= i < |e[1..]|
      ensures !IsSpecial(e[1..][i])
    {
      assert e[1..][i] == e[i + 1];
    }
  }

  /** An unquoted piece reads back as null when its trimmed text is `NULL`
      and as what the element parser makes of it otherwise. */
  lemma PlainReadsBack<T>(e: string, y: T, nullValue: T, parseElem: string -> Result<T, Error>, v: Variant)
    requires e != [] && !HasSpecial(e)
    requires if Trim(e) == "NULL" then y == nullValue else parseElem(e) == Ok(y)
    ensures ReadsBack(e, y, nullValue, parseElem, v)
  {
    assert !IsSpecial(e[0]);
    forall t: string | t != [] && (t[0] == ',' || t[0] == '}')
      ensures ParseElement(e + t, nullValue, parseElem, v) == Ok(Parsed(y, t))
    {
      ScanUnquotedPlain(e, t);
      assert (e + t)[0] == e[0];
    }
  }

  /** `write_null`: its piece reads back as the null value, whatever the
      element type and parser. */
  lemma NullReadsBack<T>(nullValue: T, parseElem: string -> Result<T, Error>, v: Variant)
    ensures Piece(WriteNull(), v) == "NULL"
    ensures ReadsBack(Piece(WriteNull(), v), nullValue, nullValue, parseElem, v)
  {
    var e := "NULL";
    TrimNoop(e);
    assert !HasSpecial(e) by {
      forall i | 0 <= i < |e|
        ensures !IsSpecial(e[i])
      {
      }
    }
    PlainReadsBack(e, nullValue, nullValue, parseElem, v);
  }

  // ---------------------------------------------------------------------
  // Lists of nullable strings.

  /** The element formatter of a list of nullable strings. */
  function FlatFormat(x: Option<string>): Formatted {
    match x
    case None => WriteNull()
    case Some(s) => FormatString(s)
  }

  /** The element parser of a list of strings. */
  function FlatParse(s: string): Result<Option<string>, Error> {
    Ok(Some(s))
  }

  /** A string the source writes unquoted although the parser, which trims
      before comparing with `NULL`, reads it as null: `NULL` with a tab,
      line feed or other non-space whitespace around it. */
  predicate ReadsAsNull(e: string) {
    !NeedsQuoting(e, AsWritten) && Trim(e) == "NULL"
  }

  /** What the parser makes of a written element of a list of strings. */
  function AsRead(x: Option<string>): Option<string> {
    if x.Some? && ReadsAsNull(x.value) then None else x
  }

  lemma FlatElementReadsBack(x: Option<string>, v: Variant)
    ensures ReadsBack(Piece(FlatFormat(x), v), if v == AsWritten then AsRead(x) else x, None, FlatParse, v)
  {
    match x
    case None =>
      NullReadsBack(None, FlatParse, v);
    case Some(e) =>
      if NeedsQuoting(e, v) {
        QuotedReadsBack(e, x, None, FlatParse, v);
      } else if v == Corrected {
        TrimNoWhitespace(e);
        PlainReadsBack(e, x, None, FlatParse, v);
      } else {
        PlainReadsBack(e, AsRead(x), None, FlatParse, v);
      }
  }

  /** With the corrected quoting, every list of nullable strings reads back
      as itself, nulls and the string `NULL` included. */
  lemma FlatRoundTrip(xs: seq<Option<string>>)
    ensures ParseList(ListText(xs, FlatFormat, Corrected), None, FlatParse, Corrected) == Ok(xs)
  {
    forall i | 0 <= i < |xs|
      ensures ReadsBack(Piece(FlatFormat(xs[i]), Corrected), xs[i], None, FlatParse, Corrected)
    {
      FlatElementReadsBack(xs[i], Corrected);
    }
    ListReadsBack(xs, xs, FlatFormat, None, FlatParse, Corrected);
  }

  /** As the source writes it, a list of nullable strings reads back with
      exactly the disguised nulls turned into nulls. */
  lemma FlatRoundTripAsWritten(xs: seq<Option<string>>)
    ensures ParseList(ListText(xs, FlatFormat, AsWritten), None, FlatParse, AsWritten)
         == Ok(seq(|xs|, i requires 0 <= i < |xs| => AsRead(xs[i])))
  {
    var ys := seq(|xs|, i requires 0 <= i < |xs| => AsRead(xs[i]));
    forall i | 0 <= i < |xs|
      ensures ReadsBack(Piece(FlatFormat(xs[i]), AsWritten), ys[i], None, FlatParse, AsWritten)
    {
      FlatElementReadsBack(xs[i], AsWritten);
    }
    ListReadsBack(xs, ys, FlatFormat, None, FlatParse, AsWritten);
  }

  /** As the source writes it, the round trip holds exactly for the lists
      without a disguised null. */
  lemma FlatRoundTripAsWrittenIff(xs: seq<Option<string>>)
    ensures ParseList(ListText(xs, FlatFormat, AsWritten), None, FlatParse, AsWritten) == Ok(xs)
        <==> forall i | 0 <= i < |xs| :: xs[i].Some? ==> !ReadsAsNull(xs[i].value)
  {
    FlatRoundTripAsWritten(xs);
    var ys := seq(|xs|, i requires 0 <= i < |xs| => AsRead(xs[i]));
    if ys == xs {
      forall i | 0 <= i < |xs| && xs[i].Some?
        ensures !ReadsAsNull(xs[i].value)
      {
        assert ys[i] == xs[i];
      }
    }
    if forall i | 0 <= i < |xs| :: xs[i].Some? ==> !ReadsAsNull(xs[i].value) {
      assert ys == xs;
    }
  }

  /** A tab before `NULL` makes the string read back as null. */
  lemma TabNullReadsAsNull()
    ensures ReadsAsNull("\tNULL")
    ensures ParseList(ListText([Some("\tNULL")], FlatFormat, AsWritten), None, FlatParse, AsWritten) == Ok([None])
  {
    TabNull();
    FlatRoundTripAsWritten([Some("\tNULL")]);
    OneAsRead(Some("\tNULL"));
  }

  lemma TabNull()
    ensures ReadsAsNull("\tNULL")
  {
    var e := "\tNULL";
    assert !HasSpecial(e) by {
      forall i | 0 <= i < |e|
        ensures !IsSpecial(e[i])
      {
      }
    }
    assert e != "NULL" by {
      assert |e| == 5;
    }
    assert TrimStart(e) == "NULL" by {
      assert e[1..] == "NULL";
    }
    assert TrimEnd("NULL") == "NULL";
  }

  lemma OneAsRead(x: Option<string>)
    ensures seq(1, i requires 0 <= i < 1 => AsRead([x][i])) == [AsRead(x)]
  {
  }

  /** The quoted piece of a string that looks like `NULL` keeps it apart
      from the null marker. */
  lemma NullAndStringNullDiffer()
    ensures ListText([None], FlatFormat, AsWritten) == "{NULL}"
    ensures ListText([Some("NULL")], FlatFormat, AsWritten) == "{\"NULL\"}"
  {
    assert EscapeBody("NULL") == "NULL" by {
      assert EscapeBody("L") == "L";
      assert EscapeBody("LL") == "L" + EscapeBody("L");
      assert EscapeBody("ULL") == "U" + EscapeBody("LL");
      assert EscapeBody("NULL") == "N" + EscapeBody("ULL");
    }
  }
}
