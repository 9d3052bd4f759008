/**
 * Lists of lists. A formatted list is nestable, so the outer list writes
 * it unquoted, and the outer parser hands the captured `{...}` text to an
 * element parser that parses it as a list again.
 *
 * The source captures a nested list up to the first `}`, which cuts a
 * nested list short when one of its quoted elements contains `}`. The
 * balanced capture of the corrected variant reads every nested list of
 * nullable strings back; the source's capture does so exactly when no
 * inner string contains `}`.
 */
module ListNested {
  import opened Results
  import opened Text
  import opened Strconv
  import opened ListEscape
  import opened ListFormat
  import opened ListParse
  import opened ListRoundTrip

  /** Puts the characters of `p` in front of the collected text of a scan. */
  function PrependAll(p: string, r: Result<Scan, Error>): Result<Scan, Error>
    decreases |p|
  {
    if p == [] then r else Prepend(p[0], PrependAll(p[1..], r))
  }

  lemma {:induction false} PrependAllOk(p: string, x: string, t: string)
    ensures PrependAll(p, Ok(Scan(x, t))) == Ok(Scan(p + x, t))
    decreases |p|
  {
    if p == [] {
      assert p + x == x;
    } else {
      PrependAllOk(p[1..], x, t);
      var r := PrependAll(p[1..], Ok(Scan(x, t)));
      assert PrependAll(p, Ok(Scan(x, t))) == Prepend(p[0], r);
      assert Prepend(p[0], r) == Ok(Scan([p[0]] + (p[1..] + x), t));
      assert [p[0]] + (p[1..] + x) == p + x;
    }
  }

  lemma {:induction false} PrependAllAppend(p: string, q: string, r: Result<Scan, Error>)
    ensures PrependAll(p + q, r) == PrependAll(p, PrependAll(q, r))
    decreases |p|
  {
    if p == [] {
      assert p + q == q;
    } else {
      assert (p + q)[1..] == p[1..] + q;
      PrependAllAppend(p[1..], q, r);
    }
  }

  /** Characters the balanced capture passes over without a change of state. */
  predicate IsInert(c: char) {
    c != '{' && c != '}' && c != '"' && c != '\\'
  }

  predicate AllInert(p: string) {
    forall i | 0 <= i < |p| :: IsInert(p[i])
  }

  lemma {:induction false} InertThrough(p: string, rest: string, depth: nat)
    requires AllInert(p)
    ensures ScanBalanced(p + rest, depth, false) == PrependAll(p, ScanBalanced(rest, depth, false))
    decreases |p|
  {
    if p == [] {
      assert p + rest == rest;
    } else {
      assert (p + rest)[0] == p[0] && (p + rest)[1..] == p[1..] + rest;
      assert AllInert(p[1..]) by {
        forall i | 0 <= i < |p[1..]|
          ensures IsInert(p[1..][i])
        {
          assert p[1..][i] == p[i + 1];
        }
      }
      InertThrough(p[1..], rest, depth);
    }
  }

  lemma {:induction false} QuotedBodyThrough(e: string, rest: string, depth: nat)
    ensures ScanBalanced(EscapeBody(e) + "\"" + rest, depth, true)
         == PrependAll(EscapeBody(e) + "\"", ScanBalanced(rest, depth, false))
  {
    if e == [] {
      ClosingQuoteThrough(rest, depth);
    } else {
      var c := EscapeChar(e[0]);
      var tail := EscapeBody(e[1..]) + "\"";
      assert EscapeBody(e) + "\"" == c + tail;
      assert EscapeBody(e) + "\"" + rest == c + (tail + rest);
      EscapedCharThrough(e[0], tail + rest, depth);
      QuotedBodyThrough(e[1..], rest, depth);
      PrependAllAppend(c, tail, ScanBalanced(rest, depth, false));
    }
  }

  /** The closing quote leaves the quoted state. */
  lemma ClosingQuoteThrough(rest: string, depth: nat)
    ensures ScanBalanced(EscapeBody([]) + "\"" + rest, depth, true)
         == PrependAll(EscapeBody([]) + "\"", ScanBalanced(rest, depth, false))
  {
    var s := EscapeBody([]) + "\"" + rest;
    assert s == "\"" + rest && s[1..] == rest;
    assert PrependAll("\"", ScanBalanced(rest, depth, false)) == Prepend('"', ScanBalanced(rest, depth, false)) by {
      assert "\""[1..] == [];
    }
    assert EscapeBody([]) + "\"" == "\"";
  }

  /** Inside quotes, an escaped character is passed over and the scan stays quoted. */
  lemma EscapedCharThrough(ch: char, u: string, depth: nat)
    ensures ScanBalanced(EscapeChar(ch) + u, depth, true) == PrependAll(EscapeChar(ch), ScanBalanced(u, depth, true))
  {
    var c := EscapeChar(ch);
    var r := ScanBalanced(u, depth, true);
    if IsEscaped(ch) {
      assert (c + u)[0] == '\\' && (c + u)[1] == ch && (c + u)[2..] == u;
      assert PrependAll(c, r) == Prepend('\\', Prepend(ch, r)) by {
        assert c[1..] == [ch] && [ch][1..] == [];
        assert PrependAll([ch], r) == Prepend(ch, PrependAll([], r));
      }
    } else {
      assert (c + u)[0] == ch && (c + u)[1..] == u;
      assert PrependAll(c, r) == Prepend(ch, r) by {
        assert c[1..] == [];
      }
    }
  }

  lemma QuoteThrough(e: string, rest: string, depth: nat)
    ensures ScanBalanced(Quote(e) + rest, depth, false) == PrependAll(Quote(e), ScanBalanced(rest, depth, false))
  {
    var body := EscapeBody(e) + "\"";
    var r := ScanBalanced(rest, depth, false);
    assert Quote(e) == "\"" + body by {
      AppendAssoc("\"", EscapeBody(e), "\"");
    }
    assert Quote(e) + rest == "\"" + (body + rest) by {
      AppendAssoc("\"", body, rest);
    }
    OpenQuote(body + rest, depth);
    QuotedBodyThrough(e, rest, depth);
    PrependAllAppend("\"", body, r);
    PrependOne('"', PrependAll(body, r));
  }

  /** An opening quote outside a quoted element starts one. */
  lemma OpenQuote(u: string, depth: nat)
    ensures ScanBalanced("\"" + u, depth, false) == Prepend('"', ScanBalanced(u, depth, true))
  {
    assert ("\"" + u)[0] == '"' && ("\"" + u)[1..] == u;
  }

  lemma PrependOne(c: char, r: Result<Scan, Error>)
    ensures PrependAll([c], r) == Prepend(c, r)
  {
    assert [c][1..] == [];
  }

  lemma NoSpecialIsInert(e: string)
    requires !HasSpecial(e)
    ensures AllInert(e)
  {
    forall i | 0 <= i < |e|
      ensures IsInert(e[i])
    {
      assert !IsSpecial(e[i]);
    }
  }

  /** The balanced capture passes over the piece of a nullable string. */
  lemma FlatPieceThrough(x: Option<string>, v: Variant, rest: string)
    ensures var p := Piece(FlatFormat(x), v);
      ScanBalanced(p + rest, 1, false) == PrependAll(p, ScanBalanced(rest, 1, false))
  {
    var p := Piece(FlatFormat(x), v);
    if x.None? {
      assert AllInert(p) by {
        assert p == "NULL";
      }
      InertThrough(p, rest, 1);
    } else if NeedsQuoting(x.value, v) {
      QuoteThrough(x.value, rest, 1);
    } else {
      NoSpecialIsInert(x.value);
      InertThrough(p, rest, 1);
    }
  }

  lemma {:induction false} JoinThrough(xs: seq<Option<string>>, v: Variant, rest: string)
    ensures var j := Join(Pieces(xs, FlatFormat, v));
      ScanBalanced(j + rest, 1, false) == PrependAll(j, ScanBalanced(rest, 1, false))
  {
    var ps := Pieces(xs, FlatFormat, v);
    if |xs| == 0 {
      assert Join(ps) + rest == rest;
    } else if |xs| == 1 {
      FlatPieceThrough(xs[0], v, rest);
    } else {
      assert ps[1..] == Pieces(xs[1..], FlatFormat, v);
      var j1 := Join(ps[1..]);
      JoinThrough(xs[1..], v, rest);
      FlatPieceThrough(xs[0], v, "," + (j1 + rest));
      SeparatorThrough(ps[0], ",", j1, rest);
      JoinCons(ps, rest);
    }
  }

  lemma SeparatorThrough(p: string, c: string, j1: string, rest: string)
    requires c == ","
    requires ScanBalanced(p + (c + (j1 + rest)), 1, false) == PrependAll(p, ScanBalanced(c + (j1 + rest), 1, false))
    requires ScanBalanced(j1 + rest, 1, false) == PrependAll(j1, ScanBalanced(rest, 1, false))
    ensures ScanBalanced(p + (c + (j1 + rest)), 1, false) == PrependAll(p + (c + j1), ScanBalanced(rest, 1, false))
  {
    var r := ScanBalanced(rest, 1, false);
    assert AllInert(c);
    InertThrough(c, j1 + rest, 1);
    PrependAllAppend(c, j1, r);
    PrependAllAppend(p, c + j1, r);
  }

  /** The balanced capture takes exactly a formatted list of nullable strings. */
  lemma BalancedCapturesList(xs: seq<Option<string>>, v: Variant, t: string)
    ensures ScanBalanced(ListText(xs, FlatFormat, v) + t, 0, false) == Ok(Scan(ListText(xs, FlatFormat, v), t))
  {
    var j := Join(Pieces(xs, FlatFormat, v));
    var u := j + ("}" + t);
    var l := ListText(xs, FlatFormat, v);
    assert l == "{" + (j + "}") && l + t == "{" + u;
    assert ScanBalanced(u, 1, false) == Ok(Scan(j + "}", t)) by {
      JoinThrough(xs, v, "}" + t);
      ClosingBrace(t);
      PrependAllOk(j, "}", t);
    }
    OpeningBrace(u);
  }

  /** The opening brace of the list raises the depth to one. */
  lemma OpeningBrace(u: string)
    ensures ScanBalanced("{" + u, 0, false) == Prepend('{', ScanBalanced(u, 1, false))
  {
    assert ("{" + u)[0] == '{' && ("{" + u)[1..] == u;
  }

  /** At depth one, the closing brace ends the capture. */
  lemma ClosingBrace(t: string)
    ensures ScanBalanced("}" + t, 1, false) == Ok(Scan("}", t))
  {
    assert ("}" + t)[0] == '}' && ("}" + t)[1..] == t;
  }

  /** The element formatter of a list of lists: a nestable inner list. */
  function NestedFormat(xs: seq<Option<string>>): Formatted {
    Formatted(ListText(xs, FlatFormat, Corrected), Yes)
  }

  /** The element parser of a list of lists: the inner list parser. */
  function NestedParse(s: string): Result<seq<Option<string>>, Error> {
    ParseList(s, None, FlatParse, Corrected)
  }

  lemma NestedReadsBack(xs: seq<Option<string>>)
    ensures ReadsBack(Piece(NestedFormat(xs), Corrected), xs, [], NestedParse, Corrected)
  {
    var l := ListText(xs, FlatFormat, Corrected);
    assert Piece(NestedFormat(xs), Corrected) == l;
    forall t: string | t != [] && (t[0] == ',' || t[0] == '}')
      ensures ParseElement(l + t, [], NestedParse, Corrected) == Ok(Parsed(xs, t))
    {
      assert (l + t)[0] == '{';
      BalancedCapturesList(xs, Corrected, t);
      FlatRoundTrip(xs);
    }
  }

  /** With the balanced capture and the corrected quoting, every list of
      lists of nullable strings reads back as itself. */
  lemma NestedRoundTrip(xss: seq<seq<Option<string>>>)
    ensures ParseList(ListText(xss, NestedFormat, Corrected), [], NestedParse, Corrected) == Ok(xss)
  {
    forall i | 0 <= i < |xss|
      ensures ReadsBack(Piece(NestedFormat(xss[i]), Corrected), xss[i], [], NestedParse, Corrected)
    {
      NestedReadsBack(xss[i]);
    }
    ListReadsBack(xss, xss, NestedFormat, [], NestedParse, Corrected);
  }

  // ---------------------------------------------------------------------
  // The nested lists as the source writes and reads them.

  function NestedFormatAsWritten(xs: seq<Option<string>>): Formatted {
    Formatted(ListText(xs, FlatFormat, AsWritten), Yes)
  }

  function NestedParseAsWritten(s: string): Result<seq<Option<string>>, Error> {
    ParseList(s, None, FlatParse, AsWritten)
  }

  predicate NoCloseBrace(s: string) {
    forall i | 0 <= i < |s| :: s[i] != '}'
  }

  lemma {:induction false} ScanToCloseFirst(p: string, t: string)
    requires NoCloseBrace(p)
    ensures ScanToClose(p + "}" + t) == Ok(Scan(p + "}", t))
    decreases |p|
  {
    if p == [] {
      ScanToCloseAtBrace(t);
    } else {
      NoCloseBraceTail(p);
      ScanToCloseFirst(p[1..], t);
      ScanToCloseCons(p, t);
    }
  }

  lemma ScanToCloseAtBrace(t: string)
    ensures ScanToClose([] + "}" + t) == Ok(Scan([] + "}", t))
  {
    assert [] + "}" + t == "}" + t && [] + "}" == "}";
    assert ("}" + t)[1..] == t;
  }

  lemma ScanToCloseCons(p: string, t: string)
    requires p != [] && p[0] != '}'
    requires ScanToClose(p[1..] + "}" + t) == Ok(Scan(p[1..] + "}", t))
    ensures ScanToClose(p + "}" + t) == Ok(Scan(p + "}", t))
  {
    var u := p[1..] + "}" + t;
    var s := p + "}" + t;
    assert s == [p[0]] + u;
    assert s[0] == p[0] && s[1..] == u;
    assert ScanToClose(s) == Prepend(p[0], ScanToClose(u));
    assert [p[0]] + (p[1..] + "}") == p + "}";
  }

  lemma NoCloseBraceTail(p: string)
    requires p != [] && NoCloseBrace(p)
    ensures p[0] != '}' && NoCloseBrace(p[1..])
  {
    forall i | 0 <= i < |p[1..]|
      ensures p[1..][i] != '}'
    {
      assert p[1..][i] == p[i + 1];
    }
  }

  lemma NoCloseBraceAppend(a: string, b: string)
    requires NoCloseBrace(a) && NoCloseBrace(b)
    ensures NoCloseBrace(a + b)
  {
    forall i | 0 <= i < |a + b|
      ensures (a + b)[i] != '}'
    {
      if i < |a| {
        assert (a + b)[i] == a[i];
      } else {
        assert (a + b)[i] == b[i - |a|];
      }
    }
  }

  lemma {:induction false} EscapeBodyNoCloseBrace(e: string)
    requires NoCloseBrace(e)
    ensures NoCloseBrace(EscapeBody(e))
  {
    if e != [] {
      assert e[0] != '}';
      assert NoCloseBrace(e[1..]) by {
        forall i | 0 <= i < |e[1..]|
          ensures e[1..][i] != '}'
        {
          assert e[1..][i] == e[i + 1];
        }
      }
      EscapeBodyNoCloseBrace(e[1..]);
      assert NoCloseBrace(EscapeChar(e[0]));
      NoCloseBraceAppend(EscapeChar(e[0]), EscapeBody(e[1..]));
    }
  }

  /** No string of the list contains `}`. */
  predicate NoCloseBraceInStrings(xs: seq<Option<string>>) {
    forall i | 0 <= i < |xs| :: xs[i].Some? ==> NoCloseBrace(xs[i].value)
  }

  lemma {:induction false} JoinNoCloseBrace(xs: seq<Option<string>>)
    requires NoCloseBraceInStrings(xs)
    ensures NoCloseBrace(Join(Pieces(xs, FlatFormat, AsWritten)))
  {
    var ps := Pieces(xs, FlatFormat, AsWritten);
    if xs != [] {
      var p := ps[0];
      assert NoCloseBrace(p) by {
        if xs[0].None? {
          assert p == "NULL";
        } else if NeedsQuoting(xs[0].value, AsWritten) {
          EscapeBodyNoCloseBrace(xs[0].value);
          NoCloseBraceAppend("\"", EscapeBody(xs[0].value));
          NoCloseBraceAppend("\"" + EscapeBody(xs[0].value), "\"");
        }
      }
      if |xs| > 1 {
        assert ps[1..] == Pieces(xs[1..], FlatFormat, AsWritten);
        assert NoCloseBraceInStrings(xs[1..]) by {
          forall i | 0 <= i < |xs[1..]|
            ensures xs[1..][i].Some? ==> NoCloseBrace(xs[1..][i].value)
          {
            assert xs[1..][i] == xs[i + 1];
          }
        }
        JoinNoCloseBrace(xs[1..]);
        NoCloseBraceAppend(p, ",");
        NoCloseBraceAppend(p + ",", Join(ps[1..]));
      }
    }
  }

  lemma NestedReadsBackAsWritten(xs: seq<Option<string>>)
    requires NoCloseBraceInStrings(xs)
    ensures ReadsBack(Piece(NestedFormatAsWritten(xs), AsWritten),
                      seq(|xs|, i requires 0 <= i < |xs| => AsRead(xs[i])), [], NestedParseAsWritten, AsWritten)
  {
    var l := ListText(xs, FlatFormat, AsWritten);
    var j := Join(Pieces(xs, FlatFormat, AsWritten));
    assert Piece(NestedFormatAsWritten(xs), AsWritten) == l;
    JoinNoCloseBrace(xs);
    NoCloseBraceAppend("{", j);
    forall t: string | t != [] && (t[0] == ',' || t[0] == '}')
      ensures ParseElement(l + t, [], NestedParseAsWritten, AsWritten)
           == Ok(Parsed(seq(|xs|, i requires 0 <= i < |xs| => AsRead(xs[i])), t))
    {
      assert (l + t)[0] == '{';
      assert l + t == ("{" + j) + "}" + t;
      ScanToCloseFirst("{" + j, t);
      FlatRoundTripAsWritten(xs);
    }
  }

  /** As the source is written, a list of lists reads back (up to disguised
      nulls) whenever no inner string contains `}`. */
  lemma NestedRoundTripAsWritten(xss: seq<seq<Option<string>>>)
    requires forall k | 0 <= k < |xss| :: NoCloseBraceInStrings(xss[k])
    ensures ParseList(ListText(xss, NestedFormatAsWritten, AsWritten), [], NestedParseAsWritten, AsWritten)
         == Ok(seq(|xss|, k requires 0 <= k < |xss| => seq(|xss[k]|, i requires 0 <= i < |xss[k]| => AsRead(xss[k][i]))))
  {
    var yss := seq(|xss|, k requires 0 <= k < |xss| => seq(|xss[k]|, i requires 0 <= i < |xss[k]| => AsRead(xss[k][i])));
    forall k | 0 <= k < |xss|
      ensures ReadsBack(Piece(NestedFormatAsWritten(xss[k]), AsWritten), yss[k], [], NestedParseAsWritten, AsWritten)
    {
      NestedReadsBackAsWritten(xss[k]);
    }
    ListReadsBack(xss, yss, NestedFormatAsWritten, [], NestedParseAsWritten, AsWritten);
  }

  /** A `}` inside a quoted inner string ends the source's capture early:
      the list holding the list holding `a}` fails to read back. */
  lemma NestedCloseBraceBreaks()
    ensures ListText([[Some("a}")]], NestedFormatAsWritten, AsWritten) == "{{\"a}\"}}"
    ensures ParseList("{{\"a}\"}}", [], NestedParseAsWritten, AsWritten) == Err(EndOfInput)
  {
    OuterText();
    CloseBraceOuter();
  }

  lemma BracePiece()
    ensures Piece(FlatFormat(Some("a}")), AsWritten) == "\"a}\""
  {
    assert HasSpecial("a}") by {
      assert IsSpecial("a}"[1]);
    }
    assert EscapeBody("a}") == "a}" by {
      assert EscapeBody("}") == "}" + EscapeBody([]);
    }
  }

  lemma InnerText()
    ensures ListText([Some("a}")], FlatFormat, AsWritten) == "{\"a}\"}"
  {
    BracePiece();
    assert Pieces([Some("a}")], FlatFormat, AsWritten) == ["\"a}\""];
  }

  lemma OuterText()
    ensures ListText([[Some("a}")]], NestedFormatAsWritten, AsWritten) == "{{\"a}\"}}"
  {
    InnerText();
    assert Pieces([[Some("a}")]], NestedFormatAsWritten, AsWritten) == ["{\"a}\"}"];
  }

  lemma CloseBraceOuter()
    ensures ParseList("{{\"a}\"}}", [], NestedParseAsWritten, AsWritten) == Err(EndOfInput)
  {
    var items := "{\"a}\"}}";
    assert "{{\"a}\"}}" == "{" + items;
    ParseListOpen(items, [], NestedParseAsWritten, AsWritten);
    CaptureStopsEarly();
    CloseBraceInner();
    NestedCaptureFails(items, "{\"a}", "\"}}", EndOfInput);
  }

  /** The source's capture of the outer list's only element stops at the
      brace inside the quotes. */
  lemma CaptureStopsEarly()
    ensures ScanToClose("{\"a}\"}}") == Ok(Scan("{\"a}", "\"}}"))
  {
    var head := "{\"a";
    assert NoCloseBrace(head) by {
      forall i | 0 <= i < |head|
        ensures head[i] != '}'
      {
      }
    }
    ScanToCloseFirst(head, "\"}}");
    assert head + "}" + "\"}}" == "{\"a}\"}}";
    assert head + "}" == "{\"a}";
  }

  /** When the captured nested text fails to parse, so does the list. */
  lemma NestedCaptureFails(s: string, x: string, r: string, e: Error)
    requires s != [] && s[0] == '{'
    requires ScanToClose(s) == Ok(Scan(x, r))
    requires NestedParseAsWritten(x) == Err(e)
    ensures ParseItems(s, [], NestedParseAsWritten, AsWritten) == Err(e)
  {
    assert ParseElement(s, [], NestedParseAsWritten, AsWritten) == Err(e);
  }

  lemma CloseBraceInner()
    ensures NestedParseAsWritten("{\"a}") == Err(EndOfInput)
  {
    assert "{\"a}" == "{" + "\"a}";
    ParseListOpen("\"a}", None, FlatParse, AsWritten);
    QuotedAB();
  }

  lemma QuotedAB()
    ensures ParseItems("\"a}", None, FlatParse, AsWritten) == Err(EndOfInput)
  {
    assert "\"a}"[1..] == "a}";
    assert ScanQuoted("}") == Prepend('}', ScanQuoted([])) by {
      assert "}"[1..] == [];
    }
    assert ScanQuoted("a}") == Prepend('a', ScanQuoted("}")) by {
      assert "a}"[1..] == "}";
    }
  }
}
