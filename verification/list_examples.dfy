/**
 * Shapes of list literals that `parse_list` accepts or refuses, stated for
 * any bare word (letters and digits), and the one place where the two
 * variants of the parser part ways: input after the closing brace.
 */
module ListExamples {
  import opened Results
  import opened Text
  import opened Strconv
  import opened ListEscape
  import opened ListFormat
  import opened ListParse
  import opened ListRoundTrip

  /** Letters and digits only. */
  predicate IsWord(e: string) {
    e != [] && forall i | 0 <= i < |e| :: 'a' <= e[i] <= 'z' || 'A' <= e[i] <= 'Z' || '0' <= e[i] <= '9'
  }

  /** A word is written bare and is its own trim. */
  lemma Word(e: string)
    requires IsWord(e)
    ensures !HasSpecial(e) && Trim(e) == e
  {
    assert !IsWhitespace(e[0]) && !IsWhitespace(e[|e| - 1]);
    TrimNoop(e);
  }

  /** A bare word other than `NULL` reads back as itself. */
  lemma WordReadsBack(e: string, v: Variant)
    requires IsWord(e) && e != "NULL"
    ensures ReadsBack(e, Some(e), None, FlatParse, v)
  {
    Word(e);
    PlainReadsBack(e, Some(e), None, FlatParse, v);
  }

  /** Elements are separated by commas, and an unquoted `NULL` is the null
      value: `{a,NULL,b}` is `[a, null, b]`. */
  lemma WordsAroundNull(a: string, b: string, v: Variant)
    requires IsWord(a) && a != "NULL" && IsWord(b) && b != "NULL"
    ensures ParseList("{" + a + ",NULL," + b + "}", None, FlatParse, v) == Ok([Some(a), None, Some(b)])
  {
    var x := a + "," + ("NULL" + "," + (b + "}"));
    ItemsAroundNull(a, b, v);
    ParseListOpen(x, None, FlatParse, v);
    ShapeAroundNull(a, b);
  }

  lemma ItemsAroundNull(a: string, b: string, v: Variant)
    requires IsWord(a) && a != "NULL" && IsWord(b) && b != "NULL"
    ensures ParseItems(a + "," + ("NULL" + "," + (b + "}")), None, FlatParse, v) == Ok([Some(a), None, Some(b)])
  {
    var z := b + "}";
    var y := "NULL" + "," + z;
    assert ParseItems(z, None, FlatParse, v) == Ok([Some(b)]) by {
      WordReadsBack(b, v);
      ItemsLast(b, Some(b), None, FlatParse, v);
    }
    assert ParseItems(y, None, FlatParse, v) == Ok([None] + [Some(b)]) by {
      NullReadsBack(None, FlatParse, v);
      ItemsStep("NULL", None, z, None, FlatParse, v);
    }
    assert ParseItems(a + "," + y, None, FlatParse, v) == Ok([Some(a)] + ([None] + [Some(b)])) by {
      WordReadsBack(a, v);
      ItemsStep(a, Some(a), y, None, FlatParse, v);
    }
    assert [Some(a)] + ([None] + [Some(b)]) == [Some(a), None, Some(b)];
  }

  lemma ShapeAroundNull(a: string, b: string)
    ensures "{" + a + ",NULL," + b + "}" == "{" + (a + "," + ("NULL" + "," + (b + "}")))
  {
  }

  /** A comma directly before the closing brace is accepted and adds no
      element: `{a,}` is `[a]`. */
  lemma TrailingCommaAccepted(a: string, v: Variant)
    requires IsWord(a) && a != "NULL"
    ensures ParseList("{" + a + ",}", None, FlatParse, v) == Ok([Some(a)])
  {
    ItemsTrailingComma(a, v);
    ParseListOpen(a + "," + "}", None, FlatParse, v);
    ShapeTrailingComma(a);
  }

  lemma ItemsTrailingComma(a: string, v: Variant)
    requires IsWord(a) && a != "NULL"
    ensures ParseItems(a + "," + "}", None, FlatParse, v) == Ok([Some(a)])
  {
    WordReadsBack(a, v);
    var u := "}";
    assert ParseItems(u, None, FlatParse, v) == Ok([]);
    ItemsStep(a, Some(a), u, None, FlatParse, v);
    assert [Some(a)] + [] == [Some(a)];
  }

  lemma ShapeTrailingComma(a: string)
    ensures "{" + a + ",}" == "{" + (a + "," + "}")
  {
  }

  /** A word, then the closing brace and whatever follows it. */
  lemma WordThenClose(a: string, rest: string, v: Variant)
    requires IsWord(a) && a != "NULL"
    ensures ParseList("{" + a + "}" + rest, None, FlatParse, v)
         == ParseDelimiter(Some(a), "}" + rest, None, FlatParse, v)
  {
    var t := "}" + rest;
    ItemsWordThenClose(a, rest, v);
    ParseListOpen(a + t, None, FlatParse, v);
    ShapeWordThenClose(a, rest);
  }

  lemma ItemsWordThenClose(a: string, rest: string, v: Variant)
    requires IsWord(a) && a != "NULL"
    ensures ParseItems(a + ("}" + rest), None, FlatParse, v)
         == ParseDelimiter(Some(a), "}" + rest, None, FlatParse, v)
  {
    WordReadsBack(a, v);
    var t := "}" + rest;
    assert ParseElement(a + t, None, FlatParse, v) == Ok(Parsed(Some(a), t));
    assert SkipSpaces(t) == t;
  }

  lemma ShapeWordThenClose(a: string, rest: string)
    ensures "{" + a + "}" + rest == "{" + (a + ("}" + rest))
  {
  }

  /** As written, text after the closing brace that follows an element is
      ignored: `{a}xyz` is `[a]`. */
  lemma LeftoverIgnored(a: string, rest: string)
    requires IsWord(a) && a != "NULL"
    ensures ParseList("{" + a + "}" + rest, None, FlatParse, AsWritten) == Ok([Some(a)])
  {
    WordThenClose(a, rest, AsWritten);
  }

  /** With the check, the first character after that brace is reported. */
  lemma LeftoverRefused(a: string, rest: string)
    requires IsWord(a) && a != "NULL" && rest != []
    ensures ParseList("{" + a + "}" + rest, None, FlatParse, Corrected)
         == Err(Message("unexpected leftover input " + [rest[0]]))
  {
    WordThenClose(a, rest, Corrected);
    assert ("}" + rest)[1] == rest[0];
  }

  /** Text after the closing brace of an empty list is refused by both. */
  lemma LeftoverAfterEmpty(rest: string, v: Variant)
    requires rest != []
    ensures ParseList("{}" + rest, None, FlatParse, v) == Err(Message("unexpected leftover input " + [rest[0]]))
  {
    var x := "}" + rest;
    ParseListOpen(x, None, FlatParse, v);
    assert x[1] == rest[0];
    assert "{" + x == "{}" + rest;
  }

  /** Puts the characters of `p` in front of the collected text of a scan. */
  function PrependAllUnquoted(p: string, r: Result<Scan, Error>): Result<Scan, Error>
    decreases |p|
  {
    if p == [] then r else Prepend(p[0], PrependAllUnquoted(p[1..], r))
  }

  lemma {:induction false} WordUnquoted(a: string, t: string)
    requires IsWord(a)
    ensures ScanUnquoted(a + t) == PrependAllUnquoted(a, ScanUnquoted(t))
    decreases |a|
  {
    assert (a + t)[0] == a[0] && (a + t)[1..] == a[1..] + t;
    if |a| > 1 {
      assert IsWord(a[1..]) by {
        assert forall i | 0 <= i < |a[1..]| :: a[1..][i] == a[i + 1];
      }
      WordUnquoted(a[1..], t);
    } else {
      assert a[1..] + t == t;
    }
  }

  lemma {:induction false} ErrThroughPrepend(p: string, e: Error)
    ensures PrependAllUnquoted(p, Err(e)) == Err(e)
    decreases |p|
  {
    if p != [] {
      ErrThroughPrepend(p[1..], e);
    }
  }

  lemma {:induction false} OkThroughPrepend(p: string, t: string)
    ensures PrependAllUnquoted(p, Ok(Scan([], t))) == Ok(Scan(p, t))
    decreases |p|
  {
    if p != [] {
      OkThroughPrepend(p[1..], t);
      assert [p[0]] + p[1..] == p;
    }
  }

  /** Input that ends inside an element is refused: `{a`. */
  lemma EndsInElement(a: string, v: Variant)
    requires IsWord(a)
    ensures ParseList("{" + a, None, FlatParse, v) == Err(EndOfInput)
  {
    ItemsEndInWord(a, v);
    ParseListOpen(a, None, FlatParse, v);
  }

  lemma ItemsEndInWord(a: string, v: Variant)
    requires IsWord(a)
    ensures ParseItems(a, None, FlatParse, v) == Err(EndOfInput)
  {
    WordUnquoted(a, []);
    ErrThroughPrepend(a, EndOfInput);
    assert a + [] == a;
    assert ParseElement(a, None, FlatParse, v) == Err(EndOfInput);
  }

  /** An element followed, after spaces, by anything but a comma or a
      brace is refused: `{a b}`. */
  lemma NoDelimiter(a: string, b: string, v: Variant)
    requires IsWord(a) && a != "NULL" && IsWord(b)
    ensures ParseList("{" + a + " " + b + "}", None, FlatParse, v)
         == Err(Message("expected ',' or '}', found '" + [b[0]] + "'"))
  {
    var t := " " + b + "}";
    ItemsNoDelimiter(a, b, v);
    ParseListOpen(a + t, None, FlatParse, v);
    ShapeNoDelimiter(a, b);
  }

  lemma WordThenSpace(a: string, t: string, v: Variant)
    requires IsWord(a) && a != "NULL" && t != [] && t[0] == ' '
    ensures ParseElement(a + t, None, FlatParse, v) == Ok(Parsed(Some(a), t))
  {
    WordUnquoted(a, t);
    assert ScanUnquoted(t) == Ok(Scan([], t));
    OkThroughPrepend(a, t);
    Word(a);
  }

  lemma ShapeNoDelimiter(a: string, b: string)
    ensures "{" + a + " " + b + "}" == "{" + (a + (" " + b + "}"))
  {
  }

  /** Inside quotes only `\\` and `\"` are escapes: a backslash before any
      other character is refused and named. */
  lemma BadEscape(c: char, rest: string, v: Variant)
    requires c != '\\' && c != '"'
    ensures ParseList("{\"\\" + [c] + rest, None, FlatParse, v) == Err(Message("bad escape \\" + [c]))
  {
    var q := "\\" + [c] + rest;
    var x := "\"" + q;
    ParseListOpen(x, None, FlatParse, v);
    assert q[0] == '\\' && q[1] == c && |q| > 1;
    assert x[1..] == q;
    assert "{" + x == "{\"\\" + [c] + rest;
  }

  /** A quoted element is always a string, even when it reads `NULL`. */
  lemma QuotedIsString(e: string, v: Variant)
    ensures ParseList("{" + Quote(e) + "}", None, FlatParse, v) == Ok([Some(e)])
  {
    var q := Quote(e);
    QuotedLast(e, v);
    Braced(q);
    ParseListOpen(q + "}", None, FlatParse, v);
  }

  lemma QuotedLast(e: string, v: Variant)
    ensures ParseItems(Quote(e) + "}", None, FlatParse, v) == Ok([Some(e)])
  {
    QuotedReadsBack(e, Some(e), None, FlatParse, v);
    ItemsLast(Quote(e), Some(e), None, FlatParse, v);
  }

  lemma Braced(x: string)
    ensures "{" + x + "}" == "{" + (x + "}")
  {
    AppendAssoc("{", x, "}");
  }

  lemma ItemsNoDelimiter(a: string, b: string, v: Variant)
    requires IsWord(a) && a != "NULL" && IsWord(b)
    ensures ParseItems(a + (" " + b + "}"), None, FlatParse, v)
         == Err(Message("expected ',' or '}', found '" + [b[0]] + "'"))
  {
    var t := " " + b + "}";
    ItemsAtWord(a, t, v);
    SkipOneSpace(b);
    DelimiterOther(Some(a), b + "}", v);
  }

  lemma ItemsAtWord(a: string, t: string, v: Variant)
    requires IsWord(a) && a != "NULL" && t != [] && t[0] == ' '
    ensures ParseItems(a + t, None, FlatParse, v) == ParseDelimiter(Some(a), SkipSpaces(t), None, FlatParse, v)
  {
    WordThenSpace(a, t, v);
    assert (a + t)[0] == a[0];
    ItemsAtElement(a + t, None, FlatParse, v);
  }

  lemma SkipOneSpace(b: string)
    requires IsWord(b)
    ensures SkipSpaces(" " + b + "}") == b + "}" && (b + "}")[0] == b[0]
  {
    var t := " " + b + "}";
    assert t[1..] == b + "}";
    assert t[1..][0] == b[0];
  }

  /** Anything but a comma or a brace where a delimiter belongs is named. */
  lemma DelimiterOther(x: Option<string>, t: string, v: Variant)
    requires t != [] && t[0] != ',' && t[0] != '}'
    ensures ParseDelimiter(x, t, None, FlatParse, v) == Err(Message("expected ',' or '}', found '" + [t[0]] + "'"))
  {
  }
}
