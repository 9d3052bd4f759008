/**
 * `parse_list` of `repr::strconv`: a single left-to-right scan of a list
 * literal. The character iterator of the source is the suffix of the
 * input still to be read; each scanning loop is a function from a suffix
 * to the text it collects and the suffix after it.
 *
 * The null constructor and the element parser are parameters, as in the
 * source; their side effects are not modelled.
 */
module ListParse {
  import opened Results
  import opened Text
  import opened Strconv
  import opened ListEscape

  const EndOfInput := Message("unexpected end of input")

  /** The text of one element and the input after it. */
  datatype Scan = Scan(text: string, rest: string)

  /** A parsed element and the input after it. */
  datatype Parsed<+T> = Parsed(value: T, rest: string)

  /** `rest` is what is left of `s` after a prefix has been read. */
  predicate IsSuffix(rest: string, s: string) {
    |rest| <= |s| && rest == s[|s| - |rest|..]
  }

  /** Puts `c` in front of the collected text of a successful scan. */
  function Prepend(c: char, r: Result<Scan, Error>): Result<Scan, Error> {
    if r.Ok? then Ok(Scan([c] + r.value.text, r.value.rest)) else r
  }

  /** The body of a quoted element, after its opening quote: collects up to
      the closing quote, which it consumes, undoing `\\` and `\"`. */
  function ScanQuoted(s: string): (r: Result<Scan, Error>)
    ensures r.Ok? ==> IsSuffix(r.value.rest, s) && |r.value.rest| < |s|
    decreases |s|
  {
    if s == [] then Err(EndOfInput)
    else if s[0] == '"' then Ok(Scan([], s[1..]))
    else if s[0] == '\\' then
      if |s| == 1 then Err(EndOfInput)
      else if s[1] == '\\' || s[1] == '"' then Prepend(s[1], ScanQuoted(s[2..]))
      else Err(Message("bad escape \\" + [s[1]]))
    else Prepend(s[0], ScanQuoted(s[1..]))
  }

  /** Characters that end an unquoted element; they are not consumed. */
  predicate EndsUnquoted(c: char) {
    c == '}' || c == ',' || c == ' '
  }

  /** An unquoted element: collects up to `}`, `,` or a space. */
  function ScanUnquoted(s: string): (r: Result<Scan, Error>)
    ensures r.Ok? ==> r.value.text + r.value.rest == s
    ensures r.Ok? ==> r.value.rest != [] && EndsUnquoted(r.value.rest[0])
    decreases |s|
  {
    if s == [] then Err(EndOfInput)
    else if EndsUnquoted(s[0]) then Ok(Scan([], s))
    else Prepend(s[0], ScanUnquoted(s[1..]))
  }

  /** The error for a backslash inside quotes before anything but `\\` or `"`. */
  predicate IsBadEscape(e: Error) {
    e.Message? && |e.text| == 13 && e.text[..12] == "bad escape \\" && !IsEscaped(e.text[12])
  }

  lemma EscapeBodyCons(c: char, t: string)
    ensures EscapeBody([c] + t) == EscapeChar(c) + EscapeBody(t)
  {
    assert ([c] + t)[0] == c && ([c] + t)[1..] == t;
  }

  /** The converse of quoting: the input a successful quoted scan consumes is
      the escaped form of the text it collects, then the closing quote. It
      fails only at the end of the input or at a bad escape. */
  lemma {:induction false} ScanQuotedInverts(s: string)
    ensures var r := ScanQuoted(s);
      r.Ok? ==> s[..|s| - |r.value.rest|] == EscapeBody(r.value.text) + "\""
    ensures var r := ScanQuoted(s);
      r.Err? ==> r.error == EndOfInput || IsBadEscape(r.error)
    decreases |s|
  {
    if s == [] || s[0] == '"' {
    } else if s[0] == '\\' {
      if |s| > 1 && IsEscaped(s[1]) {
        ScanQuotedInverts(s[2..]);
        QuotedStep(s, 2, s[1], ScanQuoted(s[2..]));
      } else if |s| > 1 {
        var e := Message("bad escape \\" + [s[1]]);
        assert e.text[..12] == "bad escape \\" && e.text[12] == s[1];
      }
    } else {
      ScanQuotedInverts(s[1..]);
      QuotedStep(s, 1, s[0], ScanQuoted(s[1..]));
    }
  }

  /** One step of a quoted scan: the `k` characters read stand for `c`. */
  lemma QuotedStep(s: string, k: nat, c: char, r: Result<Scan, Error>)
    requires k <= |s| && s[..k] == EscapeChar(c)
    requires r.Ok? ==> IsSuffix(r.value.rest, s[k..])
    requires r.Ok? ==> s[k..][..|s| - k - |r.value.rest|] == EscapeBody(r.value.text) + "\""
    ensures var p := Prepend(c, r);
      p.Ok? ==> s[..|s| - |p.value.rest|] == EscapeBody(p.value.text) + "\""
  {
    if r.Ok? {
      var n := |s| - |r.value.rest|;
      EscapeBodyCons(c, r.value.text);
      assert s[..n] == s[..k] + s[k..][..n - k];
      ConcatAssoc(s[..k], EscapeBody(r.value.text), "\"");
    }
  }

  /** An unquoted scan collects no delimiter, and it fails, at the end of the
      input, exactly when no delimiter follows. */
  lemma {:induction false} ScanUnquotedStops(s: string)
    ensures var r := ScanUnquoted(s);
      r.Ok? ==> forall i | 0 <= i < |r.value.text| :: !EndsUnquoted(r.value.text[i])
    ensures ScanUnquoted(s).Err? <==> forall i | 0 <= i < |s| :: !EndsUnquoted(s[i])
    ensures ScanUnquoted(s).Err? ==> ScanUnquoted(s).error == EndOfInput
    decreases |s|
  {
    if s != [] && !EndsUnquoted(s[0]) {
      ScanUnquotedStops(s[1..]);
      var r := ScanUnquoted(s[1..]);
      if r.Ok? {
        forall i | 0 <= i < |r.value.text| + 1
          ensures !EndsUnquoted(([s[0]] + r.value.text)[i])
        {
          if i > 0 { assert ([s[0]] + r.value.text)[i] == r.value.text[i - 1]; }
        }
      } else {
        forall i | 0 <= i < |s|
          ensures !EndsUnquoted(s[i])
        {
          if i > 0 { assert s[i] == s[1..][i - 1]; }
        }
      }
    }
  }

  /** A nested list as the source captures it: everything up to and
      including the first `}`. */
  function ScanToClose(s: string): (r: Result<Scan, Error>)
    ensures r.Ok? ==> r.value.text + r.value.rest == s
    ensures r.Ok? ==> r.value.text != [] && r.value.text[|r.value.text| - 1] == '}'
    decreases |s|
  {
    if s == [] then Err(EndOfInput)
    else if s[0] == '}' then Ok(Scan("}", s[1..]))
    else Prepend(s[0], ScanToClose(s[1..]))
  }

  /** The capture of the source stops at the FIRST `}`: it succeeds exactly
      when one lies ahead, fails at the end of the input otherwise, and its
      text holds no `}` before the last character. */
  lemma {:induction false} ScanToCloseStops(s: string)
    ensures ScanToClose(s).Ok? <==> '}' in s
    ensures ScanToClose(s).Err? ==> ScanToClose(s).error == EndOfInput
    ensures var r := ScanToClose(s);
      r.Ok? ==> '}' !in r.value.text[..|r.value.text| - 1]
    decreases |s|
  {
    if s != [] && s[0] != '}' {
      ScanToCloseStops(s[1..]);
      assert s == [s[0]] + s[1..];
      var r := ScanToClose(s[1..]);
      if r.Ok? {
        assert ([s[0]] + r.value.text)[..|r.value.text|] == [s[0]] + r.value.text[..|r.value.text| - 1];
      }
    }
  }

  /** A nested list captured up to its matching `}`: braces are counted
      outside quoted elements, and inside them a backslash protects the
      character after it. `depth` is the number of open braces. */
  function ScanBalanced(s: string, depth: nat, inQuote: bool): (r: Result<Scan, Error>)
    ensures r.Ok? ==> r.value.text + r.value.rest == s
    ensures r.Ok? ==> r.value.text != [] && r.value.text[|r.value.text| - 1] == '}'
    decreases |s|
  {
    if s == [] then Err(EndOfInput)
    else if inQuote && s[0] == '\\' then
      if |s| == 1 then Err(EndOfInput)
      else
        var r := ScanBalanced(s[2..], depth, true);
        PrependKeeps(s[1], r, s[1..]);
        PrependKeeps(s[0], Prepend(s[1], r), s);
        Prepend(s[0], Prepend(s[1], r))
    else if !inQuote && s[0] == '}' && depth <= 1 then Ok(Scan("}", s[1..]))
    else
      var r := ScanBalanced(s[1..], BalancedDepth(s[0], depth, inQuote), BalancedInQuote(s[0], inQuote));
      PrependKeeps(s[0], r, s);
      Prepend(s[0], r)
  }

  /** The depth after character `c` outside an escape. */
  function BalancedDepth(c: char, depth: nat, inQuote: bool): nat {
    if inQuote then depth
    else if c == '{' then depth + 1
    else if c == '}' then (if depth == 0 then 0 else depth - 1)
    else depth
  }

  /** Whether the scan is inside a quoted element after character `c`. */
  function BalancedInQuote(c: char, inQuote: bool): bool {
    if inQuote then c != '"' else c == '"'
  }

  /** Putting the character a scan started from back in front keeps the
      scan's text and rest a split of the input ending in `}`. */
  lemma PrependKeeps(c: char, r: Result<Scan, Error>, s: string)
    requires s != [] && s[0] == c
    requires r.Ok? ==> r.value.text + r.value.rest == s[1..]
    requires r.Ok? ==> r.value.text != [] && r.value.text[|r.value.text| - 1] == '}'
    ensures var p := Prepend(c, r);
      && (p.Ok? ==> p.value.text + p.value.rest == s)
      && (p.Ok? ==> p.value.text != [] && p.value.text[|p.value.text| - 1] == '}')
  {
    if r.Ok? {
      assert [c] + r.value.text + r.value.rest == [c] + (r.value.text + r.value.rest);
      assert [c] + s[1..] == s;
    }
  }

  function ScanNested(s: string, v: Variant): (r: Result<Scan, Error>)
    ensures r.Ok? ==> r.value.text + r.value.rest == s && r.value.text != []
  {
    if v == AsWritten then ScanToClose(s) else ScanBalanced(s, 0, false)
  }

  lemma SuffixAfter(p: string, rest: string, s: string)
    requires p + rest == s
    ensures IsSuffix(rest, s)
  {
    assert s[|s| - |rest|..] == rest;
  }

  lemma SuffixOfTail(rest: string, s: string)
    requires s != [] && IsSuffix(rest, s[1..])
    ensures IsSuffix(rest, s)
  {
    assert s[1..][|s| - 1 - |rest|..] == s[|s| - |rest|..];
  }

  /** A quoted element: the unescaped body goes to the element parser. */
  function ParseQuotedElement<T>(s: string, parseElem: string -> Result<T, Error>): (r: Result<Parsed<T>, Error>)
    requires s != [] && s[0] == '"'
    ensures r.Ok? ==> IsSuffix(r.value.rest, s)
  {
    var sc :- ScanQuoted(s[1..]);
    var x :- parseElem(sc.text);
    SuffixOfTail(sc.rest, s);
    Ok(Parsed(x, sc.rest))
  }

  /** A quoted element consumes exactly the quoted form of the text it hands
      to the element parser, whose result is the element; it fails only at
      the end of the input, at a bad escape or with the parser's error. */
  lemma QuotedElementMeaning<T>(s: string, parseElem: string -> Result<T, Error>)
    requires s != [] && s[0] == '"'
    ensures var r := ParseQuotedElement(s, parseElem);
      r.Ok? ==> ScanQuoted(s[1..]).Ok?
    ensures var r := ParseQuotedElement(s, parseElem);
      r.Ok? ==>
        var body := ScanQuoted(s[1..]).value.text;
        s[..|s| - |r.value.rest|] == Quote(body) && parseElem(body) == Ok(r.value.value)
    ensures var r := ParseQuotedElement(s, parseElem);
      r.Err? ==>
        || r.error == EndOfInput || IsBadEscape(r.error)
        || (ScanQuoted(s[1..]).Ok? && parseElem(ScanQuoted(s[1..]).value.text) == Err(r.error))
  {
    ScanQuotedInverts(s[1..]);
    var sc := ScanQuoted(s[1..]);
    if sc.Ok? {
      QuotedConsumed(s, sc.value);
    }
  }

  lemma QuotedConsumed(s: string, sc: Scan)
    requires s != [] && s[0] == '"' && |sc.rest| < |s|
    requires s[1..][..|s| - 1 - |sc.rest|] == EscapeBody(sc.text) + "\""
    ensures s[..|s| - |sc.rest|] == Quote(sc.text)
  {
    var n := |s| - |sc.rest|;
    assert s[..n] == [s[0]] + s[1..][..n - 1];
    ConcatAssoc("\"", EscapeBody(sc.text), "\"");
  }

  /** A nested list: the captured text, braces included, goes to the
      element parser. */
  function ParseNestedElement<T>(s: string, parseElem: string -> Result<T, Error>, v: Variant): (r: Result<Parsed<T>, Error>)
    ensures r.Ok? ==> IsSuffix(r.value.rest, s)
  {
    var sc :- ScanNested(s, v);
    var x :- parseElem(sc.text);
    SuffixAfter(sc.text, sc.rest, s);
    Ok(Parsed(x, sc.rest))
  }

  /** An unquoted element: null when its trimmed text is `NULL`, otherwise
      the untrimmed text goes to the element parser. */
  function ParseUnquotedElement<T>(s: string, nullValue: T, parseElem: string -> Result<T, Error>): (r: Result<Parsed<T>, Error>)
    ensures r.Ok? ==> IsSuffix(r.value.rest, s)
  {
    var sc :- ScanUnquoted(s);
    SuffixAfter(sc.text, sc.rest, s);
    if Trim(sc.text) == "NULL" then Ok(Parsed(nullValue, sc.rest))
    else
      var x :- parseElem(sc.text);
      Ok(Parsed(x, sc.rest))
  }

  /** An unquoted element consumes text without `}`, `,` or space, up to one
      of them: null when that text trims to `NULL`, otherwise the element
      parser's result on the untrimmed text. With no delimiter ahead it fails
      at the end of the input. */
  lemma UnquotedElementMeaning<T>(s: string, nullValue: T, parseElem: string -> Result<T, Error>)
    ensures var r := ParseUnquotedElement(s, nullValue, parseElem);
      r.Ok? ==>
        var text := s[..|s| - |r.value.rest|];
        && (forall i | 0 <= i < |text| :: !EndsUnquoted(text[i]))
        && r.value.rest != [] && EndsUnquoted(r.value.rest[0])
        && (Trim(text) == "NULL" ==> r.value.value == nullValue)
        && (Trim(text) != "NULL" ==> parseElem(text) == Ok(r.value.value))
    ensures (forall i | 0 <= i < |s| :: !EndsUnquoted(s[i])) ==>
      ParseUnquotedElement(s, nullValue, parseElem) == Err(EndOfInput)
  {
    ScanUnquotedStops(s);
    var sc := ScanUnquoted(s);
    if sc.Ok? {
      assert s[..|s| - |sc.value.rest|] == sc.value.text;
    }
  }

  /** One element, at a character that is neither `}` nor a space: a quoted
      element, a nested list or an unquoted element. */
  function ParseElement<T>(s: string, nullValue: T, parseElem: string -> Result<T, Error>, v: Variant)
    : (r: Result<Parsed<T>, Error>)
    requires s != [] && s[0] != '}' && s[0] != ' '
    ensures r.Ok? ==> IsSuffix(r.value.rest, s)
  {
    if s[0] == '"' then ParseQuotedElement(s, parseElem)
    else if s[0] == '{' then ParseNestedElement(s, parseElem, v)
    else ParseUnquotedElement(s, nullValue, parseElem)
  }

  /** Drops the spaces at the head of the input. */
  function SkipSpaces(s: string): (r: string)
    ensures IsSuffix(r, s)
    ensures r == [] || r[0] != ' '
    ensures forall i | 0 <= i < |s| - |r| :: s[i] == ' '
  {
    if s != [] && s[0] == ' ' then SkipSpaces(s[1..]) else s
  }

  /** The loop of `parse_list`, after the opening brace or a comma. */
  function ParseItems<T>(s: string, nullValue: T, parseElem: string -> Result<T, Error>, v: Variant)
    : (r: Result<seq<T>, Error>)
    decreases |s|, 1
  {
    if s == [] then Err(EndOfInput)
    else if s[0] == '}' then
      if |s| > 1 then Err(Message("unexpected leftover input " + [s[1]])) else Ok([])
    else if s[0] == ' ' then ParseItems(s[1..], nullValue, parseElem, v)
    else
      var p :- ParseElement(s, nullValue, parseElem, v);
      ParseDelimiter(p.value, SkipSpaces(p.rest), nullValue, parseElem, v)
  }

  /** After element `x` and the spaces that follow it: a comma continues
      the list and a `}` ends it. */
  function ParseDelimiter<T>(x: T, t: string, nullValue: T, parseElem: string -> Result<T, Error>, v: Variant)
    : (r: Result<seq<T>, Error>)
    decreases |t|, 0
  {
    if t == [] then Err(EndOfInput)
    else if t[0] == ',' then
      var tail :- ParseItems(t[1..], nullValue, parseElem, v);
      Ok([x] + tail)
    else if t[0] == '}' then
      if v == Corrected && |t| > 1 then Err(Message("unexpected leftover input " + [t[1]]))
      else Ok([x])
    else Err(Message("expected ',' or '}', found '" + [t[0]] + "'"))
  }

  /** `parse_list(s, make_null, parse_elem)`. */
  function ParseList<T>(s: string, nullValue: T, parseElem: string -> Result<T, Error>, v: Variant)
    : (r: Result<seq<T>, Error>)
    ensures r.Ok? ==> s != [] && s[0] == '{'
  {
    if s == [] then Err(EndOfInput)
    else if s[0] != '{' then Err(Message("expected '{', found " + [s[0]]))
    else ParseItems(s[1..], nullValue, parseElem, v)
  }

  /** With the leftover check after an element, every accepted list
      literal ends with its closing brace. */
  lemma {:induction false} ParseItemsEndsAtClose<T>(s: string, nullValue: T, parseElem: string -> Result<T, Error>)
    requires ParseItems(s, nullValue, parseElem, Corrected).Ok?
    ensures s != [] && s[|s| - 1] == '}'
    decreases |s|, 1
  {
    ItemsOk(s, nullValue, parseElem);
    if s[0] == ' ' {
      ParseItemsEndsAtClose(s[1..], nullValue, parseElem);
    } else if s[0] != '}' {
      var p := ParseElement(s, nullValue, parseElem, Corrected).value;
      var t := SkipSpaces(p.rest);
      ParseDelimiterEndsAtClose(p.value, t, nullValue, parseElem);
      SuffixLast(t, s);
    }
  }

  lemma {:induction false} ParseDelimiterEndsAtClose<T>(x: T, t: string, nullValue: T, parseElem: string -> Result<T, Error>)
    requires ParseDelimiter(x, t, nullValue, parseElem, Corrected).Ok?
    ensures t != [] && t[|t| - 1] == '}'
    decreases |t|, 0
  {
    DelimiterOk(x, t, nullValue, parseElem);
    if t[0] == ',' {
      ParseItemsEndsAtClose(t[1..], nullValue, parseElem);
      assert t[1..][|t| - 2] == t[|t| - 1];
    }
  }

  lemma SuffixLast(t: string, s: string)
    requires t != [] && IsSuffix(t, s)
    ensures s[|s| - 1] == t[|t| - 1]
  {
  }

  /** After an element, the corrected parser accepts a comma and a list
      tail, or a lone closing brace. */
  lemma DelimiterOk<T>(x: T, t: string, nullValue: T, parseElem: string -> Result<T, Error>)
    requires ParseDelimiter(x, t, nullValue, parseElem, Corrected).Ok?
    ensures t != [] && (t[0] == ',' || (t[0] == '}' && |t| == 1))
    ensures t[0] == ',' ==> ParseItems(t[1..], nullValue, parseElem, Corrected).Ok?
  {
    if t != [] && t[0] == '}' && |t| > 1 {
      assert false;
    }
  }

  /** Where the corrected parser accepts a list tail that does not start
      with a space or a brace, an element is parsed and its delimiter accepted. */
  lemma ItemsOk<T>(s: string, nullValue: T, parseElem: string -> Result<T, Error>)
    requires ParseItems(s, nullValue, parseElem, Corrected).Ok?
    ensures s != []
    ensures s[0] == ' ' ==> ParseItems(s[1..], nullValue, parseElem, Corrected).Ok?
    ensures s[0] != ' ' && s[0] != '}' ==>
      && ParseElement(s, nullValue, parseElem, Corrected).Ok?
      && var p := ParseElement(s, nullValue, parseElem, Corrected).value;
         ParseDelimiter(p.value, SkipSpaces(p.rest), nullValue, parseElem, Corrected).Ok?
  {
  }

  /** An accepted list literal is `{` ... `}` and nothing after it. */
  lemma ParseListCorrectedIsBraced<T>(s: string, nullValue: T, parseElem: string -> Result<T, Error>)
    requires ParseList(s, nullValue, parseElem, Corrected).Ok?
    ensures |s| >= 2 && s[0] == '{' && s[|s| - 1] == '}'
  {
    ParseItemsEndsAtClose(s[1..], nullValue, parseElem);
  }
}
