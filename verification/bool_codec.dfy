/** `parse_bool`, `format_bool_static` and `format_bool` of `repr::strconv`. */
module BoolCodec {
  import opened Results
  import opened Text
  import opened Strconv

  /** The fixed table of literals read as `true` and as `false`. */
  const TrueLiterals: set<string> := {"t", "tr", "tru", "true", "y", "ye", "yes", "on", "1"}
  const FalseLiterals: set<string> := {"f", "fa", "fal", "fals", "false", "n", "no", "of", "off", "0"}

  const BoolError := Message("unable to parse bool")

  /** Trims, lower-cases and looks the input up in the literal table. */
  function ParseBool(s: string): (r: Result<bool, Error>)
    ensures r.Err? ==> r.error == BoolError
  {
    var w := AsciiLower(Trim(s));
    if w in TrueLiterals then Ok(true)
    else if w in FalseLiterals then Ok(false)
    else Err(BoolError)
  }

  /** The canonical words the literal table is derived from, with their meaning. */
  const Words: seq<(string, bool)> :=
    [("true", true), ("false", false), ("yes", true), ("no", false),
     ("on", true), ("off", false), ("1", true), ("0", false)]

  /** `w` is a non-empty prefix of some canonical word meaning `b`. */
  predicate PrefixOfWordMeaning(w: string, b: bool) {
    exists i | 0 <= i < |Words| :: Words[i].1 == b && 0 < |w| <= |Words[i].0| && w == Words[i].0[..|w|]
  }

  /** `w` abbreviates a word meaning `b` and no word meaning `!b`. */
  predicate UnambiguousPrefix(w: string, b: bool) {
    PrefixOfWordMeaning(w, b) && !PrefixOfWordMeaning(w, !b)
  }

  lemma PrefixesOfTrueWords(w: string)
    requires PrefixOfWordMeaning(w, true)
    ensures w in TrueLiterals || w == "o"
  {
    var i :| 0 <= i < |Words| && Words[i].1 == true && 0 < |w| <= |Words[i].0| && w == Words[i].0[..|w|];
    if i == 0 {
      if |w| == 1 {
        assert w == "true"[..1] == "t";
      } else if |w| == 2 {
        assert w == "true"[..2] == "tr";
      } else if |w| == 3 {
        assert w == "true"[..3] == "tru";
      } else if |w| == 4 {
        assert w == "true"[..4] == "true";
      }
    } else if i == 2 {
      if |w| == 1 {
        assert w == "yes"[..1] == "y";
      } else if |w| == 2 {
        assert w == "yes"[..2] == "ye";
      } else if |w| == 3 {
        assert w == "yes"[..3] == "yes";
      }
    } else if i == 4 {
      if |w| == 1 {
        assert w == "on"[..1] == "o";
      } else if |w| == 2 {
        assert w == "on"[..2] == "on";
      }
    } else if i == 6 {
      if |w| == 1 {
        assert w == "1"[..1] == "1";
      }
    }
  }

  lemma PrefixesOfFalseWords(w: string)
    requires PrefixOfWordMeaning(w, false)
    ensures w in FalseLiterals || w == "o"
  {
    var i :| 0 <= i < |Words| && Words[i].1 == false && 0 < |w| <= |Words[i].0| && w == Words[i].0[..|w|];
    if i == 1 {
      if |w| == 1 {
        assert w == "false"[..1] == "f";
      } else if |w| == 2 {
        assert w == "false"[..2] == "fa";
      } else if |w| == 3 {
        assert w == "false"[..3] == "fal";
      } else if |w| == 4 {
        assert w == "false"[..4] == "fals";
      } else if |w| == 5 {
        assert w == "false"[..5] == "false";
      }
    } else if i == 3 {
      if |w| == 1 {
        assert w == "no"[..1] == "n";
      } else if |w| == 2 {
        assert w == "no"[..2] == "no";
      }
    } else if i == 5 {
      if |w| == 1 {
        assert w == "off"[..1] == "o";
      } else if |w| == 2 {
        assert w == "off"[..2] == "of";
      } else if |w| == 3 {
        assert w == "off"[..3] == "off";
      }
    } else if i == 7 {
      if |w| == 1 {
        assert w == "0"[..1] == "0";
      }
    }
  }

  /** Witnesses that every table entry abbreviates a word of its meaning. */
  lemma TableEntriesArePrefixes(w: string, b: bool)
    requires w in (if b then TrueLiterals else FalseLiterals)
    ensures PrefixOfWordMeaning(w, b)
  {
    var i :=
      if w in {"t", "tr", "tru", "true"} then 0
      else if w in {"f", "fa", "fal", "fals", "false"} then 1
      else if w in {"y", "ye", "yes"} then 2
      else if w in {"n", "no"} then 3
      else if w == "on" then 4
      else if w in {"of", "off"} then 5
      else if w == "1" then 6
      else 7;
    assert Words[i].1 == b && 0 < |w| <= |Words[i].0| && w == Words[i].0[..|w|];
  }

  /** The literal table is exactly the set of unambiguous abbreviations of
      true/false/yes/no/on/off/1/0, so "o" (on or off?) is in neither half. */
  lemma TableIsUnambiguousPrefixes(w: string, b: bool)
    ensures w in (if b then TrueLiterals else FalseLiterals) <==> UnambiguousPrefix(w, b)
  {
    if w in (if b then TrueLiterals else FalseLiterals) {
      TableEntriesArePrefixes(w, b);
      if PrefixOfWordMeaning(w, !b) {
        if b { PrefixesOfFalseWords(w); } else { PrefixesOfTrueWords(w); }
        assert false;
      }
    }
    if UnambiguousPrefix(w, b) {
      OIsAmbiguous();
      assert w != "o";
      if b { PrefixesOfTrueWords(w); } else { PrefixesOfFalseWords(w); }
    }
  }

  /** "o" abbreviates both "on" and "off". */
  lemma OIsAmbiguous()
    ensures PrefixOfWordMeaning("o", true) && PrefixOfWordMeaning("o", false)
  {
    assert Words[4].0[..1] == "o";
    assert Words[5].0[..1] == "o";
  }

  /** `parse_bool` accepts exactly the unambiguous abbreviations, after
      trimming and lower-casing, and reads them with the word's meaning. */
  lemma ParseBoolMeansUnambiguousPrefix(s: string, b: bool)
    ensures ParseBool(s) == Ok(b) <==> UnambiguousPrefix(AsciiLower(Trim(s)), b)
  {
    var w := AsciiLower(Trim(s));
    TableIsUnambiguousPrefixes(w, true);
    TableIsUnambiguousPrefixes(w, false);
  }

  /** `format_bool_static`: one letter that reads back as `b`. */
  function FormatBoolStatic(b: bool): (r: string)
    ensures |r| == 1 && r[0] == Words[if b then 0 else 1].0[0]
    ensures ParseBool(r) == Ok(b)
  {
    var r := if b then "t" else "f";
    assert Trim(r) == r;
    assert AsciiLower(r) == r;
    r
  }

  /** `format_bool`: writes the one-letter form and never needs escaping. */
  function FormatBool(b: bool): (r: Formatted)
    ensures r.nest == Yes
    ensures ParseBool(r.text) == Ok(b)
    ensures |r.text| == 1
  {
    Formatted(FormatBoolStatic(b), Yes)
  }

  /** Case is ignored: upper-case input is accepted. */
  lemma ParseBoolUpperCase()
    ensures ParseBool("YES") == Ok(true)
  {
    assert TrimStart("YES") == "YES";
    assert TrimEnd("YES") == "YES";
    assert AsciiLower("YES") == "yes";
  }

  /** Surrounding whitespace, not only spaces, is ignored. */
  lemma ParseBoolTrims()
    ensures ParseBool(" on ") == Ok(true)
    ensures ParseBool("\tno\n") == Ok(false)
  {
    assert TrimStart(" on ") == "on ";
    assert TrimEnd("on ") == "on";
    assert AsciiLower("on") == "on";
    assert TrimStart("\tno\n") == "no\n";
    assert TrimEnd("no\n") == "no";
    assert AsciiLower("no") == "no";
  }

  /** The ambiguous abbreviation "o" is refused. */
  lemma ParseBoolRefusesO()
    ensures ParseBool("o").Err?
  {
    assert TrimStart("o") == "o";
    assert TrimEnd("o") == "o";
    assert AsciiLower("o") == "o";
  }
}
