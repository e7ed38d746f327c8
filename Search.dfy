/**
 The search rule behind the search box: the query is stripped and
 lower-cased, then a code matches when the query is exactly equal to its
 lower-cased display form, its decimal form or its lower-case `hex` form.

 `Hits` is an independent description of the same set, computed by parsing
 the query instead of printing every code; `MatchSetIsHits` proves the two
 agree, and the examples below follow from it.
 */
module Search {
  import opened PyStr
  import opened Numerals
  import opened CodeTable

  /** `text.strip().lower()`. */
  function Normalize(text: string): string {
    Lower(Strip(text))
  }

  /** The normal form is empty exactly for a whitespace-only query, and has no upper-case letter. */
  lemma NormalizeSpec(text: string)
    ensures Normalize(text) == [] <==> AllSpace(text)
    ensures NoUpper(Normalize(text))
  {
    StripSpec(text);
    LowerIdempotent(Strip(text));
  }

  /** A query without surrounding whitespace or upper-case letters is already normal. */
  lemma NormalizeUnpadded(q: string)
    requires q != [] ==> !IsSpace(q[0]) && !IsSpace(q[|q| - 1])
    requires NoUpper(q)
    ensures Normalize(q) == q
  {
    StripUnpadded(q);
    LowerOfNoUpper(q);
  }

  /** Whether a normalised query selects `code`: equality with one of its three forms. */
  predicate Matches(q: string, code: int) {
    q == Lower(SearchDisplay(code)) || q == Decimal(code) || q == Lower(PyHex(code))
  }

  /** Whether the search for `text` highlights `code`. */
  predicate SearchHit(text: string, code: int) {
    var q := Normalize(text);
    q != [] && Matches(q, code)
  }

  /** The codes the search for `text` highlights. */
  function MatchSet(text: string): set<int> {
    set code | 0 <= code < Size && SearchHit(text, code)
  }

  // ---------------------------------------------------------------------------
  // The reference description: parse the query

  /** The code whose decimal form the query is. */
  function DecimalHits(q: string): set<int> {
    if Canonical(q, 10) && Value(q, 10) < Size then {Value(q, 10)} else {}
  }

  /** The code whose `hex` form the query is: `0x` and canonical lower-case digits. */
  function HexHits(q: string): set<int> {
    if |q| >= 2 && q[..2] == "0x" && Canonical(q[2..], 16) && Value(q[2..], 16) < Size
    then {Value(q[2..], 16)}
    else {}
  }

  /**
   The codes whose lower-cased display form the query is: a single printable
   character that is not an upper-case letter names itself, a lower-case
   letter also names its upper-case partner, and `[<n>]` names the
   non-printable code `n`.
   */
  function DisplayHits(q: string): set<int> {
    if |q| == 1 then
      (if IsPrintable(q[0] as int) && !IsUpper(q[0]) then {q[0] as int} else {})
      + (if IsLower(q[0]) then {q[0] as int - 32} else {})
    else if |q| >= 3 && q[0] == '[' && q[|q| - 1] == ']' && Canonical(q[1..|q| - 1], 10)
            && !IsPrintable(Value(q[1..|q| - 1], 10)) && Value(q[1..|q| - 1], 10) < Size
    then {Value(q[1..|q| - 1], 10)}
    else {}
  }

  function Hits(q: string): (r: set<int>)
    ensures forall code :: code in r ==> 0 <= code < Size
  {
    DecimalHits(q) + HexHits(q) + DisplayHits(q)
  }

  lemma DecimalHitsIff(q: string, code: int)
    requires 0 <= code < Size
    ensures q == Decimal(code) <==> code in DecimalHits(q)
  {
    DigitsIff(code, q, 10);
  }

  lemma HexHitsIff(q: string, code: int)
    requires 0 <= code < Size
    ensures q == Lower(PyHex(code)) <==> code in HexHits(q)
  {
    HexForms(code);
    if |q| >= 2 {
      DigitsIff(code, q[2..], 16);
      if q == PyHex(code) {
        assert q[..2] == "0x" && q[2..] == Digits(code, 16);
      }
    }
  }

  lemma PrintableDisplayHitsIff(q: string, code: int)
    requires IsPrintable(code)
    ensures q == Lower(Display(code)) <==> code in DisplayHits(q)
  {
    var ch := code as char;
    assert Lower(Display(code)) == [LowerChar(ch)];
    if |q| == 1 {
      if IsUpper(ch) {
        assert LowerChar(ch) as int == code + 32;
      } else {
        assert LowerChar(ch) == ch;
      }
    } else {
      assert code !in DisplayHits(q);
    }
  }

  lemma ControlDisplayHitsIff(q: string, code: nat)
    requires !IsPrintable(code) && code < Size
    ensures q == Lower(Display(code)) <==> code in DisplayHits(q)
  {
    ControlDisplayIsLower(code);
    var d := Digits(code, 10);
    var form := "[" + d + "]";
    assert |form| >= 3;
    if |q| >= 3 {
      var mid := q[1..|q| - 1];
      DigitsIff(code, mid, 10);
      assert q == form <==> q[0] == '[' && q[|q| - 1] == ']' && mid == d by {
        if q[0] == '[' && q[|q| - 1] == ']' && mid == d {
          SplitEnds(q);
        }
        if q == form {
          assert mid == form[1..|form| - 1];
        }
      }
    } else if |q| == 1 {
      assert code !in DisplayHits(q) by {
        if IsLower(q[0]) {
          assert IsPrintable(q[0] as int - 32);
        }
      }
    }
  }

  lemma SplitEnds(q: string)
    requires |q| >= 2
    ensures q == [q[0]] + q[1..|q| - 1] + [q[|q| - 1]]
  {
    assert q == q[..1] + q[1..|q| - 1] + q[|q| - 1..];
  }

  lemma DisplayHitsIff(q: string, code: int)
    requires 0 <= code < Size
    ensures q == Lower(SearchDisplay(code)) <==> code in DisplayHits(q)
  {
    SearchDisplayAgrees(code);
    if IsPrintable(code) {
      PrintableDisplayHitsIff(q, code);
    } else {
      ControlDisplayHitsIff(q, code);
    }
  }

  /** The match rule and the parsing description select the same codes. */
  lemma MatchesIffHits(q: string, code: int)
    requires 0 <= code < Size
    ensures Matches(q, code) <==> code in Hits(q)
  {
    DecimalHitsIff(q, code);
    HexHitsIff(q, code);
    DisplayHitsIff(q, code);
  }

  /** No form of a code is empty, so the empty query matches nothing. */
  lemma {:induction false} EmptyMatchesNothing(code: int)
    ensures !Matches([], code)
  {
    DigitsCanonical(if code < 0 then -code else code, 10);
  }

  /** The highlighted set is the set described by parsing the normalised query. */
  lemma MatchSetIsHits(text: string)
    ensures MatchSet(text) == Hits(Normalize(text))
  {
    var q := Normalize(text);
    forall code | 0 <= code < Size
      ensures SearchHit(text, code) <==> code in Hits(q)
    {
      MatchesIffHits(q, code);
      EmptyMatchesNothing(code);
    }
  }

  /** A query of whitespace only (a single space included) highlights nothing. */
  lemma BlankQueryHighlightsNothing(text: string)
    requires AllSpace(text)
    ensures MatchSet(text) == {}
  {
    NormalizeSpec(text);
    MatchSetIsHits(text);
  }

  /** Two queries with the same normal form highlight the same codes. */
  lemma SameNormalFormSameHits(a: string, b: string)
    requires Normalize(a) == Normalize(b)
    ensures MatchSet(a) == MatchSet(b)
  {
  }

  // ---------------------------------------------------------------------------
  // Worked examples

  /** A letter matches the code of either case. */
  lemma LetterQuery()
    ensures MatchSet("a") == {65, 97}
  {
    assert Hits("a") == {65, 97} by {
      assert DecimalHits("a") == {} && HexHits("a") == {};
      assert DisplayHits("a") == {97, 65};
    }
    NormalizeUnpadded("a");
    MatchSetIsHits("a");
  }

  /** Surrounding whitespace and case are ignored. */
  lemma PaddedLetterQuery()
    ensures MatchSet(" A ") == {65, 97}
  {
    assert Normalize(" A ") == "a" by {
      assert LeadingSpace(" A ") == 1;
      assert Strip(" A ") == "A";
    }
    NormalizeUnpadded("a");
    SameNormalFormSameHits(" A ", "a");
    LetterQuery();
  }

  /** A digit names the code of that number and the digit character itself. */
  lemma DigitQuery()
    ensures MatchSet("9") == {9, 57}
  {
    assert Hits("9") == {9, 57} by {
      assert DecimalHits("9") == {9} && HexHits("9") == {} && DisplayHits("9") == {57};
    }
    NormalizeUnpadded("9");
    MatchSetIsHits("9");
  }

  /** Without the `0x` prefix a number is read as decimal only. */
  lemma DecimalQuery()
    ensures MatchSet("41") == {41}
  {
    assert Hits("41") == {41} by {
      DigitsCanonical(41, 10);
      assert Digits(41, 10) == "41";
      assert HexHits("41") == {} && DisplayHits("41") == {};
    }
    NormalizeUnpadded("41");
    MatchSetIsHits("41");
  }

  /** With the prefix a number is read as hexadecimal only. */
  lemma HexQuery()
    ensures MatchSet("0x41") == {65}
  {
    assert Hits("0x41") == {65} by {
      assert HexHits("0x41") == {65} by {
        DigitsCanonical(65, 16);
        assert Digits(65, 16) == "41";
        assert "0x41"[2..] == "41" && "0x41"[..2] == "0x";
      }
      assert DecimalHits("0x41") == {} by {
        assert !IsDigit("0x41"[1], 10);
      }
      assert DisplayHits("0x41") == {};
    }
    NormalizeUnpadded("0x41");
    MatchSetIsHits("0x41");
  }

  /** The prefix may be typed in upper case, as the table shows it. */
  lemma ShownHexQuery()
    ensures MatchSet("0X41") == {65}
  {
    assert Normalize("0X41") == "0x41" by {
      StripUnpadded("0X41");
      assert Lower("0X41") == "0x41";
    }
    SameNormalFormSameHits("0X41", "0x41");
    HexQuery();
  }

  /** `11` is code 11 only: code 17, whose `hex` is `0x11`, is not found without the prefix. */
  lemma ElevenQuery()
    ensures MatchSet("11") == {11}
  {
    assert Hits("11") == {11} by {
      DigitsCanonical(11, 10);
      assert Digits(11, 10) == "11";
      assert HexHits("11") == {} && DisplayHits("11") == {};
    }
    NormalizeUnpadded("11");
    MatchSetIsHits("11");
  }

  lemma HexElevenQuery()
    ensures MatchSet("0x11") == {17}
  {
    assert Hits("0x11") == {17} by {
      DigitsCanonical(17, 16);
      assert Digits(17, 16) == "11";
      assert "0x11"[2..] == "11" && "0x11"[..2] == "0x";
      assert DecimalHits("0x11") == {} && DisplayHits("0x11") == {};
    }
    NormalizeUnpadded("0x11");
    MatchSetIsHits("0x11");
  }

  /** The bracketed form of a control code is searchable. */
  lemma BracketQuery()
    ensures MatchSet("[9]") == {9}
  {
    assert Hits("[9]") == {9} by {
      assert DisplayHits("[9]") == {9} by {
        assert "[9]"[1..2] == "9";
        assert "9"[..0] == [];
        assert Canonical("9", 10) && Value("9", 10) == 9;
      }
      assert DecimalHits("[9]") == {} by {
        assert !IsDigit("[9]"[0], 10);
      }
      assert HexHits("[9]") == {} by {
        assert "[9]"[..2] != "0x";
      }
    }
    NormalizeUnpadded("[9]");
    MatchSetIsHits("[9]");
  }

  /** Matching is exact: a zero-padded decimal number matches nothing. */
  lemma PaddedDecimalQuery()
    ensures MatchSet("065") == {}
  {
    assert Hits("065") == {} by {
      assert "065"[..2] == "06";
      assert DecimalHits("065") == {} && HexHits("065") == {} && DisplayHits("065") == {};
    }
    NormalizeUnpadded("065");
    MatchSetIsHits("065");
  }

  /** Nor does a zero-padded hexadecimal number. */
  lemma PaddedHexQuery()
    ensures MatchSet("0x05") == {}
  {
    assert Hits("0x05") == {} by {
      assert "0x05"[2..] == "05";
      assert DecimalHits("0x05") == {} && HexHits("0x05") == {} && DisplayHits("0x05") == {};
    }
    NormalizeUnpadded("0x05");
    MatchSetIsHits("0x05");
  }
}
