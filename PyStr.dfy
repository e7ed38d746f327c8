/**
 The Python string methods the search box relies on: `str.strip()` with no
 argument, `str.lower()` and `str.upper()`.

 `strip` removes every character Python's `str.isspace()` accepts, which
 includes a few characters outside ASCII. Case mapping is restricted to the
 ASCII letters: every other character is left as it is.
 */
module PyStr {

  /** Python's whitespace: the characters `str.strip()` removes. */
  predicate IsSpace(ch: char) {
    var c := ch as int;
    c == 0x20 || 0x09 <= c <= 0x0D || 0x1C <= c <= 0x1F
    || c == 0x85 || c == 0xA0 || c == 0x1680 || 0x2000 <= c <= 0x200A
    || c == 0x2028 || c == 0x2029 || c == 0x202F || c == 0x205F || c == 0x3000
  }

  predicate AllSpace(s: string) {
    forall i :: 0 <= i < |s| ==> IsSpace(s[i])
  }

  /** The length of the whitespace prefix of `s`. */
  function LeadingSpace(s: string): (k: nat)
    ensures k <= |s|
  {
    if s != [] && IsSpace(s[0]) then 1 + LeadingSpace(s[1..]) else 0
  }

  /** The length of the whitespace suffix of `s`. */
  function TrailingSpace(s: string): (k: nat)
    ensures k <= |s|
  {
    if s != [] && IsSpace(s[|s| - 1]) then 1 + TrailingSpace(s[..|s| - 1]) else 0
  }

  /** `s.strip()`. */
  function Strip(s: string): string {
    var t := s[LeadingSpace(s)..];
    t[..|t| - TrailingSpace(t)]
  }

  /** `LeadingSpace` counts the longest run of whitespace at the start. */
  lemma {:induction false} LeadingSpaceIsLongest(s: string)
    ensures AllSpace(s[..LeadingSpace(s)])
    ensures LeadingSpace(s) == |s| || !IsSpace(s[LeadingSpace(s)])
  {
    if s != [] && IsSpace(s[0]) {
      LeadingSpaceIsLongest(s[1..]);
      assert s[..LeadingSpace(s)] == [s[0]] + s[1..][..LeadingSpace(s[1..])];
    }
  }

  /** `TrailingSpace` counts the longest run of whitespace at the end. */
  lemma {:induction false} TrailingSpaceIsLongest(s: string)
    ensures AllSpace(s[|s| - TrailingSpace(s)..])
    ensures TrailingSpace(s) == |s| || !IsSpace(s[|s| - 1 - TrailingSpace(s)])
  {
    if s != [] && IsSpace(s[|s| - 1]) {
      var p := s[..|s| - 1];
      var k := TrailingSpace(p);
      TrailingSpaceIsLongest(p);
      assert TrailingSpace(s) == k + 1;
      var suffix := s[|s| - (k + 1)..];
      assert suffix == p[|p| - k..] + [s[|s| - 1]];
      forall i | 0 <= i < |suffix| ensures IsSpace(suffix[i]) {
        if i < k {
          assert suffix[i] == p[|p| - k..][i];
        }
      }
      if k < |p| {
        assert s[|s| - 1 - (k + 1)] == p[|p| - 1 - k];
      }
    }
  }

  /**
   `s.strip()` is the part of `s` between its whitespace prefix and its
   whitespace suffix; it neither starts nor ends with whitespace, and it is
   empty exactly when `s` is whitespace only.
   */
  lemma StripSpec(s: string)
    ensures LeadingSpace(s) + |Strip(s)| <= |s|
    ensures Strip(s) == s[LeadingSpace(s)..LeadingSpace(s) + |Strip(s)|]
    ensures AllSpace(s[..LeadingSpace(s)]) && AllSpace(s[LeadingSpace(s) + |Strip(s)|..])
    ensures Strip(s) != [] ==> !IsSpace(Strip(s)[0]) && !IsSpace(Strip(s)[|Strip(s)| - 1])
    ensures Strip(s) == [] <==> AllSpace(s)
  {
    StripSlice(s);
    LeadingSpaceIsLongest(s);
    StripTrailingBorder(s);
    StripEnds(s);
    if Strip(s) == [] {
      var k := LeadingSpace(s);
      assert s == s[..k] + s[k..];
      AllSpaceAppend(s[..k], s[k..]);
    } else {
      assert Strip(s)[0] == s[LeadingSpace(s)];
    }
  }

  /** The result of `strip` is a slice of its argument, starting after the leading whitespace. */
  lemma StripSlice(s: string)
    ensures LeadingSpace(s) + |Strip(s)| <= |s|
    ensures Strip(s) == s[LeadingSpace(s)..LeadingSpace(s) + |Strip(s)|]
  {
    var k := LeadingSpace(s);
    var t := s[k..];
    var m := TrailingSpace(t);
    assert Strip(s) == t[..|t| - m];
    SuffixSlices(s, k, |t| - m);
  }

  /** What follows the result of `strip` is whitespace. */
  lemma StripTrailingBorder(s: string)
    ensures LeadingSpace(s) + |Strip(s)| <= |s|
    ensures AllSpace(s[LeadingSpace(s) + |Strip(s)|..])
  {
    var k := LeadingSpace(s);
    var t := s[k..];
    var m := TrailingSpace(t);
    assert |Strip(s)| == |t| - m;
    SuffixSlices(s, k, |t| - m);
    TrailingSpaceIsLongest(t);
  }

  /** `strip` leaves a string alone when it neither starts nor ends with whitespace. */
  lemma StripUnpadded(s: string)
    requires s != [] ==> !IsSpace(s[0]) && !IsSpace(s[|s| - 1])
    ensures Strip(s) == s
  {
    assert LeadingSpace(s) == 0;
    assert s[0..] == s;
    assert TrailingSpace(s) == 0;
  }

  lemma SuffixSlices(s: string, k: nat, j: nat)
    requires k + j <= |s|
    ensures s[k..][..j] == s[k..k + j]
    ensures s[k..][j..] == s[k + j..]
  {
  }

  /** The result of `strip` neither starts nor ends with whitespace. */
  lemma StripEnds(s: string)
    ensures Strip(s) != [] ==> !IsSpace(Strip(s)[0]) && !IsSpace(Strip(s)[|Strip(s)| - 1])
  {
    var k := LeadingSpace(s);
    var t := s[k..];
    var m := TrailingSpace(t);
    var r := Strip(s);
    assert r == t[..|t| - m];
    if r != [] {
      LeadingSpaceIsLongest(s);
      TrailingSpaceIsLongest(t);
      assert r[0] == s[k];
      assert r[|r| - 1] == t[|t| - 1 - m];
    }
  }

  lemma AllSpaceAppend(a: string, b: string)
    requires AllSpace(a) && AllSpace(b)
    ensures AllSpace(a + b)
  {
    forall i | 0 <= i < |a + b| ensures IsSpace((a + b)[i]) {
      if i >= |a| {
        assert (a + b)[i] == b[i - |a|];
      }
    }
  }

  predicate IsUpper(ch: char) { 'A' <= ch <= 'Z' }

  predicate IsLower(ch: char) { 'a' <= ch <= 'z' }

  function LowerChar(ch: char): char {
    if IsUpper(ch) then (ch as int + 32) as char else ch
  }

  function UpperChar(ch: char): char {
    if IsLower(ch) then (ch as int - 32) as char else ch
  }

  /** `s.lower()`, restricted to the ASCII letters. */
  function Lower(s: string): string {
    seq(|s|, i requires 0 <= i < |s| => LowerChar(s[i]))
  }

  /** `s.upper()`, restricted to the ASCII letters. */
  function Upper(s: string): string {
    seq(|s|, i requires 0 <= i < |s| => UpperChar(s[i]))
  }

  predicate NoUpper(s: string) {
    forall i :: 0 <= i < |s| ==> !IsUpper(s[i])
  }

  /** Lower-casing leaves no upper-case letter behind, so it is idempotent. */
  lemma LowerIdempotent(s: string)
    ensures NoUpper(Lower(s))
    ensures Lower(Lower(s)) == Lower(s)
  {
  }

  /** A string without upper-case letters is its own lower-case form. */
  lemma LowerOfNoUpper(s: string)
    requires NoUpper(s)
    ensures Lower(s) == s
  {
  }

  /** Lower-casing undoes upper-casing on a string that has no upper-case letter. */
  lemma LowerUpperRoundTrip(s: string)
    requires NoUpper(s)
    ensures Lower(Upper(s)) == s
  {
    assert forall i :: 0 <= i < |s| ==> LowerChar(UpperChar(s[i])) == s[i];
  }

  lemma UpperAppend(a: string, b: string)
    ensures Upper(a + b) == Upper(a) + Upper(b)
  {
  }

  lemma NoUpperAppend(a: string, b: string)
    requires NoUpper(a) && NoUpper(b)
    ensures NoUpper(a + b)
  {
    forall i | 0 <= i < |a + b| ensures !IsUpper((a + b)[i]) {
      if i >= |a| {
        assert (a + b)[i] == b[i - |a|];
      }
    }
  }
}
