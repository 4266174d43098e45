/**
 The string primitives the listing search is built from: ASCII lower-casing
 (standing in for JavaScript's `String.prototype.toLowerCase`), substring
 containment (`String.prototype.includes`) and the decimal rendering of a
 natural number that template strings such as `${i+1}` perform.
 */
module Text {

  /* ---------------------------------------------------------------------
     Lower-casing
     --------------------------------------------------------------------- */

  predicate IsUpper(c: char) {
    'A' <= c <= 'Z'
  }

  predicate IsLower(c: char) {
    'a' <= c <= 'z'
  }

  /** Maps 'A'..'Z' to 'a'..'z' and leaves every other character alone. */
  function LowerChar(c: char): (d: char)
    ensures !IsUpper(d)
    ensures IsUpper(c) ==> IsLower(d) && d != c
    ensures !IsUpper(c) ==> d == c
  {
    if IsUpper(c) then (c as int + 32) as char else c
  }

  /** An independent reading of "equal up to ASCII case": the characters are
      the same, or they are letters exactly one case-shift (32) apart. */
  predicate SameLetterIgnoringCase(c: char, d: char) {
    || c == d
    || (IsUpper(c) && IsLower(d) && d as int - c as int == 32)
    || (IsLower(c) && IsUpper(d) && c as int - d as int == 32)
  }

  lemma LowerCharEqualIff(c: char, d: char)
    ensures LowerChar(c) == LowerChar(d) <==> SameLetterIgnoringCase(c, d)
  {
  }

  /** Two strings are the same up to ASCII case, position by position. */
  predicate SameIgnoringCase(a: string, b: string) {
    |a| == |b| && forall i :: 0 <= i < |a| ==> SameLetterIgnoringCase(a[i], b[i])
  }

  /** `toLowerCase` restricted to ASCII: the same string up to case, with no
      capital letter left. */
  function Lower(s: string): (r: string)
    ensures SameIgnoringCase(s, r)
    ensures forall i :: 0 <= i < |r| ==> !IsUpper(r[i])
  {
    seq(|s|, i requires 0 <= i < |s| => LowerChar(s[i]))
  }

  /** Lower-casing identifies exactly the strings that differ only in ASCII case. */
  lemma LowerEqualIff(a: string, b: string)
    ensures Lower(a) == Lower(b) <==> SameIgnoringCase(a, b)
  {
    if Lower(a) == Lower(b) {
      forall i | 0 <= i < |a|
        ensures SameLetterIgnoringCase(a[i], b[i])
      {
        assert Lower(a)[i] == Lower(b)[i];
        LowerCharEqualIff(a[i], b[i]);
      }
    }
    if SameIgnoringCase(a, b) {
      forall i | 0 <= i < |a|
        ensures Lower(a)[i] == Lower(b)[i]
      {
        LowerCharEqualIff(a[i], b[i]);
      }
    }
  }

  /** Lower-casing an already lower-cased string changes nothing. */
  lemma LowerIdempotent(s: string)
    ensures Lower(Lower(s)) == Lower(s)
  {
  }

  /* ---------------------------------------------------------------------
     Substring containment
     --------------------------------------------------------------------- */

  predicate IsPrefix(p: string, s: string) {
    |p| <= |s| && s[..|p|] == p
  }

  /** `hay.includes(needle)`: the needle occurs at some offset of the hay.
      Searched from the left, one offset at a time. */
  predicate IsSubstring(needle: string, hay: string)
    decreases |hay|
  {
    IsPrefix(needle, hay) || (|hay| > 0 && IsSubstring(needle, hay[1..]))
  }

  /** The needle occurs in the hay starting at offset `k`. */
  predicate OccursAt(needle: string, hay: string, k: int) {
    0 <= k && k + |needle| <= |hay| && hay[k..k + |needle|] == needle
  }

  /** The left-to-right search agrees with "there is an offset where the
      needle occurs", in both directions. */
  lemma {:induction false} IsSubstringIff(needle: string, hay: string)
    ensures IsSubstring(needle, hay) <==> exists k :: OccursAt(needle, hay, k)
    decreases |hay|
  {
    if IsPrefix(needle, hay) {
      assert OccursAt(needle, hay, 0);
    } else if |hay| == 0 {
      assert |needle| > 0;
    } else {
      IsSubstringIff(needle, hay[1..]);
      if IsSubstring(needle, hay[1..]) {
        var k :| OccursAt(needle, hay[1..], k);
        assert hay[1..][k..k + |needle|] == hay[k + 1..k + 1 + |needle|];
        assert OccursAt(needle, hay, k + 1);
      }
      if exists k :: OccursAt(needle, hay, k) {
        if |needle| <= |hay| {
          assert hay[..|needle|] == hay[0..|needle|];
        }
        var k :| OccursAt(needle, hay, k);
        assert hay[1..][k - 1..k - 1 + |needle|] == hay[k..k + |needle|];
        assert OccursAt(needle, hay[1..], k - 1);
      }
    }
  }

  /** The empty string is contained in every string (`"abc".includes("")`). */
  lemma EmptyIsSubstring(hay: string)
    ensures IsSubstring([], hay)
  {
    assert IsPrefix([], hay);
  }

  /** Every character of a contained needle occurs in the hay; so a needle
      with a character the hay lacks is not contained in it. */
  lemma {:induction false} SubstringCharsOccur(needle: string, hay: string)
    requires IsSubstring(needle, hay)
    ensures forall c :: c in needle ==> c in hay
  {
    IsSubstringIff(needle, hay);
    var k :| OccursAt(needle, hay, k);
    forall c | c in needle
      ensures c in hay
    {
      var j :| 0 <= j < |needle| && needle[j] == c;
      assert hay[k + j] == hay[k..k + |needle|][j];
    }
  }

  /** A needle with a character the hay lacks is not contained in it. */
  lemma NotSubstringByMissingChar(needle: string, hay: string, c: char)
    requires c in needle && c !in hay
    ensures !IsSubstring(needle, hay)
  {
    if IsSubstring(needle, hay) {
      SubstringCharsOccur(needle, hay);
    }
  }

  /** An occurrence at any offset makes the needle contained. */
  lemma SubstringAt(needle: string, hay: string, k: int)
    requires OccursAt(needle, hay, k)
    ensures IsSubstring(needle, hay)
  {
    IsSubstringIff(needle, hay);
  }

  /** A needle that occurs at no offset is not contained. */
  lemma NotSubstringNowhere(needle: string, hay: string)
    requires forall k :: !OccursAt(needle, hay, k)
    ensures !IsSubstring(needle, hay)
  {
    IsSubstringIff(needle, hay);
  }

  /** A needle longer than the hay is not contained in it. */
  lemma NotSubstringTooLong(needle: string, hay: string)
    requires |needle| > |hay|
    ensures !IsSubstring(needle, hay)
  {
    IsSubstringIff(needle, hay);
  }

  /** One differing character rules out an occurrence at offset `k`. */
  lemma MismatchAt(needle: string, hay: string, k: nat, j: nat)
    requires j < |needle| && k + j < |hay| && hay[k + j] != needle[j]
    ensures !OccursAt(needle, hay, k)
  {
    if k + |needle| <= |hay| {
      assert hay[k..k + |needle|][j] == hay[k + j];
    }
  }

  /* ---------------------------------------------------------------------
     Decimal rendering of naturals
     --------------------------------------------------------------------- */

  predicate IsDigit(c: char) {
    '0' <= c <= '9'
  }

  function DigitChar(d: nat): (c: char)
    requires d < 10
    ensures IsDigit(c)
    ensures DigitValue(c) == d
  {
    ('0' as int + d) as char
  }

  function DigitValue(c: char): (d: nat)
    requires IsDigit(c)
    ensures d < 10
  {
    c as int - '0' as int
  }

  /** The string a JavaScript template literal produces for a non-negative
      integer: its decimal digits, most significant first, no leading zero. */
  function DecimalString(n: nat): (r: string)
    ensures 1 <= |r|
    ensures forall i :: 0 <= i < |r| ==> IsDigit(r[i])
    ensures r[0] == '0' ==> n == 0
    decreases n
  {
    if n < 10 then [DigitChar(n)] else DecimalString(n / 10) + [DigitChar(n % 10)]
  }

  /** Reads a string of decimal digits back as a number. */
  function ParseDecimal(s: string): (n: nat)
    requires forall i :: 0 <= i < |s| ==> IsDigit(s[i])
    decreases |s|
  {
    if |s| == 0 then 0 else ParseDecimal(s[..|s| - 1]) * 10 + DigitValue(s[|s| - 1])
  }

  /** Rendering and reading back are inverse: no two numbers share a rendering. */
  lemma {:induction false} DecimalRoundTrip(n: nat)
    ensures ParseDecimal(DecimalString(n)) == n
    decreases n
  {
    var r := DecimalString(n);
    if n >= 10 {
      DecimalRoundTrip(n / 10);
      assert r[..|r| - 1] == DecimalString(n / 10);
    }
  }

  lemma DecimalStringInjective(m: nat, n: nat)
    requires DecimalString(m) == DecimalString(n)
    ensures m == n
  {
    DecimalRoundTrip(m);
    DecimalRoundTrip(n);
  }
}
