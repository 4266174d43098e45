/**
 Concrete searches over the fixed sample set: what each query shows, worked
 out from the generated titles and cities.
 */
module Scenarios {
  import opened Text
  import opened Listings
  import opened SearchEngine

  /** Every sample title, lower-cased, is this prefix followed by one digit. */
  const TitlePrefix: string := "2 bhk apartment "

  /** The sample cities, lower-cased, in the order the records cycle through them. */
  const LowerCities: seq<string> := ["delhi", "gurgaon", "noida", "mumbai"]

  lemma LowerSampleFields(i: nat)
    requires i < SampleCount
    ensures Lower(MakeListing(i).title) == TitlePrefix + [DigitChar(i + 1)]
    ensures Lower(MakeListing(i).city) == LowerCities[i % 4]
  {
    var p := MakeListing(i);
    assert DecimalString(i + 1) == [DigitChar(i + 1)];
    assert Lower(p.title) == TitlePrefix + [DigitChar(i + 1)];
    var c := i % 4;
    if c == 0 {
      assert Lower("Delhi") == "delhi";
    } else if c == 1 {
      assert Lower("Gurgaon") == "gurgaon";
    } else if c == 2 {
      assert Lower("Noida") == "noida";
    } else {
      assert Lower("Mumbai") == "mumbai";
    }
  }

  /* ---------------------------------------------------------------------
     "noida": only the Noida records, ids 3 and 7
     --------------------------------------------------------------------- */

  lemma NoidaMatch(i: nat)
    requires i < SampleCount
    ensures Matches(MakeListing(i), "noida") <==> i % 4 == 2
  {
    LowerSampleFields(i);
    var n := "noida";
    assert n[1] == 'o';
    NotSubstringByMissingChar(n, TitlePrefix + [DigitChar(i + 1)], 'o');
    var c := i % 4;
    if c == 0 {
      NotSubstringByMissingChar(n, "delhi", 'o');
    } else if c == 1 {
      assert n[2] == 'i';
      NotSubstringByMissingChar(n, "gurgaon", 'i');
    } else if c == 2 {
      assert IsPrefix(n, "noida");
    } else {
      NotSubstringByMissingChar(n, "mumbai", 'o');
    }
  }

  /** The listings generated for indices 0..7, whatever sequence holds them.
      The per-query lemmas below are stated over any `s` with `IsSample(s)`
      rather than over `SampleProperties()` itself, so that their proofs see
      the records one index at a time through `MakeListing` and never unfold
      the whole eight-record literal; each `...Scenario` lemma then applies
      its `...Search` lemma to `SampleProperties()`. */
  predicate IsSample(s: seq<Listing>) {
    |s| == SampleCount && forall j :: 0 <= j < |s| ==> s[j] == MakeListing(j)
  }

  /** A non-empty query whose lower-cased form is known is filtered on that form. */
  lemma SearchLowered(s: seq<Listing>, q: string, lq: string)
    requires |q| > 0 && Lower(q) == lq
    ensures SearchIn(s, q) == Filter(s, lq)
  {
  }

  /** Over the sample records, a query that matches exactly the positions
      `idx` (in increasing order) shows the ids one above those positions. */
  lemma SampleFilterIds(s: seq<Listing>, lq: string, idx: seq<nat>)
    requires IsSample(s)
    requires StrictlyIncreasing(idx)
    requires forall k :: 0 <= k < |idx| ==> idx[k] < |s|
    requires forall j :: 0 <= j < |s| ==> (j in idx <==> Matches(s[j], lq))
    ensures |Ids(Filter(s, lq))| == |idx|
    ensures forall k :: 0 <= k < |idx| ==> Ids(Filter(s, lq))[k] == idx[k] + 1
  {
    FilterIsSelectionOfMatches(s, lq, idx);
  }

  lemma NoidaScenario()
    ensures Ids(Search("noida")) == [3, 7]
  {
    NoidaSearch(SampleProperties());
  }

  /** "noida" over the sample records shows ids 3 and 7, in that order. */
  lemma NoidaSearch(s: seq<Listing>)
    requires IsSample(s)
    ensures Ids(SearchIn(s, "noida")) == [3, 7]
  {
    SearchLowered(s, "noida", "noida");
    NoidaFilter(s);
  }

  lemma NoidaFilter(s: seq<Listing>)
    requires IsSample(s)
    ensures Ids(Filter(s, "noida")) == [3, 7]
  {
    NoidaPositions(s);
    SampleFilterIds(s, "noida", [2, 6]);
    var ids := Ids(Filter(s, "noida"));
    assert ids[0] == 3 && ids[1] == 7;
  }

  lemma NoidaPositions(s: seq<Listing>)
    requires IsSample(s)
    ensures forall j :: 0 <= j < |s| ==> (j in [2, 6] <==> Matches(s[j], "noida"))
  {
    forall j | 0 <= j < |s|
      ensures j in [2, 6] <==> Matches(s[j], "noida")
    {
      NoidaMatch(j);
    }
  }

  /* ---------------------------------------------------------------------
     "Apartment 2": only the record whose title ends in 2
     --------------------------------------------------------------------- */

  /** "apartment 2" occurs in a lower-cased sample title exactly when the
      title's number is 2. */
  lemma ApartmentTwoInTitle(d: char)
    requires IsDigit(d)
    ensures IsSubstring("apartment 2", TitlePrefix + [d]) <==> d == '2'
  {
    if d == '2' {
      SubstringAt("apartment 2", TitlePrefix + [d], 6);
    } else {
      ApartmentTwoNowhere("apartment 2", TitlePrefix + [d]);
      NotSubstringNowhere("apartment 2", TitlePrefix + [d]);
    }
  }

  lemma ApartmentTwoNowhere(n: string, h: string)
    requires n == "apartment 2"
    requires |h| == |TitlePrefix| + 1 && h[..|TitlePrefix|] == TitlePrefix && h[16] != '2'
    ensures forall k :: !OccursAt(n, h, k)
  {
    MismatchAt(n, h, 0, 0);
    MismatchAt(n, h, 1, 0);
    MismatchAt(n, h, 2, 0);
    MismatchAt(n, h, 3, 0);
    MismatchAt(n, h, 4, 0);
    MismatchAt(n, h, 5, 0);
    MismatchAt(n, h, 6, 10);
  }

  lemma ApartmentTwoMatch(i: nat)
    requires i < SampleCount
    ensures Matches(MakeListing(i), "apartment 2") <==> i == 1
  {
    LowerSampleFields(i);
    ApartmentTwoInTitle(DigitChar(i + 1));
    assert DigitChar(i + 1) == '2' <==> i == 1 by {
      assert DigitValue(DigitChar(i + 1)) == i + 1;
    }
    NotSubstringTooLong("apartment 2", LowerCities[i % 4]);
  }

  lemma ApartmentTwoScenario()
    ensures Ids(Search("Apartment 2")) == [2]
  {
    ApartmentTwoSearch(SampleProperties());
  }

  /** "Apartment 2" over the sample records shows id 2 alone. */
  lemma ApartmentTwoSearch(s: seq<Listing>)
    requires IsSample(s)
    ensures Ids(SearchIn(s, "Apartment 2")) == [2]
  {
    assert Lower("Apartment 2") == "apartment 2";
    forall j | 0 <= j < |s|
      ensures j in [1] <==> Matches(s[j], "apartment 2")
    {
      ApartmentTwoMatch(j);
    }
    FilterIsSelectionOfMatches(s, "apartment 2", [1]);
  }

  /* ---------------------------------------------------------------------
     "xyz123": nothing matches, and the result is empty rather than an error
     --------------------------------------------------------------------- */

  lemma NoMatchScenario()
    ensures Search("xyz123") == []
  {
    NoMatchSearch(SampleProperties());
  }

  /** "xyz123" over the sample records shows nothing. */
  lemma NoMatchSearch(s: seq<Listing>)
    requires IsSample(s)
    ensures SearchIn(s, "xyz123") == []
  {
    SearchLowered(s, "xyz123", "xyz123");
    forall j | 0 <= j < |s|
      ensures !Matches(s[j], "xyz123")
    {
      NoMatchAt(j);
    }
    FilterIsSelectionOfMatches(s, "xyz123", []);
  }

  lemma NoMatchAt(i: nat)
    requires i < SampleCount
    ensures !Matches(MakeListing(i), "xyz123")
  {
    var n := "xyz123";
    assert n[0] == 'x';
    LowerSampleFields(i);
    NotSubstringByMissingChar(n, TitlePrefix + [DigitChar(i + 1)], 'x');
    NotSubstringByMissingChar(n, LowerCities[i % 4], 'x');
  }

  /* ---------------------------------------------------------------------
     " ": a blank query is not empty, so it is filtered on, and every
     title contains a blank
     --------------------------------------------------------------------- */

  lemma BlankQueryScenario()
    ensures Search(" ") == SampleProperties()
  {
    BlankQuerySearch(SampleProperties());
  }

  /** " " over the sample records shows every record. */
  lemma BlankQuerySearch(s: seq<Listing>)
    requires IsSample(s)
    ensures SearchIn(s, " ") == s
  {
    assert Lower(" ") == " ";
    forall j | 0 <= j < |s|
      ensures Matches(s[j], " ")
    {
      LowerSampleFields(j);
      SubstringAt(" ", TitlePrefix + [DigitChar(j + 1)], 1);
    }
    var idx := seq(|s|, k requires 0 <= k < |s| => k);
    forall j | 0 <= j < |s|
      ensures j in idx
    {
      assert idx[j] == j;
    }
    FilterIsSelectionOfMatches(s, " ", idx);
  }

  /* ---------------------------------------------------------------------
     Case and substring matching
     --------------------------------------------------------------------- */

  /** "DELHI" and "delhi" show the same listings: the two Delhi records. */
  lemma DelhiCaseScenario()
    ensures Search("DELHI") == Search("delhi")
    ensures Ids(Search("delhi")) == [1, 5]
  {
    DelhiCaseSearch(SampleProperties());
  }

  /** "DELHI" and "delhi" over the sample records both show ids 1 and 5. */
  lemma DelhiCaseSearch(s: seq<Listing>)
    requires IsSample(s)
    ensures SearchIn(s, "DELHI") == SearchIn(s, "delhi")
    ensures Ids(SearchIn(s, "delhi")) == [1, 5]
  {
    SearchLowered(s, "DELHI", "delhi");
    SearchLowered(s, "delhi", "delhi");
    DelhiPositions(s);
    SampleFilterIds(s, "delhi", [0, 4]);
    var ids := Ids(Filter(s, "delhi"));
    assert ids[0] == 1 && ids[1] == 5;
  }

  lemma DelhiPositions(s: seq<Listing>)
    requires IsSample(s)
    ensures forall j :: 0 <= j < |s| ==> (j in [0, 4] <==> Matches(s[j], "delhi"))
  {
    forall j | 0 <= j < |s|
      ensures j in [0, 4] <==> Matches(s[j], "delhi")
    {
      DelhiMatch(j);
    }
  }

  lemma DelhiMatch(i: nat)
    requires i < SampleCount
    ensures Matches(MakeListing(i), "delhi") <==> i % 4 == 0
  {
    LowerSampleFields(i);
    var n := "delhi";
    assert n[0] == 'd';
    NotSubstringByMissingChar(n, TitlePrefix + [DigitChar(i + 1)], 'd');
    var c := i % 4;
    if c == 0 {
      assert IsPrefix(n, "delhi");
    } else if c == 1 {
      NotSubstringByMissingChar(n, "gurgaon", 'd');
    } else if c == 2 {
      assert n[2] == 'l';
      NotSubstringByMissingChar(n, "noida", 'l');
    } else {
      NotSubstringByMissingChar(n, "mumbai", 'd');
    }
  }

  /** Matching is by substring, not by whole word: both "apartment" and the
      word fragment "rtment" find the listing titled "2 BHK Apartment 3". */
  lemma SubstringNotWordScenario()
    ensures MakeListing(2) in Search("apartment")
    ensures MakeListing(2) in Search("rtment")
  {
    SubstringNotWordSearch(SampleProperties());
  }

  /** Over the sample records, "apartment" and "rtment" both find record 3. */
  lemma SubstringNotWordSearch(s: seq<Listing>)
    requires IsSample(s)
    ensures MakeListing(2) in SearchIn(s, "apartment")
    ensures MakeListing(2) in SearchIn(s, "rtment")
  {
    ThirdTitleOccurrences();
    SearchLowered(s, "apartment", "apartment");
    ThirdRecordFound(s, "apartment", 6);
    SearchLowered(s, "rtment", "rtment");
    ThirdRecordFound(s, "rtment", 9);
  }

  /** Where "apartment" and its fragment "rtment" sit in the third record's
      lower-cased title. */
  lemma ThirdTitleOccurrences()
    ensures OccursAt("apartment", TitlePrefix + [DigitChar(3)], 6)
    ensures OccursAt("rtment", TitlePrefix + [DigitChar(3)], 9)
  {
    var h := TitlePrefix + [DigitChar(3)];
    assert h[6..15] == "apartment";
    assert h[9..15] == "rtment";
  }

  /** A lower-cased query occurring in the third record's lower-cased title
      keeps that record. */
  lemma ThirdRecordFound(s: seq<Listing>, lq: string, k: int)
    requires IsSample(s)
    requires OccursAt(lq, TitlePrefix + [DigitChar(3)], k)
    ensures MakeListing(2) in Filter(s, lq)
  {
    LowerSampleFields(2);
    SubstringAt(lq, Lower(MakeListing(2).title), k);
    assert s[2] == MakeListing(2);
  }
}
