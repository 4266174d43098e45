/**
 The data provider: the property-listing record and the fixed, ordered
 sample set that is both the initial display and the set every search
 starts from.
 */
module Listings {
  import opened Text

  /** One rental-property card. `price` and `img` are display strings only:
      nothing computes with them and nothing fetches the image. */
  datatype Listing = Listing(id: nat, title: string, city: string, price: string, img: string)

  /** Number of records the sample set holds (`Array.from({length: 8})`). */
  const SampleCount: nat := 8

  /** The cities the sample set cycles through, in order. */
  const CityNames: seq<string> := ["Delhi", "Gurgaon", "Noida", "Mumbai"]

  /** Shape every sample record has: a positive id and non-empty labels. */
  predicate WellFormed(p: Listing) {
    p.id > 0 && |p.title| > 0 && |p.city| > 0
  }

  /** The record generated for index `i`. */
  function MakeListing(i: nat): (p: Listing)
    ensures p.id == i + 1
    ensures p.city == CityNames[i % 4]
    ensures p.title == "2 BHK Apartment " + DecimalString(i + 1)
    ensures WellFormed(p)
  {
    Listing(
      i + 1,
      "2 BHK Apartment " + DecimalString(i + 1),
      CityNames[i % 4],
      DecimalString(8 + i) + "k / month",
      "https://picsum.photos/seed/prop" + DecimalString(i + 1) + "/600/400")
  }

  /** The records for indices 0 .. n-1, in index order, as the array
      constructor followed by `map` produces them. */
  function Generate(n: nat): (r: seq<Listing>)
    ensures |r| == n
    ensures forall i :: 0 <= i < n ==> r[i].id == i + 1 && r[i] == MakeListing(i)
  {
    if n == 0 then [] else Generate(n - 1) + [MakeListing(n - 1)]
  }

  /** The canonical, unfiltered listing set. */
  function SampleProperties(): (r: seq<Listing>)
    ensures |r| == SampleCount
    ensures forall i :: 0 <= i < |r| ==> r[i].id == i + 1 && r[i].city == CityNames[i % 4]
    ensures forall i :: 0 <= i < |r| ==> r[i] == MakeListing(i)
  {
    Generate(SampleCount)
  }

  /** The ids of a listing sequence, in order. */
  function Ids(s: seq<Listing>): (ids: seq<nat>)
    ensures |ids| == |s|
    ensures forall i :: 0 <= i < |s| ==> ids[i] == s[i].id
  {
    if |s| == 0 then [] else [s[0].id] + Ids(s[1..])
  }

  /** Ids strictly increase along the sequence. */
  predicate StrictlyIncreasing(ids: seq<nat>) {
    forall i, j :: 0 <= i < j < |ids| ==> ids[i] < ids[j]
  }

  /** Records numbered 1, 2, ... by position have strictly increasing ids. */
  lemma IndexedIds(s: seq<Listing>)
    requires forall i :: 0 <= i < |s| ==> s[i].id == i + 1
    ensures forall i :: 0 <= i < |s| ==> Ids(s)[i] == i + 1
    ensures StrictlyIncreasing(Ids(s))
  {
  }

  /** Records made by `MakeListing` are well-formed. */
  lemma IndexedWellFormed(s: seq<Listing>)
    requires forall i :: 0 <= i < |s| ==> s[i] == MakeListing(i)
    ensures forall p :: p in s ==> WellFormed(p)
  {
    forall p | p in s
      ensures WellFormed(p)
    {
      var i :| 0 <= i < |s| && s[i] == p;
      assert p == MakeListing(i);
    }
  }

  /** The sample ids are 1..8 in order, hence strictly increasing and unique;
      every record is well-formed. */
  lemma SampleIdsStrictlyIncreasing()
    ensures Ids(SampleProperties()) == [1, 2, 3, 4, 5, 6, 7, 8]
    ensures StrictlyIncreasing(Ids(SampleProperties()))
    ensures forall i, j :: 0 <= i < SampleCount && 0 <= j < SampleCount && i != j ==>
              SampleProperties()[i].id != SampleProperties()[j].id
    ensures forall p :: p in SampleProperties() ==> WellFormed(p)
  {
    var s := SampleProperties();
    IndexedIds(s);
    IndexedWellFormed(s);
    FirstEightIds(Ids(s));
  }

  lemma FirstEightIds(ids: seq<nat>)
    requires |ids| == 8 && forall i :: 0 <= i < |ids| ==> ids[i] == i + 1
    ensures ids == [1, 2, 3, 4, 5, 6, 7, 8]
  {
  }

  /** A record's position in the sample set is determined by its id. */
  lemma SampleIndexOfId(p: Listing)
    requires p in SampleProperties()
    ensures 1 <= p.id <= SampleCount
    ensures SampleProperties()[p.id - 1] == p
  {
    var s := SampleProperties();
    var i :| 0 <= i < |s| && s[i] == p;
  }
}
