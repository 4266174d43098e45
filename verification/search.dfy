/**
 The search/filter engine behind the page's search box: an empty query
 resets to the full listing set; any other query keeps, in their original
 order, the listings whose lower-cased title or city contains the
 lower-cased query.
 */
module SearchEngine {
  import opened Text
  import opened Listings

  /** The test the filter applies to each listing, given the already
      lower-cased query `lq`. Only `title` and `city` take part. */
  predicate Matches(p: Listing, lq: string) {
    IsSubstring(lq, Lower(p.title)) || IsSubstring(lq, Lower(p.city))
  }

  /** A listing matches exactly when the lower-cased query occurs at some
      offset of its lower-cased title or of its lower-cased city. */
  lemma MatchesIff(p: Listing, lq: string)
    ensures Matches(p, lq) <==>
      (exists k :: OccursAt(lq, Lower(p.title), k)) || (exists k :: OccursAt(lq, Lower(p.city), k))
  {
    IsSubstringIff(lq, Lower(p.title));
    IsSubstringIff(lq, Lower(p.city));
  }

  /** Keeps the listings that match `lq`, in their original order. */
  function Filter(all: seq<Listing>, lq: string): (r: seq<Listing>)
    ensures |r| <= |all|
    ensures forall p :: p in r <==> p in all && Matches(p, lq)
  {
    if |all| == 0 then []
    else if Matches(all[0], lq) then [all[0]] + Filter(all[1..], lq)
    else Filter(all[1..], lq)
  }

  /** Filtering a concatenation filters each part. */
  lemma {:induction false} FilterAppend(a: seq<Listing>, b: seq<Listing>, lq: string)
    ensures Filter(a + b, lq) == Filter(a, lq) + Filter(b, lq)
  {
    if |a| > 0 {
      assert (a + b)[1..] == a[1..] + b;
      FilterAppend(a[1..], b, lq);
    } else {
      assert a + b == b;
    }
  }

  /** Array.prototype.filter: one pass over the array in index order,
      appending every element the predicate accepts. */
  method FilterInOrder(all: seq<Listing>, lq: string) returns (r: seq<Listing>)
    ensures r == Filter(all, lq)
    ensures forall p :: p in r <==> p in all && Matches(p, lq)
  {
    r := [];
    var i := 0;
    while i < |all|
      invariant 0 <= i <= |all|
      invariant r == Filter(all[..i], lq)
    {
      FilterAppend(all[..i], [all[i]], lq);
      assert all[..i + 1] == all[..i] + [all[i]];
      if Matches(all[i], lq) {
        r := r + [all[i]];
      }
      i := i + 1;
    }
    assert all[..i] == all;
  }

  /* ---------------------------------------------------------------------
     Order preservation
     --------------------------------------------------------------------- */

  /** `idx` lists, in strictly increasing order, the positions of `all`
      that `r` was taken from. */
  predicate Embeds(idx: seq<nat>, r: seq<Listing>, all: seq<Listing>) {
    && |idx| == |r|
    && (forall k :: 0 <= k < |idx| ==> idx[k] < |all| && all[idx[k]] == r[k])
    && StrictlyIncreasing(idx)
  }

  /** `r` is `all` with some elements removed and none reordered. */
  ghost predicate IsOrderedSubsequence(r: seq<Listing>, all: seq<Listing>) {
    exists idx :: Embeds(idx, r, all)
  }

  /** Every position moved one place right, for a sequence found in `all[1..]`. */
  function Shift(idx: seq<nat>): (r: seq<nat>)
    ensures |r| == |idx|
    ensures forall k :: 0 <= k < |idx| ==> r[k] == idx[k] + 1
  {
    seq(|idx|, k requires 0 <= k < |idx| => idx[k] + 1)
  }

  /** An embedding into the tail of `all` lifts to one into `all`, with or
      without the head prepended. */
  lemma ShiftEmbeds(idx: seq<nat>, r: seq<Listing>, all: seq<Listing>)
    requires |all| > 0
    requires Embeds(idx, r, all[1..])
    ensures Embeds(Shift(idx), r, all)
    ensures Embeds([0] + Shift(idx), [all[0]] + r, all)
  {
    var s := Shift(idx);
    forall k | 0 <= k < |s|
      ensures s[k] < |all| && all[s[k]] == r[k]
    {
      assert all[1..][idx[k]] == all[idx[k] + 1];
    }
  }

  /** Position `j` of `all` appears in the shifted embedding exactly when
      position `j - 1` of the tail appears in the original. */
  lemma ShiftMembers(idx: seq<nat>, j: nat)
    requires j >= 1
    ensures j in Shift(idx) <==> j - 1 in idx
    ensures 0 !in Shift(idx)
  {
    var s := Shift(idx);
    if j - 1 in idx {
      var k :| 0 <= k < |idx| && idx[k] == j - 1;
      assert s[k] == j;
    }
  }

  /** The filter result is drawn from `all` in order, and the positions it
      keeps are exactly the positions whose listing matches. Together these
      determine the result completely. */
  lemma {:induction false} FilterKeepsOrder(all: seq<Listing>, lq: string) returns (idx: seq<nat>)
    ensures Embeds(idx, Filter(all, lq), all)
    ensures forall j :: 0 <= j < |all| ==> (j in idx <==> Matches(all[j], lq))
  {
    if |all| == 0 {
      idx := [];
    } else {
      var tail := Filter(all[1..], lq);
      var rest := FilterKeepsOrder(all[1..], lq);
      ShiftEmbeds(rest, tail, all);
      var keep := Matches(all[0], lq);
      if keep {
        assert Filter(all, lq) == [all[0]] + tail;
        idx := [0] + Shift(rest);
      } else {
        assert Filter(all, lq) == tail;
        idx := Shift(rest);
      }
      forall j | 0 <= j < |all|
        ensures j in idx <==> Matches(all[j], lq)
      {
        if j == 0 {
          ShiftMembers(rest, 1);
        } else {
          ShiftMembers(rest, j);
          assert all[1..][j - 1] == all[j];
        }
      }
    }
  }

  /** Filtering only removes listings and never reorders the survivors. */
  lemma FilterIsOrderedSubsequence(all: seq<Listing>, lq: string)
    ensures IsOrderedSubsequence(Filter(all, lq), all)
  {
    var idx := FilterKeepsOrder(all, lq);
  }

  /** A non-empty sequence has a member: its head. */
  lemma HeadIsMember<T>(s: seq<T>)
    ensures |s| > 0 ==> s[0] in s
  {
  }

  /** Two strictly increasing sequences with the same members are equal. */
  lemma {:induction false} StrictlyIncreasingUnique(a: seq<nat>, b: seq<nat>)
    requires StrictlyIncreasing(a) && StrictlyIncreasing(b)
    requires forall x :: x in a <==> x in b
    ensures a == b
    decreases |a|
  {
    if |a| == 0 {
      HeadIsMember(b);
    } else {
      assert a[0] in b;
      assert b[0] in a;
      assert a[0] == b[0] by {
        var i :| 0 <= i < |b| && b[i] == a[0];
        var j :| 0 <= j < |a| && a[j] == b[0];
        assert a[0] <= a[j] && b[0] <= b[i];
      }
      forall x
        ensures x in a[1..] <==> x in b[1..]
      {
        if x in a[1..] {
          var i :| 1 <= i < |a| && a[i] == x;
          assert x in a;
          assert x in b;
          var j :| 0 <= j < |b| && b[j] == x;
          assert j != 0;
          assert b[1..][j - 1] == x;
        }
        if x in b[1..] {
          var i :| 1 <= i < |b| && b[i] == x;
          assert x in b;
          assert x in a;
          var j :| 0 <= j < |a| && a[j] == x;
          assert j != 0;
          assert a[1..][j - 1] == x;
        }
      }
      StrictlyIncreasingUnique(a[1..], b[1..]);
      assert a == [a[0]] + a[1..];
      assert b == [b[0]] + b[1..];
    }
  }

  /** The listings of `all` at the positions `idx`, in that order. */
  function Select(all: seq<Listing>, idx: seq<nat>): (r: seq<Listing>)
    requires forall k :: 0 <= k < |idx| ==> idx[k] < |all|
    ensures |r| == |idx|
    ensures forall k :: 0 <= k < |idx| ==> r[k] == all[idx[k]]
  {
    seq(|idx|, k requires 0 <= k < |idx| => all[idx[k]])
  }

  /** The filter's behaviour is fully pinned down: listing the positions
      that match, in increasing order, and reading them off `all` yields
      exactly the filter result. */
  lemma FilterIsSelectionOfMatches(all: seq<Listing>, lq: string, idx: seq<nat>)
    requires StrictlyIncreasing(idx)
    requires forall k :: 0 <= k < |idx| ==> idx[k] < |all|
    requires forall j :: 0 <= j < |all| ==> (j in idx <==> Matches(all[j], lq))
    ensures Filter(all, lq) == Select(all, idx)
  {
    var kept := FilterKeepsOrder(all, lq);
    forall x
      ensures x in idx <==> x in kept
    {
      if x in idx {
        var k :| 0 <= k < |idx| && idx[k] == x;
      }
      if x in kept {
        var k :| 0 <= k < |kept| && kept[k] == x;
      }
    }
    StrictlyIncreasingUnique(idx, kept);
  }

  /** An ordered subsequence of a sequence with strictly increasing ids has
      strictly increasing ids itself. */
  lemma EmbedsKeepsIdsIncreasing(idx: seq<nat>, r: seq<Listing>, all: seq<Listing>)
    requires Embeds(idx, r, all)
    requires StrictlyIncreasing(Ids(all))
    ensures StrictlyIncreasing(Ids(r))
  {
    var ids := Ids(r);
    forall k, l | 0 <= k < l < |ids|
      ensures ids[k] < ids[l]
    {
      assert Ids(all)[idx[k]] < Ids(all)[idx[l]];
    }
  }

  /* ---------------------------------------------------------------------
     Which fields matter
     --------------------------------------------------------------------- */

  /** Applies `f` to every listing. */
  function MapListings(f: Listing -> Listing, s: seq<Listing>): (r: seq<Listing>)
    ensures |r| == |s|
    ensures forall i :: 0 <= i < |s| ==> r[i] == f(s[i])
  {
    if |s| == 0 then [] else [f(s[0])] + MapListings(f, s[1..])
  }

  /** Changing `id`, `price` or `img` (anything that keeps title and city)
      changes neither which listings survive nor their order: filtering
      commutes with such a change. */
  lemma {:induction false} FilterIgnoresOtherFields(f: Listing -> Listing, all: seq<Listing>, lq: string)
    requires forall p :: f(p).title == p.title && f(p).city == p.city
    ensures Filter(MapListings(f, all), lq) == MapListings(f, Filter(all, lq))
  {
    if |all| > 0 {
      assert MapListings(f, all)[1..] == MapListings(f, all[1..]);
      FilterIgnoresOtherFields(f, all[1..], lq);
      assert Matches(f(all[0]), lq) == Matches(all[0], lq);
      if Matches(all[0], lq) {
        assert MapListings(f, [all[0]] + Filter(all[1..], lq))
            == [f(all[0])] + MapListings(f, Filter(all[1..], lq));
      }
    }
  }

  /* ---------------------------------------------------------------------
     The search handler
     --------------------------------------------------------------------- */

  /** The whole search over a listing set: the empty query short-circuits
      to the full set; otherwise the query is lower-cased and filtered on. */
  function SearchIn(all: seq<Listing>, q: string): (r: seq<Listing>)
    ensures |q| == 0 ==> r == all
    ensures |r| <= |all|
    ensures forall p :: p in r ==> p in all
    ensures |q| > 0 ==> forall p :: p in r <==> p in all && Matches(p, Lower(q))
  {
    if |q| == 0 then all else Filter(all, Lower(q))
  }

  /** The result is always an ordered subsequence of the set searched. */
  lemma SearchInKeepsOrder(all: seq<Listing>, q: string)
    ensures IsOrderedSubsequence(SearchIn(all, q), all)
  {
    if |q| == 0 {
      var idx := seq(|all|, k requires 0 <= k < |all| => k);
      assert Embeds(idx, all, all);
    } else {
      FilterIsOrderedSubsequence(all, Lower(q));
    }
  }

  /** The empty-query short-circuit agrees with the matching rule: the empty
      string is contained in every title, so filtering on it keeps all. */
  lemma {:induction false} EmptyQueryKeepsAll(all: seq<Listing>)
    ensures Filter(all, Lower("")) == all
  {
    if |all| > 0 {
      EmptyIsSubstring(Lower(all[0].title));
      EmptyQueryKeepsAll(all[1..]);
    }
  }

  /** A query that matches no listing yields the empty sequence. */
  lemma SearchInNoMatch(all: seq<Listing>, q: string)
    requires forall p :: p in all ==> !Matches(p, Lower(q))
    ensures SearchIn(all, q) == []
  {
    HeadIsMember(SearchIn(all, q));
  }

  /** Queries that differ only in ASCII case give identical results. */
  lemma SearchCaseInsensitive(all: seq<Listing>, q1: string, q2: string)
    requires SameIgnoringCase(q1, q2)
    ensures SearchIn(all, q1) == SearchIn(all, q2)
  {
    LowerEqualIff(q1, q2);
  }

  /** The search as the page runs it: always over the sample set. */
  function Search(q: string): (r: seq<Listing>)
    ensures |q| == 0 ==> r == SampleProperties()
    ensures 0 <= |r| <= SampleCount
    ensures forall p :: p in r ==> p in SampleProperties()
    ensures |q| > 0 ==> forall p :: p in r <==> p in SampleProperties() && Matches(p, Lower(q))
  {
    SearchIn(SampleProperties(), q)
  }

  /** Searching a set whose ids strictly increase gives a result whose ids
      strictly increase: the filter neither reorders nor repeats. */
  lemma SearchInIdsIncreasing(all: seq<Listing>, q: string)
    requires StrictlyIncreasing(Ids(all))
    ensures StrictlyIncreasing(Ids(SearchIn(all, q)))
  {
    SearchInKeepsOrder(all, q);
    var idx :| Embeds(idx, SearchIn(all, q), all);
    EmbedsKeepsIdsIncreasing(idx, SearchIn(all, q), all);
  }

  /** Ids in any search result strictly increase, since the sample ids do. */
  lemma SearchIdsIncreasing(q: string)
    ensures StrictlyIncreasing(Ids(Search(q)))
  {
    SampleIdsStrictlyIncreasing();
    SearchInIdsIncreasing(SampleProperties(), q);
  }
}
