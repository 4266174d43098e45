/**
 The page's one piece of state, the list of cards on display, and the
 search handler that replaces it. The handler never reads the list it
 replaces: every search starts over from the sample set.
 */
module Page {
  import opened Text
  import opened Listings
  import opened SearchEngine

  /** What the listing grid currently shows. */
  datatype PageState = PageState(displayed: seq<Listing>)

  /** Before any search the grid shows the whole sample set. */
  function InitialState(): (s: PageState)
    ensures |s.displayed| == SampleCount
    ensures Ids(s.displayed) == [1, 2, 3, 4, 5, 6, 7, 8]
    ensures forall i :: 0 <= i < SampleCount ==> s.displayed[i] == MakeListing(i)
  {
    SampleIdsStrictlyIncreasing();
    PageState(SampleProperties())
  }

  /** The search button's handler: installs the result of searching the
      sample set for `q`, discarding whatever was displayed before. */
  function HandleSearch(s: PageState, q: string): (s': PageState)
    ensures |q| == 0 ==> s' == InitialState()
    ensures |s'.displayed| <= SampleCount
    ensures forall p :: p in s'.displayed ==> p in SampleProperties()
    ensures |q| > 0 ==> forall p :: p in s'.displayed <==> p in SampleProperties() && Matches(p, Lower(q))
    ensures IsOrderedSubsequence(s'.displayed, SampleProperties())
    ensures StrictlyIncreasing(Ids(s'.displayed))
  {
    SearchIdsIncreasing(q);
    SearchInKeepsOrder(SampleProperties(), q);
    PageState(Search(q))
  }

  /** The state after a series of searches, oldest query first. */
  function RunSearches(s: PageState, qs: seq<string>): PageState
    decreases |qs|
  {
    if |qs| == 0 then s else RunSearches(HandleSearch(s, qs[0]), qs[1..])
  }

  /** Only the most recent query matters: the earlier ones leave no trace. */
  lemma {:induction false} LastSearchWins(s: PageState, qs: seq<string>)
    requires |qs| > 0
    ensures RunSearches(s, qs) == HandleSearch(InitialState(), qs[|qs| - 1])
    decreases |qs|
  {
    if |qs| > 1 {
      LastSearchWins(HandleSearch(s, qs[0]), qs[1..]);
    }
  }

  /** Repeating a search changes nothing, and an empty query after any
      search restores the initial display. */
  lemma SearchIdempotentAndResettable(s: PageState, q: string, q': string)
    ensures HandleSearch(HandleSearch(s, q), q) == HandleSearch(s, q)
    ensures HandleSearch(HandleSearch(s, q'), "") == InitialState()
  {
  }
}
