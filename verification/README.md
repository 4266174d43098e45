# Rental-listing search, modelled in Dafny

The repository is a static landing page for a rental-property product. Its only logic is the listing search in `src/App.jsx`. This model covers that search and nothing else:

- **Data provider** (`Listings`). The fixed sample set holds eight `Listing` records, generated from the index `i`. Each record has `id = i + 1`, the title `"2 BHK Apartment <i+1>"` and a city cycling through Delhi, Gurgaon, Noida and Mumbai. Price and image are display strings.
- **Search engine** (`SearchEngine`). The search handler treats an empty query as a reset to the full sample set. Any other query is lower-cased, and the result keeps, in their original order, the listings whose lower-cased title or city contains it.
- **Page state** (`Page`). The displayed list is one explicit state value. `HandleSearch` replaces it without reading it.
- **String primitives** (`Text`). These are ASCII lower-casing (for `toLowerCase`), substring containment (for `includes`) and the decimal rendering that the template strings perform.
- **Scenarios** (`Scenarios`). These are concrete searches over the fixed sample set.

The five files form one Dafny program; `Scenarios` and `Page` build on the other three.

Two observations about the code:

- The empty-query short-circuit on line 141 gives the same result as the matching rule would. The empty string is contained in every title, so filtering on it keeps every listing (`EmptyQueryKeepsAll`). The short-circuit is therefore a shortcut, not a separate behaviour.
- A query made only of blanks is not empty, so it goes through the filter. Every sample title contains a blank, so the query `" "` shows all eight listings (`BlankQueryScenario`).

## Model

| member | source | states |
|---|---|---|
| Text.LowerEqualIff | src/App.jsx:142 | two strings lower-case to the same string exactly when they are equal position by position up to ASCII letter case |
| Text.Lower | src/App.jsx:142 | lower-casing keeps the string the same up to case and leaves no capital letter |
| Text.LowerIdempotent | src/App.jsx:142 | lower-casing an already lower-cased string changes nothing |
| Text.IsSubstring | src/App.jsx:143 | the containment test behind `includes`, tried at each offset from the left; `Text.IsSubstringIff` proves it holds exactly when the needle occurs at some offset |
| Text.IsSubstringIff | src/App.jsx:143 | the left-to-right containment test holds exactly when the needle occurs at some offset of the hay |
| Text.EmptyIsSubstring | src/App.jsx:143 | the empty string is contained in every string |
| Text.SubstringCharsOccur | src/App.jsx:143 | every character of a contained needle occurs in the hay |
| Text.DecimalString | src/App.jsx:6-9 | the rendering of `${i+1}` and `${8 + i}` is a non-empty run of decimal digits with no leading zero unless the number is 0 |
| Text.DecimalRoundTrip | src/App.jsx:6 | the decimal rendering of a number reads back as the same number |
| Text.DecimalStringInjective | src/App.jsx:6 | distinct numbers render to distinct strings, so distinct indices give distinct titles |
| Listings.MakeListing | src/App.jsx:4-10 | the record for index i has id i+1, title "2 BHK Apartment " followed by i+1 and city CityNames[i % 4], and is well-formed |
| Listings.Generate | src/App.jsx:4 | generating n records yields n records, and the record at each position i is the one for index i |
| Listings.SampleProperties | src/App.jsx:4-10 | the sample set has 8 records, with id i+1 and city CityNames[i % 4] at position i |
| Listings.SampleIdsStrictlyIncreasing | src/App.jsx:4-5 | the sample ids are 1..8 in order, strictly increasing and pairwise distinct, and every record is well-formed |
| Listings.SampleIndexOfId | src/App.jsx:5 | a sample record sits at position id-1, so its id locates it |
| SearchEngine.Matches | src/App.jsx:143 | the filter's test, on the lower-cased title or city only; `SearchEngine.MatchesIff` gives its meaning in terms of occurrences |
| SearchEngine.MatchesIff | src/App.jsx:143 | a listing matches exactly when the lower-cased query occurs at some offset of its lower-cased title or of its lower-cased city |
| SearchEngine.Filter | src/App.jsx:143 | the filter result is no longer than its input and holds a listing exactly when the listing is in the input and matches |
| SearchEngine.FilterAppend | src/App.jsx:143 | filtering a concatenation is the concatenation of the filtered parts |
| SearchEngine.FilterInOrder | src/App.jsx:143 | a one-pass loop that appends matching elements in index order produces the filter result |
| SearchEngine.FilterKeepsOrder | src/App.jsx:143 | the result is read off strictly increasing positions of the input, and a position is kept exactly when its listing matches |
| SearchEngine.FilterIsOrderedSubsequence | src/App.jsx:143 | filtering only removes listings and never reorders the ones that remain |
| SearchEngine.FilterIsSelectionOfMatches | src/App.jsx:143 | the result equals the input read at the increasing list of matching positions, so the matching rule determines the result completely |
| SearchEngine.FilterIgnoresOtherFields | src/App.jsx:143 | changing id, price or img while keeping title and city commutes with filtering, so those fields never affect which listings are kept or their order |
| SearchEngine.SearchIn | src/App.jsx:140-144 | an empty query returns the set unchanged; any other query returns a subset of the set, no larger than it, holding exactly the listings whose title or city contains the lower-cased query |
| SearchEngine.SearchInKeepsOrder | src/App.jsx:141-143 | every search result is an ordered subsequence of the set searched |
| SearchEngine.EmptyQueryKeepsAll | src/App.jsx:141-143 | filtering on the lower-cased empty query keeps every listing, so the short-circuit agrees with the matching rule |
| SearchEngine.SearchInNoMatch | src/App.jsx:143 | a query that matches no listing gives the empty sequence; for the empty query this forces the set itself to be empty |
| SearchEngine.SearchCaseInsensitive | src/App.jsx:142 | queries equal up to ASCII case give identical results |
| SearchEngine.Search | src/App.jsx:140-144 | the search over the sample set resets on an empty query; otherwise it returns at most 8 sample listings, exactly those matching the lower-cased query |
| SearchEngine.SearchInIdsIncreasing | src/App.jsx:141-143 | searching a set whose ids strictly increase gives a result whose ids strictly increase |
| SearchEngine.SearchIdsIncreasing | src/App.jsx:143 | the ids in any search result strictly increase |
| Page.InitialState | src/App.jsx:139 | before any search the page shows the 8 sample records themselves, the record for index i at position i, ids 1..8 in order |
| Page.HandleSearch | src/App.jsx:140-144 | after an empty query the page shows the initial listing; after any other query it shows exactly the sample listings whose lower-cased title or city contains the lower-cased query, in their sample order, at most 8 of them, with strictly increasing ids |
| Page.LastSearchWins | src/App.jsx:140-144 | after any series of searches the page shows what the last query alone would show from the initial state |
| Page.SearchIdempotentAndResettable | src/App.jsx:141-143 | repeating a search changes nothing, and an empty query after any search restores the initial display |
| Scenarios.LowerSampleFields | src/App.jsx:6-7 | the lower-cased title of record i is "2 bhk apartment " followed by the digit of i+1, and its lower-cased city is the (i % 4)-th of delhi, gurgaon, noida, mumbai |
| Scenarios.NoidaSearch | src/App.jsx:142-143 | over the eight generated records, the query "noida" shows exactly ids 3 and 7, in that order |
| Scenarios.NoidaScenario | src/App.jsx:142-143 | the page's search for "noida" shows exactly ids 3 and 7, in that order |
| Scenarios.ApartmentTwoSearch | src/App.jsx:142-143 | over the eight generated records, the query "Apartment 2" shows exactly id 2 |
| Scenarios.ApartmentTwoScenario | src/App.jsx:142-143 | the page's search for "Apartment 2" shows exactly id 2 |
| Scenarios.NoMatchSearch | src/App.jsx:142-143 | over the eight generated records, the query "xyz123" shows the empty sequence |
| Scenarios.NoMatchScenario | src/App.jsx:142-143 | the page's search for "xyz123" shows the empty sequence |
| Scenarios.BlankQuerySearch | src/App.jsx:141-143 | over the eight generated records, the query " " is not empty, goes through the filter, and shows every record |
| Scenarios.BlankQueryScenario | src/App.jsx:141-143 | the page's search for " " shows all 8 listings |
| Scenarios.DelhiCaseSearch | src/App.jsx:142-143 | over the eight generated records, "DELHI" and "delhi" show the same listings, ids 1 and 5 |
| Scenarios.DelhiCaseScenario | src/App.jsx:142-143 | the page's searches for "DELHI" and "delhi" show the same listings, ids 1 and 5 |
| Scenarios.SubstringNotWordSearch | src/App.jsx:143 | over the eight generated records, matching is by substring: both "apartment" and the fragment "rtment" find record 3 |
| Scenarios.SubstringNotWordScenario | src/App.jsx:143 | the page's searches for "apartment" and "rtment" both show listing 3 |

## Left out

- The React components `Navbar`, `Hero`, `Features`, `PropertyCard`, `PropertiesGrid` and `Footer` are left out. They only render fields and carry no logic.
- `useState`, the input's `onChange` and the button's `onClick` wiring (`src/App.jsx:36,46-47,139`) are left out. The displayed list is modelled as the `PageState` value, and the query arrives as a plain parameter.
- The `clsx` import is left out. It is a foreign library and the search does not use it.
- `Text.Lower`: only ASCII `A`–`Z` are mapped. JavaScript's `toLowerCase` uses the full Unicode case mapping, which can also change a string's length, and this model does not follow it.
- `SearchEngine.Search`: the query is always a string. The source's `!q` test would also treat `null` or `undefined` as a reset, but the text input never supplies them.
- Listing identity is value equality of records. JavaScript compares object references, which would make identical records distinct.
- `price` and `img` are built as the source builds them but are treated as opaque display strings. No property is proved about their format, and the image URL is never fetched.
