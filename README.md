# Map references and the venue table, in Dafny

This project models the logic of a wedding-venue planner's browser front end that
turns a venue's location text into coordinates and lays out the venue table:

- `parseGoogleMapsUrl` (`src/utils/maps.ts`). It resolves a Google Maps URL, or a bare
  `lat,lng` pair, to a latitude and longitude in range, or to nothing. It gives up on a
  short link. It then tries the place pattern `@lat,lng`, five alternate encodings in
  order, and finally the whole-string `lat,lng` form. Every candidate passes the same
  range guard.
- `getStreetViewImageUrl` (`src/utils/maps.ts`): the Street View Static API request for a
  400x200 image at a pair of coordinates.
- The table of `src/components/Table.tsx`:
  - the sort state (column and direction) and its header-click handler;
  - the sorted copy of the rows (numbers by value, strings by `localeCompare`, anything
    else equal);
  - the header rewrite that adds an `Image` column after `Maps`;
  - the coordinate selection of the `maps` and `image` cells, and the lookup of a row's
    field by the lower-cased header text.

Modules:

- `Strings`: `includes`, `indexOf`, `split`, `trim`, ASCII `toLowerCase`.
- `JsNumbers`: JavaScript numbers and `parseFloat`, with exact reals.
- `Decimals`: the text `-?\d+\.\d+` and its value.
- `Scan`: the resolver's regular expressions as greedy scanners, with proofs that they
  agree with the regular expressions.
- `Maps`: the resolver.
- `StreetView`: the image URL.
- `Sorting`: a stable sort.
- `Table`: sort state, comparator, headers.
- `TableCells`: the `maps` and `image` cells.

The sort state is a class, `Table.SortState`. Its two fields stand for the component's two
`useState` variables, and `HandleSort` updates them in place. Everything else in the core
computes values, so it is modelled with functions and lemmas.

`Table.tsx` looks a row's field up by the lower-cased header text (lines 123 and 180), not by
column position.

## Model

| member | source | states |
|---|---|---|
| Maps.Validate | src/utils/maps.ts:146-150 | the range guard keeps a pair exactly when both numbers are finite, the latitude is in [-90, 90] and the longitude in [-180, 180] |
| Maps.ParseGoogleMapsUrl | src/utils/maps.ts:133-202 | the resolver is total, and any coordinates it returns are in range |
| Maps.PatternResult | src/utils/maps.ts:142-150 | a pattern (the place pattern here, each alternate at lines 173-184) contributes coordinates only when it has a match, and then only an in-range pair; `PatternResultMeaning` gives the pair's exact values |
| Maps.BareResult | src/utils/maps.ts:188-195 | the last resort contributes coordinates only for a string the anchored expression accepts, and then only an in-range pair; `BareResultNeedsPair` and `BarePairResolves` say which strings and which values |
| Maps.Candidates | src/utils/maps.ts:140-195 | the resolver's candidates in order: the place result first, then the five alternates, then the bare-pair result, each present only when in range; `ResolutionOrder` shows the resolver takes the first present one |
| Maps.FirstPresent | src/utils/maps.ts:171-185 | the result is the first candidate that passed its guard, with none present before it; it is nothing exactly when every candidate failed |
| Maps.FirstPresentThen | src/utils/maps.ts:171-197 | trying the alternate candidates and then the bare form is one ordered search over both |
| Maps.ResolutionOrder | src/utils/maps.ts:133-197 | a short link yields nothing; otherwise the result is the first present of the place result, the five alternates in order, and the bare-pair result |
| Maps.CascadeOrder | src/utils/maps.ts:140-197 | a first candidate, then a run of candidates, then a fallback are searched in that order |
| Maps.PatternResultMeaning | src/utils/maps.ts:142-150 | a pattern's candidate is the exact decimal value of its leftmost match's two captures, kept only when in range; the captures are never read as NaN |
| Maps.MatchNeedsLead | src/utils/maps.ts:141-142 | a match can only start where the pattern's literal lead occurs |
| Maps.MatchAtFirstLead | src/utils/maps.ts:141-142 | when the lead first occurs before `lat SEP lng` followed by a non-digit, `url.match` reports exactly that match with those captures |
| Maps.FirstLeadWins | src/utils/maps.ts:142 | a regular-expression match at the first occurrence of the lead, followed by no digit, is the reported match |
| Maps.NoMatchBeforeLead | src/utils/maps.ts:142 | no match starts before the first occurrence of the lead |
| Maps.PlaceMatchDecides | src/utils/maps.ts:141-151 | when `@` first occurs before an in-range `lat,lng`, the resolver returns that pair; out of range, the later candidates decide |
| Maps.ShortLinkYieldsNothing | src/utils/maps.ts:136-138 | a URL containing `goo.gl/maps/` anywhere resolves to nothing |
| Maps.BarePairResolves | src/utils/maps.ts:188-194 | two decimal texts joined by a comma resolve, through the last resort, to their exact values when in range |
| Maps.BarePairEndToEnd | src/utils/maps.ts:133-195 | the resolver given two decimal texts joined by a comma, such as `48.8566,2.3522`, returns their exact values when in range and nothing otherwise |
| Maps.BarePairReads | src/utils/maps.ts:189-194 | the last resort reads the two pieces of a bare pair with `parseFloat` and applies the range guard |
| Maps.BarePairMatches | src/utils/maps.ts:188 | a bare pair of decimal texts matches the anchored expression |
| Maps.BarePairSplits | src/utils/maps.ts:189 | splitting a bare pair on `,` gives its two texts |
| Maps.BareResultNeedsPair | src/utils/maps.ts:188 | the last resort accepts only a whole string of the form `lat,lng` |
| Maps.NoCandidateWithoutLeadChar | src/utils/maps.ts:154-173 | a pattern whose lead holds a character the URL lacks contributes nothing |
| Maps.AlternatesNeedLeadChars | src/utils/maps.ts:154-169 | every alternate encoding needs an `=` or a `!` in the URL |
| Maps.OnlyBareFormLeft | src/utils/maps.ts:140-195 | a string without `@`, `=`, `!` or the short-link marker resolves only through the bare form |
| Maps.CandidateNeedsPoint | src/utils/maps.ts:141-168 | a pattern yields a candidate only if the URL holds a decimal point |
| Maps.NoPointNoCoordinates | src/utils/maps.ts:133-197 | digits without a decimal point (`@48,2`, `48,2`) never resolve |
| Scan.ScanFrom | src/utils/maps.ts:141 | the greedy scan of `\d+\.\d+` ends within the text, after at least the characters its phase still needs, and never just before a digit |
| Scan.ScanDecimal | src/utils/maps.ts:141 | a scanned `-?\d+\.\d+` is at least three characters long and is followed by no digit |
| Scan.FractionRun | src/utils/maps.ts:141 | reading fraction digits stops exactly at the end of their run |
| Scan.WholeRun | src/utils/maps.ts:141 | reading whole digits stops at the end of their run and goes on only at a point |
| Scan.ScanDecimalByRuns | src/utils/maps.ts:141 | the character-by-character scanner equals the statement by digit runs |
| Scan.ScanDecimalSound | src/utils/maps.ts:141 | what the scanner reports matches `-?\d+\.\d+` |
| Scan.ScanDecimalComplete | src/utils/maps.ts:141 | every match of `-?\d+\.\d+` at a position is found, and the scanner's is the longest |
| Scan.MatchAt | src/utils/maps.ts:141-142 | a match found at a position starts there and ends within the text |
| Scan.MatchAtParts | src/utils/maps.ts:141-142 | a reported match is lead, decimal capture, separator, decimal capture, then no digit |
| Scan.MatchAtSound | src/utils/maps.ts:141-142 | a reported match is a match of the regular expression with greedy captures |
| Scan.MatchAtComplete | src/utils/maps.ts:141-142 | every match of the regular expression at a position is found, with the same first capture and a second capture at least as long |
| Scan.MatchAtIsRegexMatch | src/utils/maps.ts:156-168 | the scanner finds a match at a position if and only if the regular expression has one there |
| Scan.LeftmostAt | src/utils/maps.ts:173 | a match with no match to its left is what `url.match` reports |
| Scan.FirstMatch | src/utils/maps.ts:173 | the reported match is at or after the search start, and no match starts before it; nothing is reported only when no position matches |
| Scan.FirstMatchIsLeftmost | src/utils/maps.ts:173 | `url.match` reports the leftmost regular-expression match, and nothing exactly when there is none |
| Scan.WholeMatch | src/utils/maps.ts:188 | an anchored match spans the whole string and is its two captures joined by a comma |
| Scan.WholeMatchIsRegexMatch | src/utils/maps.ts:188 | the anchored scanner accepts exactly the strings `^-?\d+\.\d+,-?\d+\.\d+$` matches, with decimal captures |
| Scan.WholeMatchSound | src/utils/maps.ts:188 | an accepted string is two decimal texts joined by a comma |
| Scan.WholeMatchComplete | src/utils/maps.ts:188 | two decimal texts joined by a comma are accepted |
| Decimals.ParseFloatOfDecimal | src/utils/maps.ts:144-145 | `parseFloat` of a `-?\d+\.\d+` capture is never NaN: it is the text's exact value |
| Decimals.DecimalTextPlain | src/utils/maps.ts:189 | a decimal text holds no comma and is its own `trim()` |
| Decimals.ParseFloatSigned | src/utils/maps.ts:144-145 | a number text starting with `-` or a digit is read with its sign applied |
| StreetView.StreetViewImageUrl | src/utils/maps.ts:45-48 | no contract of its own; `StreetViewUrlShape` gives the request's shape and `StreetViewRoundTrip` what reading its query back gives |
| StreetView.StreetViewUrlShape | src/utils/maps.ts:45-48 | the request is the endpoint, `?`, and the query string of `size`, `location` and `key`, in that order |
| StreetView.StreetViewRoundTrip | src/utils/maps.ts:45-48 | reading the request's query gives size `400x200`, location `lat,lng` and the key, when none of them holds `&` |
| StreetView.SearchParamOfQuery | src/utils/maps.ts:47 | reading a query string back gives, for every name, the first value written under it |
| StreetView.ReadRender | src/utils/maps.ts:47 | reading a rendered `name=value` gives the parameter back |
| Strings.IndexOf | src/components/Table.tsx:143 | `Strings.IndexOf` gives the first position holding the value, or the length of `s` when there is none (JavaScript gives -1; at Table.tsx:143 the value is always present because of the test on line 142) |
| Strings.Split | src/utils/maps.ts:189 | `split` gives pieces without the separator that join back to the string; the first piece runs to the first separator |
| Strings.SplitJoin | src/utils/maps.ts:189 | splitting undoes joining when no piece holds the separator |
| Strings.TrimStart | src/utils/maps.ts:189 | `trimStart` drops exactly the leading white space |
| Strings.TrimEnd | src/utils/maps.ts:189 | `trimEnd` drops exactly the trailing white space |
| Strings.ToLower | src/components/Table.tsx:123 | `toLowerCase` keeps the length, leaves no upper-case ASCII letter, and changes no other character |
| Strings.ToLowerIdempotent | src/components/Table.tsx:123 | lower-casing a lower-cased header changes nothing |
| Strings.ToLowerIgnoresCase | src/components/Table.tsx:123 | headers that differ only in the case of their letters lower-case alike |
| JsNumbers.ParseFloat | src/components/Table.tsx:255-256 | no contract of its own; `Decimals.ParseFloatOfDecimal` and `Decimals.ParseFloatSigned` give the value of a number text (as at maps.ts lines 144-145, 175-176 and 189, and Table.tsx lines 208-209 and 268), `TableCells.ParseFloatNaN` and `TableCells.ParseFloatOfLetter` the texts that read as NaN |
| Sorting.Sort | src/components/Table.tsx:122 | the sorted copy is a permutation of the rows |
| Sorting.SortSorted | src/components/Table.tsx:122-137 | under a consistent comparator the copy is in order |
| Sorting.SortStable | src/components/Table.tsx:122 | the elements comparing equal to any value keep their input order |
| Sorting.SortedTiesUnique | src/components/Table.tsx:122 | a sorted sequence is determined by its groups of ties, so all stable sorts agree |
| Sorting.StableSortIsSort | src/components/Table.tsx:122 | any sorted permutation that keeps the input's ties in order is the model's result |
| Sorting.SortOfSorted | src/components/Table.tsx:122-136 | rows already in order come back unchanged |
| Table.Field | src/components/Table.tsx:180 | a field is present exactly when the row has the lower-cased header as a key, and is then that key's value (the same lookup as the sort's at line 123) |
| Table.FieldIgnoresCase | src/components/Table.tsx:180 | a header and its lower-cased form look up the same field, so lookup ignores the header's letter case |
| Table.MapsHeaderReadsMapsField | src/components/Table.tsx:180 | `Maps`, `MAPS` and `maps` all read the row's `maps` field, present exactly when the row has that key |
| Table.Click | src/components/Table.tsx:110-117 | after a click, the clicked column is the active column |
| Table.InitialView | src/components/Table.tsx:107-108 | no contract of its own; `Table.SortState.constructor` states the table starts in it: on `initialSortColumn`, none when that is empty, ascending |
| Table.SortState.constructor | src/components/Table.tsx:107-108 | the table starts on `initialSortColumn` (none when empty), ascending |
| Table.SortState.HandleSort | src/components/Table.tsx:110-117 | the active column flips direction; any other column becomes active, ascending |
| Table.ClickActiveTwice | src/components/Table.tsx:111-112 | clicking the active column flips its direction, and clicking it twice restores the state |
| Table.ClickOtherTwice | src/components/Table.tsx:113-116 | a new column sorts ascending, then descending on a second click |
| Table.SortedData | src/components/Table.tsx:119-138 | the result is a permutation of the rows, and the rows themselves when no column is active |
| Table.Compare | src/components/Table.tsx:122-137 | no contract of its own; `DescendingSwaps`, `DescendingNegates` and `UnlikeValuesTie` give each case, and `NumbersConsistent` and `TextsConsistent` when it is a consistent order |
| Table.Comparator | src/components/Table.tsx:121-137 | no contract of its own; the comparator handed to the sort, whose results `SortedData`, `NumberColumnSorted`, `TextColumnSorted` and `MissingColumnKeepsOrder` state |
| Table.DescendingSwaps | src/components/Table.tsx:126-134 | descending compares the two rows with the arguments swapped |
| Table.DescendingNegates | src/components/Table.tsx:126-134 | with an antisymmetric `localeCompare`, descending is exactly ascending negated |
| Table.UnlikeValuesTie | src/components/Table.tsx:136 | values of different kinds, or a missing field, compare as equal |
| Table.NumbersConsistent | src/components/Table.tsx:126-128 | on a column of numbers the comparator is a consistent order |
| Table.NumberColumnSorted | src/components/Table.tsx:122-128 | sorting by a number column orders rows by value in the chosen direction, and keeps equal rows in their order |
| Table.TextsConsistent | src/components/Table.tsx:130-134 | on a column of strings the comparator is consistent when `localeCompare` is |
| Table.TextColumnSorted | src/components/Table.tsx:122-134 | sorting by a string column orders rows by `localeCompare` in the chosen direction, and keeps equal rows in their order |
| Table.MissingColumnKeepsOrder | src/components/Table.tsx:123-136 | sorting by a column no row has (such as `Image`) keeps the rows in their order |
| Table.WithImageColumn | src/components/Table.tsx:141-151 | the rewrite adds one `Image` exactly when `Maps` is present and `Image` is not, and drops nothing |
| Table.ImageColumnPlacement | src/components/Table.tsx:142-148 | `Image` goes right after the first `Maps`, and every other header keeps its place |
| Table.HeadersKeptOtherwise | src/components/Table.tsx:150 | without `Maps`, or with `Image` already present, the headers are unchanged |
| Table.WithImageColumnIdempotent | src/components/Table.tsx:141-151 | rewriting twice is rewriting once |
| TableCells.IsMapsLink | src/components/Table.tsx:243 | no contract of its own; the same test as at line 202; `DecimalPairIsNoLink` and `LettersAreNoLink` give values that are no link, and `FromUrl` and `ImageCoordinates` that only a link reaches the resolver |
| TableCells.SplitPair | src/components/Table.tsx:251-262 | no contract of its own; it needs the comma both cells test for first (also lines 207-210); `PlainPairPieces` gives the two pieces' values on a plain pair and `SplitPairOfLetters` gives (NaN, NaN) for `a,b`: no trim and no range check |
| TableCells.FromUrl | src/components/Table.tsx:243-248 | coordinates from the resolver are in range |
| TableCells.ValidatedPair | src/components/Table.tsx:266-275 | the validated retry yields only in-range coordinates, and only for a value with a comma |
| TableCells.MapsCell | src/components/Table.tsx:237-297 | invalid location data exactly for a missing field or a number; every other outcome links to the value itself; a value the resolver settles is shown at the resolved coordinates; `MapsCellSplitUnchecked` and `MapsCellPreview` give the remaining outcomes |
| TableCells.MapsCellInvalid | src/components/Table.tsx:238 | the cell shows invalid location data exactly for a missing field or a number |
| TableCells.MapsCellPrefersUrl | src/components/Table.tsx:243-248 | a link the resolver settles is shown at the resolved, in-range coordinates |
| TableCells.MapsCellSplitUnchecked | src/components/Table.tsx:251-262 | a string with a comma that the resolver does not settle is shown at its unchecked split |
| TableCells.MapsCellPreview | src/components/Table.tsx:251-288 | the preview is unavailable exactly for comma-free strings the resolver does not settle; the retry never changes the outcome |
| TableCells.ParseFloatNaN | src/components/Table.tsx:255-256 | `parseFloat` of a text with no numeric start is NaN |
| TableCells.MapsCellAcceptsNaN | src/components/Table.tsx:251-262 | `a,b` is shown as a map at (NaN, NaN), which the validated retry would refuse |
| TableCells.MapsCellValidated | src/components/Table.tsx:236-297 | with the split validated, a map is shown only at in-range coordinates; the other outcomes are as before |
| TableCells.ValidatedAgreesOnLinks | src/components/Table.tsx:243-248 | both versions agree on every value the resolver settles |
| TableCells.ValidatedAgreesOnDecimalPairs | src/components/Table.tsx:251-275 | both versions agree on an in-range pair of decimals such as `48.8584,2.2945` |
| TableCells.ValidatedFallback | src/components/Table.tsx:264-288 | without a resolved link, the corrected cell shows what the validated split gives |
| TableCells.PlainPairPieces | src/components/Table.tsx:255-268 | the split and the validated retry read the two pieces of a plain pair alike |
| TableCells.DecimalPairIsNoLink | src/components/Table.tsx:243 | a pair of decimals names no maps host |
| TableCells.ImageCoordinates | src/components/Table.tsx:200-216 | coordinates only for a maps link or a value with a comma; on a link exactly the resolver's result, always in range; `ImageCellAcceptsNaN` shows the comma split goes unchecked |
| TableCells.ImageCell | src/components/Table.tsx:193-235 | an image is shown exactly for a non-empty `maps` string with coordinates and a non-empty key, at those coordinates |
| TableCells.ImageFromLinkIsValid | src/components/Table.tsx:202-204 | an image at resolved coordinates is at an in-range pair |
| TableCells.ImageCellAcceptsNaN | src/components/Table.tsx:205-210 | the image cell shows `a,b` at (NaN, NaN) when given a key |
| TableCells.ImageCellValidated | src/components/Table.tsx:193-235 | with the split validated, an image is shown only at in-range coordinates, under the same conditions otherwise |
| TableCells.ImageCellsAgreeOnLinks | src/components/Table.tsx:202-204 | both versions of the image cell agree on every maps link |
| TableCells.ImageCellValidatedRefusesLetters | src/components/Table.tsx:205-221 | the corrected image cell shows nothing for `a,b` |
| TableCells.Dispatch | src/components/Table.tsx:186-299 | a body cell is the status badge, the formatted date or the formatted price of the value exactly for the lower-cased headers `status`, `date` and `prix`, then the image or maps cell exactly for `image` and `maps`, and the raw value for any other header |
| TableCells.CellForAsWritten | src/components/Table.tsx:179-299 | the lower-cased header selects the image or maps cell as written, and the maps cell reads the row's field |
| TableCells.CellFor | src/components/Table.tsx:179-299 | the same dispatch with the corrected image and maps cells, whose comma split is validated |
| TableCells.CellForAgreesElsewhere | src/components/Table.tsx:186-192 | the corrected body and the body as written agree on every cell but the image and maps cells |
| TableCells.CellForAgreesOnLinks | src/components/Table.tsx:202-204 | both bodies agree on every cell when the `maps` field is a link the resolver settles |
| TableCells.CellForsDifferOnLetters | src/components/Table.tsx:251-262 | under a `Maps` header `a,b` shows a map at (NaN, NaN) as written, and an unavailable preview once corrected |
| TableCells.CellIgnoresHeaderCase | src/components/Table.tsx:180-236 | headers that differ only in letter case show the same cell, both in the body as written and in the corrected body |

## Left out

- `parseFloat` reads decimal text as an exact real. IEEE-754 rounding, overflow to infinity and loss of precision are not modelled.
- `toLowerCase` is modelled on ASCII letters only. Other letters are left as they are.
- `localeCompare` is a parameter `collate` of the sort, because locale data is not available to the model.
- Table.TextColumnSorted: sortedness is proved only when `collate` is a consistent order on the column's strings. The browser's collation is not checked for this.
- Table.DescendingNegates: needs `collate` to be antisymmetric, for the same reason.
- Table.NumberColumnSorted: a number cell holds a finite real. NaN and infinities in a number cell are not modelled.
- The JavaScript number-to-string conversion in the template literal of `getStreetViewImageUrl` is a parameter, `show`.
- StreetView.StreetViewRoundTrip: the source does not percent-encode the URL, so the round trip is proved only for values without `&`. It is a round trip against a literal query reader (`StreetView.SearchParam`), which, unlike `URLSearchParams`, decodes neither `+` nor `%XX` and does not stop at `#`.
- TableCells.CellFor: the table body of the model uses the corrected `maps` and `image` cells, so on an unsettled value with a comma that is not a valid pair (such as `a,b`) it differs from the source. `TableCells.CellForAsWritten` is the body as written, and `TableCells.CellForsDifferOnLetters` shows the difference.
- Strings are sequences of Unicode scalar values, not of UTF-16 code units: lone surrogates are not modelled, and a character outside the Basic Multilingual Plane is one element.
- `Array.prototype.sort` is modelled as one stable insertion sort. `Sorting.SortedTiesUnique` shows every stable sort gives the same result under a consistent comparator. Inconsistent comparators, where engines may differ, are left out.
- The optional `(?:,\d+\.?\d*z)?` group at the end of the place pattern is omitted, because it never changes the captures or whether a match exists.
- `getPlacePhotoUrl` (`src/utils/maps.ts:50-130`) and the `LocationImage` component are left out: they load a third-party script and call the network.
- Rendering is not modelled: the JSX markup, `MiniMap`, `MapLink`, `StatusBadge`, `formatDate` and `formatPrice`. The model keeps only which outcome a cell shows and at which coordinates.
- `console.log` and `console.error` calls are not modelled.
- The `try`/`catch` blocks are not modelled. Nothing inside them can throw on a string, so every path returns normally.
- Row values are a number or a string; any other JavaScript value is treated as absent. Keys that JavaScript objects inherit from their prototype are not modelled.
- The header-click arrow display (`Table.tsx:166-170`) is rendering and is not modelled.
- `src/components/VenueTable.tsx` and the other components are not part of this model.

## Findings

The table body (`TableCells.CellFor`) uses the corrected cells. The cells as written stay in the model, with the lemmas that show each discrepancy.

| source | as written | input that shows it | evidently intended | confidence | as-written member | corrected member |
|---|---|---|---|---|---|---|
| src/components/Table.tsx:251-262 | a value with a comma that the resolver does not settle is split and parsed without any check, so the validated retry at lines 264-279 can never run | the text `a,b` is shown as a map at (NaN, NaN) | only in-range coordinates reach the mini map, as the retry checks | not executed | TableCells.MapsCellAcceptsNaN | TableCells.MapsCellValidated |
| src/components/Table.tsx:205-216 | the image cell splits a non-link value with a comma and parses the pieces without any check; an object of two NaNs passes the `!coordinates` test | the text `a,b` with an API key gives a location image at (NaN, NaN) | only in-range coordinates are passed on for an image, as the maps cell's retry checks | not executed | TableCells.ImageCellAcceptsNaN | TableCells.ImageCellValidated |
