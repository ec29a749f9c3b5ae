# Events page filters and request URL

A model of the filter-to-request path of a small events-map front end:

- the category table and the category toggle of the filter form
  (`src/components/Filters.jsx`), in module `Filters`;
- the page's query-string memo, the events request URL and the six event
  cards shown under the map (`src/App.jsx`), in module `App`;
- generic sequence facts (duplicate-freedom, order-preserving
  subsequences) in module `Sequences`.

The toggle is a pure list function. A selected key is removed, every copy of
it. An unselected key is appended at the end. The proofs show:

- toggling keeps the selection duplicate-free;
- toggling twice restores the selection, exactly or up to the toggled key
  moving to the end;
- any sequence of button clicks leaves a duplicate-free subset of the eight
  category keys.

The query string is built by a method, `App.QueryString`, shaped like the
source's memo. It starts from an empty parameter list and, for each filter
field that is set, performs a URLSearchParams `set`. That `set` follows
section 6.2 of the WHATWG URL Standard: replace the first pair with the name,
drop later ones, or append when there is none. At the end it serializes the
list. The method is proved to return `Serialize(QueryParams(f, toIso), encode)`:
the serialization of the parameter list given by the specification function
`App.QueryParams`. The properties about that function are lemmas:

- parameter order and uniqueness;
- what a lookup of each name returns;
- the bare URL exactly when no filter is set;
- the query reads back into the encoded pairs;
- the types value splits back into the selection.

Two library calls are parameters rather than definitions:

- `toIso` stands for `new Date(x).toISOString()`;
- `encode` stands for the byte percent-encoder of the
  application/x-www-form-urlencoded serializer (section 5.2 of the WHATWG URL
  Standard).

The only property assumed of `encode` is that its output never holds `&` or
`=`, and only `App.SerializeDecompose` assumes it.

Because the serializer percent-encodes, a start date of `2024-01-01`
travels as `start=2024-01-01T00%3A00%3A00.000Z` and two categories as
`types=worship%2Cyouth`. The unescaped form `start=2024-01-01T00:00:00.000Z`
never appears in the request, so every name and value goes through `encode`.

## Model

| member | source | states |
|---|---|---|
| Filters.EventTypeKeysDistinct | src/components/Filters.jsx:3-12 | the category table has eight entries whose keys are pairwise distinct, as the key of each toggle button requires |
| Filters.Keys | src/components/Filters.jsx:3-12 | the keys of the category table (`EventTypeKeys`, the values the buttons pass to the toggle), one per entry and in table order |
| Filters.RemoveAll | src/components/Filters.jsx:26 | the filter drops `key` entirely, keeps every other key, keeps the rest in their original order (a subsequence), and keeps each other key's count |
| Filters.RemoveAllUnique | src/components/Filters.jsx:26 | the removal is determined by those properties: any subsequence with the other keys' counts and no `key` equals `RemoveAll` |
| Filters.RemoveAllAppend | src/components/Filters.jsx:26 | removal distributes over concatenation |
| Filters.RemoveAllAbsent | src/components/Filters.jsx:26 | removing an absent key leaves the list unchanged |
| Filters.Toggle | src/components/Filters.jsx:24-28 | after a toggle `key` is selected iff it was not before, other keys keep their membership, an unselected key is appended at the end with the old list as prefix, and a selected one is removed with the rest in order |
| Filters.ToggleKeepsNoDuplicates | src/components/Filters.jsx:24-28 | a duplicate-free selection stays duplicate-free after a toggle |
| Filters.ToggleTwiceAbsent | src/components/Filters.jsx:24-28 | toggling an unselected key twice restores the selection exactly |
| Filters.ToggleTwicePresent | src/components/Filters.jsx:24-28 | toggling a selected key twice yields the selection without it plus the key at the end: same membership, and for a duplicate-free selection the same multiset |
| Filters.ApplyClicks | src/components/Filters.jsx:17-28 | the selection after a sequence of clicks, folded through the toggle from the empty initial selection; it only ever holds clicked keys |
| Filters.ClicksStayWithinEventTypes | src/components/Filters.jsx:17-28 | from the empty initial selection, any clicks on category buttons leave a duplicate-free subset of the category keys, at most eight long |
| App.Join | src/App.jsx:15 | `Array.prototype.join` with a one-character separator: the empty list joins to "", and a non-empty one starts with its first element (its inverse is `App.Split`; `App.SplitJoin` and `App.JoinSplit` are the round trips) |
| App.SplitJoin | src/App.jsx:15 | a non-empty list of keys without the separator joins with ',' and splits back into the same list |
| App.JoinSplit | src/App.jsx:15 | splitting a string at a separator and joining the parts again gives the string back |
| App.WithoutAbsent | src/App.jsx:12-16 | removing a parameter name that is absent changes nothing |
| App.SetParam | src/App.jsx:13-16 | `URLSearchParams.set`: the result holds the new pair and no pair that was neither there before nor the new one |
| App.SetParamSpec | src/App.jsx:13-16 | after `set` the name has exactly one pair, carrying the new value, and the pairs with other names are unchanged and in the same order |
| App.SetParamInPlace | src/App.jsx:13-16 | when the name is already present, the new pair takes the slot of the first pair with that name: the pairs before it are untouched, and the later pairs lose only those with that name |
| App.SetParamFresh | src/App.jsx:13-16 | setting a name that no pair carries appends one pair at the end |
| App.LookupAppend | src/App.jsx:12-16 | a lookup in a concatenation answers from the first part when it has the name, else from the second |
| App.WithoutAppend | src/App.jsx:12-16 | removing a name distributes over concatenation |
| App.NamesAppend | src/App.jsx:12-16 | the names of a concatenation are the concatenated names |
| App.QueryParams | src/App.jsx:11-16 | the parameters of filter record `f`: start, end, types, q, each only when its field is set, so at most four |
| App.QueryNames | src/App.jsx:13-16 | the parameter names are start, end, types and q, each present exactly when its field is set |
| App.NamesInOrder | src/App.jsx:13-16 | whichever of the four names are present, they keep the fixed order and none repeats |
| App.QueryParamsOrder | src/App.jsx:11-18 | every name in the query appears at most once, and the names follow the order start, end, types, q |
| App.QueryParamsEmpty | src/App.jsx:11-18 | the parameter list is empty exactly when start, end, types and q are all unset |
| App.QueryLookup | src/App.jsx:13-16 | looking up any name gives: the ISO start or end date when that date is set; the comma-joined keys when types is non-empty; the text when q is non-empty; nothing otherwise, and nothing for other names |
| App.QueryDates | src/App.jsx:13-14 | start and end are present exactly when the date field is non-empty, each carrying the date converted by `toIso` |
| App.QueryTypes | src/App.jsx:15 | types is present exactly when the selection is non-empty, carrying the keys joined by ',' in selection order |
| App.QuerySearchText | src/App.jsx:16 | q is present exactly when the search text is non-empty, carrying the text unchanged |
| App.Serialize | src/App.jsx:17 | the serialized query is empty exactly when there are no parameters |
| App.SerializeDecompose | src/App.jsx:17 | if the encoder never emits '&' or '=', the query splits back into exactly the encoded name/value pairs, in order |
| App.SetWhen | src/App.jsx:13-16 | one `if (field) params.set(...)` step on a list without that name: the pair is appended exactly when the field is set |
| App.QueryString | src/App.jsx:11-18 | the memo's step-by-step `set` calls produce the serialization of the parameter list `QueryParams`, and the query is empty exactly when no filter field is set |
| App.BaseUrl | src/App.jsx:23 | a configured non-empty backend URL is used; a missing or empty one falls back to http://localhost:8000 |
| App.RequestUrl | src/App.jsx:24 | the URL template: it is exactly the base and `/api/events` when the query is empty, and otherwise that path followed by '?' and exactly the query |
| App.RequestUrlSplits | src/App.jsx:24 | for a base without '?', the URL splits at its first '?' into the endpoint path and exactly the query, and it contains '?' iff the query is non-empty |
| App.EventsUrl | src/App.jsx:23-24 | the page's request URL for a filter record: exactly the base URL and `/api/events` when the serialized query is empty, and otherwise that path followed by '?' and exactly the serialized query |
| App.EventsUrlBareIffUnfiltered | src/App.jsx:23-24 | the request goes to the bare `/api/events` endpoint exactly when no filter field is set |
| App.InitialRequest | src/App.jsx:7-24 | with the initial filter record (`InitialFilters`: every field empty) and no configured backend, the query is empty and the request URL is http://localhost:8000/api/events |
| App.QueryExample | src/App.jsx:13-16 | a start date with one category and nothing else gives exactly the pairs start (ISO date) and types, in that order |
| App.TypesParamFromClicks | src/App.jsx:15 | a selection built by button clicks travels as a types value that splits at ',' back into that selection: distinct category keys, at most eight |
| App.KeysHaveNoComma | src/components/Filters.jsx:3-12 | no category key contains ',', so a comma-joined selection can be split unambiguously |
| App.Cards | src/App.jsx:59 | the cards are the first min(n, 6) events, in order |

## Left out

- MapView (the longitude/latitude projection and canvas drawing) and Hero are not part of this model: they are rendering, and the projection is floating point.
- The asynchronous `fetchEvents` flow is not modelled: the fetch, the JSON decode, `data.items || []`, the error fallback to an empty list, the loading flag, and responses arriving out of order. These are I/O and concurrency.
- React wiring is not modelled. The state hooks, the `onChange` effect that reports the form state and the re-fetch on a changed query string are treated as plain values: the model takes the filter record the form reports.
- `new Date(x).toISOString()` and the percent-encoder are parameters (`toIso`, `encode`), not definitions. An invalid date string, for which the conversion throws, is not modelled: the date inputs yield either "" or a valid date.
- `import.meta.env.VITE_BACKEND_URL` is a parameter of `App.BaseUrl`: absent is `None`, set is `Some`.
- App.QueryString: `filters.types?.length` also accepts a missing `types`. The model's filter record always holds a list, because the form always reports one.
- App.Cards: only the slice is modelled; the card markup and the date formatting with `toLocaleDateString` are rendering.
- App.RequestUrlSplits: stated only for a base URL without '?'. A configured base URL holding a query of its own would change where the query starts.
- App.QuerySearchText: "unchanged" covers well-formed text only. Strings here are sequences of Unicode scalar values, not UTF-16 code units, and `URLSearchParams` replaces lone surrogates in names and values with U+FFFD; the model cannot represent such text.
