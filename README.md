# Sort dialog: sort-order assignment and candidate query

A Dafny model of the customised "Sort" dialog in
`src/Sitecore.Support.313754/SortForm.cs`. It covers the two pieces of logic that
file contains:

- **The OK handler and the sort-order applier** (`OnOK`, `Sort`). The editor
  submits an ordered list of item identifiers. If the list is empty, only the base
  dialog's OK path runs. Otherwise the candidate items are resolved from the
  dialog's query. For each requested identifier in turn, the first candidate that
  carries it gets the current counter as its sort order. The counter starts at the
  configured default sort order (`base`) and goes up by 100 after every write.
  Identifiers that no candidate carries are skipped and do not move the counter.
  Finally the dialog value "1" is reported.
- **The candidate query** (`GetItemsToSort`). A query that starts with `fast:`
  goes to the database-wide lookup with those five characters removed. Any other
  query goes unchanged to the lookup relative to the dialog's item. If the lookup
  returns null or throws, the result is no candidates.

Layout:

- `Items.dfy`, module `Items`: the item identifier, the `Item` class, and the
  identifier search that `Array.Find` performs. An `Item` has a constant `id` and
  a mutable `sortorder`.
- `SortOrder.dfy`, module `SortOrder`: the effect of a request on sort orders,
  stated on values (`SortOrders`), and the properties proved about it.
- `SortForm.dfy`, module `SortForm`: the imperative `Sort` loop and `OnOK`.
  `Sort` writes into the item objects in place and is proved against
  `SortOrders`.
- `ItemQuery.dfy`, module `ItemQuery`: query routing and the null/exception
  handling of the lookup result.

The candidate array is never changed itself; only the items it points to are
written. It is therefore a `seq<Item>` of references, and `Sort` has
`modifies itemsToSort`. `sortorder` is the only mutable field of `Item`, so that
frame also says no other field changes. The same object may appear at two
positions of the candidate list. The model accounts for this: only the object at
the position `Array.Find` returns is written, and every position that holds that
object sees the new value (`SortForm.Reflects`).

Two behaviours of the code are easy to misread:

- An empty query fails the argument assertion in `GetItemsToSort`. That
  assertion sits before the `try` block, so the exception is not turned into an
  empty result. The model therefore states a non-empty query as a precondition.
  It does not map that case to "no candidates".
- Sort orders only strictly increase in request order when no matched
  identifier is requested twice (identifiers no candidate carries may repeat). With a repeated identifier, its candidate keeps the value of the
  last occurrence, and the counter advances on every occurrence.

## Model

| member | source | states |
|---|---|---|
| `Items.Find` | src/Sitecore.Support.313754/SortForm.cs:60 | Returns the first position whose identifier equals the requested one: no earlier position holds it. Returns None exactly when no candidate carries the identifier. |
| `Items.Owner` | src/Sitecore.Support.313754/SortForm.cs:60-61 | For the candidate at `j`, returns the position the search returns for its identifier: the first position with that identifier, at or before `j`. |
| `SortOrder.Matches` | src/Sitecore.Support.313754/SortForm.cs:57-71 | Returns the requests that lead to a write. An identifier is in it exactly when it is requested and some candidate carries it. It is never longer than the request. |
| `SortOrder.SortOrders` | src/Sitecore.Support.313754/SortForm.cs:55-72 | Applying a request gives one sort order per candidate, the same number as before. |
| `SortOrder.SortOrdersAt` | src/Sitecore.Support.313754/SortForm.cs:55-72 | Final sort order of every candidate. A candidate is written exactly when its identifier is requested and it is the first candidate with that identifier. A written candidate gets `base + 100 * m`, where m counts the matching requests before the LAST request for its identifier. Every other candidate keeps its old sort order. |
| `SortOrder.UntouchedKeepOrder` | src/Sitecore.Support.313754/SortForm.cs:57-72 | A candidate keeps its sort order if its identifier is not requested, or if an earlier candidate has the same identifier (the search never returns it). |
| `SortOrder.OnlyMatchesMatter` | src/Sitecore.Support.313754/SortForm.cs:60-71 | Removing every unmatched identifier from the request changes no sort order. |
| `SortOrder.SkipUnmatched` | src/Sitecore.Support.313754/SortForm.cs:60-71 | An identifier that no candidate carries, anywhere in the request, is skipped and does not move the counter. The result equals that of the request without it. |
| `SortOrder.KthMatchGetsBasePlusStepK` | src/Sitecore.Support.313754/SortForm.cs:55-70 | When no matched identifier is requested twice, the candidate of the k-th matching request (counting from 0, matches only) gets `base + 100 * k`. |
| `SortOrder.IncreasingInRequestOrder` | src/Sitecore.Support.313754/SortForm.cs:55-70 | When no matched identifier is requested twice, the sort orders of matched candidates strictly increase in request order. Consecutive matched candidates are exactly 100 apart. |
| `SortOrder.RepeatedRequestLastWins` | src/Sitecore.Support.313754/SortForm.cs:57-70 | An identifier requested twice in a row is written both times and advances the counter both times. Its candidate ends with `base + 100 * (m + 1)`, where m is the number of matching requests before the pair. |
| `SortOrder.Idempotent` | src/Sitecore.Support.313754/SortForm.cs:51-73 | Applying the same request to the result of applying it gives the same sort orders again. |
| `SortOrder.ExampleCThenA` | src/Sitecore.Support.313754/SortForm.cs:55-71 | Candidates A, B, C with request [C, A]: C gets `base`, A gets `base + 100`, and B keeps its sort order. |
| `SortOrder.MatchesAppend` | src/Sitecore.Support.313754/SortForm.cs:57-71 | The matching requests of a concatenated request are those of each part, in order. |
| `SortOrder.MatchesDistinct` | src/Sitecore.Support.313754/SortForm.cs:57-71 | If no identifier is requested twice, no identifier appears twice among the matching requests. |
| `SortForm.RequestKeepsReflects` | src/Sitecore.Support.313754/SortForm.cs:57-71 | One iteration of the loop keeps the stored sort orders equal to the model's. A matched request writes the counter into the object of the first candidate with that identifier. An unmatched request writes nothing. |
| `SortForm.Sort` | src/Sitecore.Support.313754/SortForm.cs:51-73 | After the loop, the candidates' sort orders are the ones `SortOrders` gives for the request and `base`, with aliased objects accounted for. Only the candidates' sort orders may change. |
| `SortForm.DialogValue` | src/Sitecore.Support.313754/SortForm.cs:34-44 | The dialog value "1" is reported exactly when the request is non-empty. |
| `SortForm.OnOK` | src/Sitecore.Support.313754/SortForm.cs:29-45 | An empty request changes nothing and reports no dialog value. A non-empty request resolves the candidates from the query and applies the request to them (as `Sort` states), then reports "1". |
| `ItemQuery.RouteQuery` | src/Sitecore.Support.313754/SortForm.cs:84-93 | A non-empty query goes to the database lookup exactly when it starts with `fast:`. Printing the route back gives the original query, so the database lookup receives the query minus exactly those five characters and the axis lookup receives the query unchanged. |
| `ItemQuery.RouteRoundTrip` | src/Sitecore.Support.313754/SortForm.cs:89-93 | Every route the dialog can produce comes back unchanged when its printed query is routed again. |
| `ItemQuery.ItemsToSort` | src/Sitecore.Support.313754/SortForm.cs:81-102 | The candidates are exactly the items the routed lookup returns. A null result or a thrown exception gives no candidates. No failure escapes. |
| `ItemQuery.FastQueryUsesDatabase` | src/Sitecore.Support.313754/SortForm.cs:89-91 | A `fast:` query's candidates come from the database lookup of the query from its sixth character on. |
| `ItemQuery.OtherQueryUsesAxes` | src/Sitecore.Support.313754/SortForm.cs:93 | Any other query's candidates come from the axis lookup of the unchanged query. |

## Left out

- Scoped platform state is not modelled: the security disabler, the edit context and the language switcher (SortForm.cs:63-65, 87). They govern permissions, change notifications and language context inside the platform. The write at line 67 is a plain field assignment here.
- Form and response plumbing is not modelled: reading the `sortorder` form field, splitting it into a list, decoding short IDs, and the base dialog's `OnOK` (SortForm.cs:33, 36, 40-43). `OnOK` takes the decoded identifier list. The dialog value is its result.
- The sort options and the default sort order setting (SortForm.cs:54-55) come from configuration and the URL. The query and `base` are parameters.
- Database lookups (SortForm.cs:91, 93) belong to the external store. They are the parameter `select`, which maps a route to what the lookup produced. The model fixes which lookup is called and with what text, not what it returns.
- Logging a failed query (SortForm.cs:99) is a side channel and is not modelled.
- SortForm.Sort: does not model 32-bit wrap-around of the counter or of the stored sort order. Integers are unbounded, so the stated values hold only while `base + 100 * n` stays within `int` range for n matching requests.
- ItemQuery.RouteQuery: the prefix test is an ordinal comparison of characters. .NET's `StartsWith(string)` compares using the current culture, and culture-specific matching (for example of ignorable characters) is not modelled.
- ItemQuery.ItemsToSort: an empty query is excluded by its precondition, matching the argument assertion at SortForm.cs:84. The exception that assertion throws, which escapes `OnOK`, is not modelled.
- Null-argument assertions (SortForm.cs:31-32, 53, 83) are covered by Dafny's non-null reference types.
- Write failures in the store propagate in the source and are not modelled.
- Rendering the list of items is done by the base dialog class; that class is not part of this model.
