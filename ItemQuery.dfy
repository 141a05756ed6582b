/** How the dialog resolves its candidate items from the configured query:
    which store lookup runs, with which query text, and how a missing or failed
    lookup turns into an empty candidate list. */
module ItemQuery {

  /** The literal prefix that selects the fast (whole-database) dialect. */
  const FastPrefix := "fast:"

  /** The lookup a query is sent to: `Database` is the database-wide fast
      lookup, `Axes` the lookup relative to the dialog's item. */
  datatype Route = Database(query: string) | Axes(query: string)

  /** What the chosen lookup produced: the items it selected, a null array, or
      an exception. */
  datatype Selection<T> = Selected(items: seq<T>) | NullResult | Failed

  /** A route is one the dialog can produce: an axis query never carries the
      fast prefix and is never empty. */
  predicate Routable(r: Route) {
    match r
    case Database(_) => true
    case Axes(q) => q != "" && !(FastPrefix <= q)
  }

  /** The configured query text a route was made from. */
  function QueryText(r: Route): (q: string)
    ensures |q| >= |r.query|
    ensures r.Database? ==> FastPrefix <= q
  {
    match r
    case Database(rest) => FastPrefix + rest
    case Axes(q) => q
  }

  /** The routing decision: a query that begins with the fast prefix goes to the
      database lookup with exactly that prefix removed; any other query goes
      unchanged to the axis lookup. */
  function RouteQuery(query: string): (r: Route)
    requires query != ""
    ensures r.Database? <==> FastPrefix <= query
    ensures QueryText(r) == query
    ensures Routable(r)
  {
    if FastPrefix <= query then Database(query[|FastPrefix|..]) else Axes(query)
  }

  /** No two queries are routed alike, and every routable route comes from the
      query it prints as. */
  lemma RouteRoundTrip(r: Route)
    requires Routable(r)
    ensures QueryText(r) != "" && RouteQuery(QueryText(r)) == r
  {
    if r.Database? {
      assert QueryText(r)[|FastPrefix|..] == r.query;
    }
  }

  /** The candidate items: the result of the lookup the query is routed to, with
      a null result or an exception both turned into no items. The lookup is the
      external store, given as `select` from a route to what it produced. */
  function ItemsToSort<T>(query: string, select: Route -> Selection<T>): (items: seq<T>)
    requires query != ""
    ensures select(RouteQuery(query)).Selected? ==> items == select(RouteQuery(query)).items
    ensures !select(RouteQuery(query)).Selected? ==> items == []
  {
    match select(RouteQuery(query))
    case Selected(found) => found
    case NullResult => []
    case Failed => []
  }

  /** A fast query is looked up in the database with the text after the prefix. */
  lemma FastQueryUsesDatabase<T>(query: string, select: Route -> Selection<T>)
    requires query != "" && FastPrefix <= query
    ensures ItemsToSort(query, select) ==
      (if select(Database(query[5..])).Selected? then select(Database(query[5..])).items else [])
  {
  }

  /** Any other query is looked up relative to the item, unchanged. */
  lemma OtherQueryUsesAxes<T>(query: string, select: Route -> Selection<T>)
    requires query != "" && !(FastPrefix <= query)
    ensures ItemsToSort(query, select) ==
      (if select(Axes(query)).Selected? then select(Axes(query)).items else [])
  {
  }
}
