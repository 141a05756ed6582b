/** The sort dialog's OK handler and the loop that writes the new sort orders
    into the candidate items in place. */
module SortForm {
  import opened Items
  import opened SortOrder
  import opened ItemQuery

  /** The sort orders `current` of the items `items` are those that the sort
      orders `after` of the value-level model stand for: only the first item
      carrying an identifier is ever written, so an item that is the same object
      as that first item holds its value in `after`, and any other item keeps its
      value from `before`. */
  ghost predicate Reflects(items: seq<Item>, current: seq<int>, before: seq<int>, after: seq<int>)
    requires |current| == |before| == |after| == |items|
  {
    var ids := Ids(items);
    forall j :: 0 <= j < |items| ==>
      current[j] == (if items[j] == items[Owner(ids, j)] then after[Owner(ids, j)] else before[j])
  }

  /** The items of `items` hold the sort orders that applying `order` to the
      sort orders `before` yields. */
  ghost predicate Applied(items: seq<Item>, before: seq<int>, order: seq<ID>, base: int)
    requires |before| == |items|
    reads items
  {
    Reflects(items, Orders(items), before, SortOrders(Ids(items), before, order, base))
  }

  /** Before any request is handled the stored sort orders are the model's:
      sort orders read from the items agree wherever two positions hold the same
      object. */
  lemma ReflectsInitially(items: seq<Item>, current: seq<int>)
    requires |current| == |items|
    requires forall i, j :: 0 <= i < |items| && 0 <= j < |items| && items[i] == items[j] ==> current[i] == current[j]
    ensures Reflects(items, current, current, current)
  {
  }

  /** Handling one more request keeps the stored sort orders in step with the
      model: when the first item carrying the request's identifier is at `k`,
      writing `v` into that object yields the model's sort orders for the longer
      request; when no item carries it, nothing is written and the model's sort
      orders do not change either. */
  lemma {:induction false} RequestKeepsReflects(items: seq<Item>, current: seq<int>, written: seq<int>,
                                                before: seq<int>, order: seq<ID>, x: ID, base: int)
    requires |current| == |written| == |before| == |items|
    requires Reflects(items, current, before, SortOrders(Ids(items), before, order, base))
    requires Find(Ids(items), x).None? ==> written == current
    requires Find(Ids(items), x).Some? ==> forall j :: 0 <= j < |items| ==>
      written[j] == if items[j] == items[Find(Ids(items), x).value]
                    then base + Step * |Matches(Ids(items), order)| else current[j]
    ensures Reflects(items, written, before, SortOrders(Ids(items), before, order + [x], base))
  {
    var ids := Ids(items);
    var after := SortOrders(ids, before, order, base);
    SortOrdersSnoc(ids, before, order, x, base);
    if Find(ids, x).Some? {
      var k := Find(ids, x).value;
      var v := base + Step * |Matches(ids, order)|;
      forall j | 0 <= j < |items|
        ensures written[j] == (if items[j] == items[Owner(ids, j)] then after[k := v][Owner(ids, j)] else before[j])
      {
        if items[j] == items[k] {
          assert ids[j] == ids[k];
          assert Owner(ids, j) == k;
        }
      }
    }
  }

  /** The dialog value the handler reports: "1" once a reordering was applied,
      nothing when the editor submitted no order. */
  function DialogValue(order: seq<ID>): (v: Option<string>)
    ensures v.Some? <==> order != []
    ensures v.Some? ==> v.value == "1"
  {
    if order == [] then None else Some("1")
  }

  /** Applies the editor's order to the candidate items: walks the requested
      identifiers in order, gives the first candidate carrying each one the
      current counter and advances the counter by Step, skipping identifiers no
      candidate carries. Only the sort orders of the candidates change. */
  method Sort(order: seq<ID>, itemsToSort: seq<Item>, base: int)
    modifies itemsToSort
    ensures Applied(itemsToSort, old(Orders(itemsToSort)), order, base)
  {
    ghost var before := Orders(itemsToSort);
    var ids := Ids(itemsToSort);
    var num := base;
    ReflectsInitially(itemsToSort, before);
    assert order[..0] == [];
    for n := 0 to |order|
      invariant num == base + Step * |Matches(ids, order[..n])|
      invariant Applied(itemsToSort, before, order[..n], base)
    {
      var idToFind := order[n];
      TakeOneMore(order, n);
      MatchesSnoc(ids, order[..n], idToFind);
      ghost var current := Orders(itemsToSort);
      var found := Find(ids, idToFind);
      if found.Some? {
        var item := itemsToSort[found.value];
        item.sortorder := num;
        num := num + Step;
      }
      RequestKeepsReflects(itemsToSort, current, Orders(itemsToSort), before, order[..n], idToFind, base);
    }
    assert order[..|order|] == order;
  }

  /** The OK handler. An empty order takes only the base dialog's OK path and
      changes nothing. Otherwise the candidates are resolved from the query, the
      order is applied to them and the dialog value "1" is reported. `base` is
      the configured default sort order. */
  method OnOK(order: seq<ID>, query: string, select: Route -> Selection<Item>, base: int)
    returns (dialogValue: Option<string>)
    requires order != [] ==> query != ""
    modifies if order == [] then [] else ItemsToSort(query, select)
    ensures dialogValue == DialogValue(order)
    ensures order != [] ==>
      Applied(ItemsToSort(query, select), old(Orders(ItemsToSort(query, select))), order, base)
  {
    if order == [] {
      dialogValue := None;
    } else {
      var itemsToSort := ItemsToSort(query, select);
      Sort(order, itemsToSort, base);
      dialogValue := Some("1");
    }
  }
}
