/** Content items as the sort dialog sees them: an identifier that never changes
    and a sort order that the dialog writes in place. */
module Items {

  datatype Option<+T> = None | Some(value: T)

  /** An item identifier (a GUID); two identifiers are equal when their GUIDs are. */
  datatype ID = ID(guid: bv128)

  /** An item of the content tree. Only the part the dialog reads or writes is kept:
      its identifier and the sort order of its appearance section. */
  class Item {
    const id: ID
    var sortorder: int

    constructor (id: ID, sortorder: int)
      ensures this.id == id && this.sortorder == sortorder
    {
      this.id := id;
      this.sortorder := sortorder;
    }
  }

  /** The identifiers of a candidate list, position by position. */
  function Ids(items: seq<Item>): (ids: seq<ID>)
    ensures |ids| == |items|
    ensures forall i :: 0 <= i < |items| ==> ids[i] == items[i].id
  {
    seq(|items|, i requires 0 <= i < |items| => items[i].id)
  }

  /** The current sort orders of a candidate list, position by position. */
  function Orders(items: seq<Item>): (orders: seq<int>)
    reads items
    ensures |orders| == |items|
    ensures forall i :: 0 <= i < |items| ==> orders[i] == items[i].sortorder
  {
    seq(|items|, i requires 0 <= i < |items| reads items => items[i].sortorder)
  }

  /** The search `Array.Find(items, i => i.ID == id)` performs, given as the index
      of the element it returns: the first position holding `id`, or None when no
      position does (Find then returns null). */
  function Find(ids: seq<ID>, id: ID): (r: Option<nat>)
    ensures r.Some? ==> r.value < |ids| && ids[r.value] == id
    ensures r.Some? ==> forall i :: 0 <= i < r.value ==> ids[i] != id
    ensures r.None? <==> id !in ids
  {
    if ids == [] then None
    else if ids[0] == id then Some(0)
    else
      match Find(ids[1..], id)
      case None => None
      case Some(k) => Some(k + 1)
  }

  /** The position Find returns for the identifier held at position `j`:
      the first position holding the same identifier. */
  function Owner(ids: seq<ID>, j: nat): (k: nat)
    requires j < |ids|
    ensures k <= j && ids[k] == ids[j]
    ensures forall i :: 0 <= i < k ==> ids[i] != ids[j]
    ensures Find(ids, ids[j]) == Some(k)
  {
    var r := Find(ids, ids[j]);
    assert r.Some?;
    r.value
  }
}
