/**
 * The local item list of the line-item table and `updateItem`'s patch of it: in demo
 * mode, and after the store accepted an update, `prev.map(r => r.id === id ? { ...r, ...patch } : r)`.
 */
module Items {
  import opened Wrappers
  import opened Upload

  /** A line item on the page: one emitted draft together with its identifier. */
  datatype Item = Item(id: string, line: Draft)

  /**
   * The fields the table's editors send: `{ category }`, `{ assignee_name }` or
   * `{ status }`; a field that is `None` is absent from the patch.
   */
  datatype Patch = Patch(category: Option<string>, assigneeName: Option<string>, status: Option<Status>)

  /** `{ ...r, ...patch }`: every field the patch holds overrides the item's own. */
  function ApplyPatch(item: Item, patch: Patch): (r: Item)
    ensures r.id == item.id
    ensures r.line.category == patch.category.GetOr(item.line.category)
    ensures r.line.assigneeName == patch.assigneeName.GetOr(item.line.assigneeName)
    ensures r.line.status == patch.status.GetOr(item.line.status)
    ensures r.line == item.line.(category := r.line.category, assigneeName := r.line.assigneeName, status := r.line.status)
  {
    var line := item.line;
    Item(item.id, line.(
      category := patch.category.GetOr(line.category),
      assigneeName := patch.assigneeName.GetOr(line.assigneeName),
      status := patch.status.GetOr(line.status)))
  }

  /**
   * `updateItem(id, patch)` on the local list: same length and order, every item keeps
   * its identifier, the items with identifier `id` are patched and all others are left
   * as they were.
   */
  function UpdateItems(items: seq<Item>, id: string, patch: Patch): (r: seq<Item>)
    ensures |r| == |items|
    ensures forall k :: 0 <= k < |items| ==> r[k].id == items[k].id
    ensures forall k :: 0 <= k < |items| && items[k].id != id ==> r[k] == items[k]
    ensures forall k :: 0 <= k < |items| && items[k].id == id ==> r[k] == ApplyPatch(items[k], patch)
    decreases |items|
  {
    if |items| == 0 then []
    else
      [if items[0].id == id then ApplyPatch(items[0], patch) else items[0]]
        + UpdateItems(items[1..], id, patch)
  }

  /** Sending the same patch twice changes nothing the first one did not. */
  lemma UpdateItemsIdempotent(items: seq<Item>, id: string, patch: Patch)
    ensures UpdateItems(UpdateItems(items, id, patch), id, patch) == UpdateItems(items, id, patch)
  {
    var once := UpdateItems(items, id, patch);
    var twice := UpdateItems(once, id, patch);
    forall k | 0 <= k < |items| ensures twice[k] == once[k] {
      if items[k].id == id {
        assert ApplyPatch(ApplyPatch(items[k], patch), patch) == ApplyPatch(items[k], patch);
      }
    }
  }

  /** Patches of two different items can be applied in either order. */
  lemma UpdateItemsCommute(items: seq<Item>, id1: string, p1: Patch, id2: string, p2: Patch)
    requires id1 != id2
    ensures UpdateItems(UpdateItems(items, id1, p1), id2, p2) == UpdateItems(UpdateItems(items, id2, p2), id1, p1)
  {
    var a := UpdateItems(UpdateItems(items, id1, p1), id2, p2);
    var b := UpdateItems(UpdateItems(items, id2, p2), id1, p1);
    forall k | 0 <= k < |items| ensures a[k] == b[k] {
    }
  }

  /** A patch holding no field leaves the list as it was. */
  lemma UpdateItemsEmptyPatch(items: seq<Item>, id: string)
    ensures UpdateItems(items, id, Patch(None, None, None)) == items
  {
    var r := UpdateItems(items, id, Patch(None, None, None));
    forall k | 0 <= k < |items| ensures r[k] == items[k] {
    }
  }
}
