/** The inbox rows written when a source event fires, and how they are closed. */
module Inbox {
  /** The item types of one source module: its open requests, and the notices about decided ones. */
  datatype Kind = RequestItem | ApprovedNotice | RejectedNotice

  datatype ItemStatus = Unread | Read | Actioned | Dismissed

  datatype Item = Item(kind: Kind, source: nat, status: ItemStatus)

  predicate IsOpen(item: Item) {
    item.status == Unread || item.status == Read
  }

  /** The rows that the existence check and the closing update select. */
  predicate Points(item: Item, kind: Kind, source: nat) {
    IsOpen(item) && item.kind == kind && item.source == source
  }

  function OpenCount(items: seq<Item>, kind: Kind, source: nat): nat {
    if items == [] then 0
    else
      var last := |items| - 1;
      OpenCount(items[..last], kind, source) + if Points(items[last], kind, source) then 1 else 0
  }

  datatype Creation = Created | AlreadyOpen | SeveralOpen

  /** What the existence check answers; it raises when it finds several rows. */
  function Check(items: seq<Item>, kind: Kind, source: nat): Creation {
    var n := OpenCount(items, kind, source);
    if n == 0 then Created else if n == 1 then AlreadyOpen else SeveralOpen
  }

  function WithItem(items: seq<Item>, kind: Kind, source: nat): seq<Item> {
    if Check(items, kind, source) == Created then items + [Item(kind, source, Unread)] else items
  }

  function MarkedActioned(items: seq<Item>, kind: Kind, source: nat): seq<Item> {
    seq(|items|, k requires 0 <= k < |items| =>
      if Points(items[k], kind, source) then items[k].(status := Actioned) else items[k])
  }

  /** The inbox never shows two open rows for the same source record and type. */
  ghost predicate NoDuplicates(items: seq<Item>) {
    forall kind, source: nat :: OpenCount(items, kind, source) <= 1
  }

  lemma CountAppend(items: seq<Item>, item: Item, kind: Kind, source: nat)
    ensures OpenCount(items + [item], kind, source)
         == OpenCount(items, kind, source) + if Points(item, kind, source) then 1 else 0
  {
    assert (items + [item])[..|items|] == items;
  }

  lemma {:induction false} CountUpdate(items: seq<Item>, k: nat, item: Item, kind: Kind, source: nat)
    requires k < |items|
    ensures OpenCount(items[k := item], kind, source) + (if Points(items[k], kind, source) then 1 else 0)
         == OpenCount(items, kind, source) + if Points(item, kind, source) then 1 else 0
  {
    var last := |items| - 1;
    if k == last {
      assert items[k := item][..last] == items[..last];
    } else {
      assert items[k := item][..last] == items[..last][k := item];
      CountUpdate(items[..last], k, item, kind, source);
    }
  }

  /** Creating an item opens exactly one for its record, never a second, and touches no other record. */
  lemma CreateCounts(items: seq<Item>, kind: Kind, source: nat, k: Kind, s: nat)
    ensures OpenCount(WithItem(items, kind, source), k, s)
         == if k == kind && s == source && OpenCount(items, k, s) == 0 then 1 else OpenCount(items, k, s)
  {
    if Check(items, kind, source) == Created {
      CountAppend(items, Item(kind, source, Unread), k, s);
    }
  }

  /** Marking a record actioned leaves none of its items of that type open and every other item as it was. */
  lemma {:induction false} ActionedCounts(items: seq<Item>, kind: Kind, source: nat, k: Kind, s: nat)
    ensures OpenCount(MarkedActioned(items, kind, source), k, s)
         == if k == kind && s == source then 0 else OpenCount(items, k, s)
  {
    if items != [] {
      var last := |items| - 1;
      assert MarkedActioned(items, kind, source)[..last] == MarkedActioned(items[..last], kind, source);
      ActionedCounts(items[..last], kind, source, k, s);
    }
  }

  class InboxTable {
    var items: seq<Item>

    constructor ()
      ensures items == []
    {
      items := [];
    }

    /** create_inbox_item */
    method CreateInboxItem(kind: Kind, source: nat) returns (outcome: Creation)
      modifies this
      ensures outcome == Check(old(items), kind, source)
      ensures items == WithItem(old(items), kind, source)
    {
      outcome := Check(items, kind, source);
      if outcome == Created {
        items := items + [Item(kind, source, Unread)];
      }
    }

    /** mark_inbox_items_actioned */
    method MarkInboxItemsActioned(kind: Kind, source: nat)
      modifies this
      ensures items == MarkedActioned(old(items), kind, source)
    {
      for i := 0 to |items|
        invariant |items| == |old(items)|
        invariant forall k :: 0 <= k < i ==> items[k] == MarkedActioned(old(items), kind, source)[k]
        invariant forall k :: i <= k < |items| ==> items[k] == old(items)[k]
      {
        if Points(items[i], kind, source) {
          items := items[i := items[i].(status := Actioned)];
        }
      }
    }
  }
}
