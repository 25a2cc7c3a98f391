/**
 * The two list implementations side by side, driven by the same operations, with the tree
 * addressed by record where the array is addressed by id: started from the same items, the
 * same calls keep them holding the same items in the same order, and their queries answer
 * alike.
 */
module Conformance {
  import opened Errors
  import opened JsArray
  import opened Store
  import opened PlayerList
  import opened ArrayList
  import opened BstList

  /** Both lists are consistent and hold the same items in the same order. */
  ghost predicate Agree(a: PlayerArrayList, t: PlayerBSTList)
    reads a, t
  {
    a.Valid() && t.Valid() && a.items == t.Contents()
  }

  /** Only `item` carries its id in `s`. */
  ghost predicate OwnsId(s: seq<Player>, item: Player) {
    forall p :: p in s && p.id == item.id ==> p == item
  }

  /** When only `item` carries its id, looking the id up finds the position of `item`. */
  lemma LookupById(s: seq<Player>, item: Player)
    requires OwnsId(s, item)
    ensures FindIndex(s, HasId(item.id)) == IndexOf(s, item)
  {
    var i := FindIndex(s, HasId(item.id));
    if i >= 0 {
      assert s[i] in s;
    }
  }

  /** `size` answers alike. */
  method SizeBoth(a: PlayerArrayList, t: PlayerBSTList) returns (n1: nat, n2: int)
    requires Agree(a, t)
    ensures n1 == n2 == |a.items|
  {
    n1 := a.Size();
    n2 := t.Size();
  }

  /** Inserting an item neither list holds puts it at the same place in both. */
  method InsertBoth(a: PlayerArrayList, t: PlayerBSTList, item: Player)
    requires Agree(a, t) && item !in a.items
    modifies a, t
    ensures Agree(a, t)
    ensures a.items == InsertBy(item, old(a.items), Compare)
  {
    a.Insert(item);
    t.Insert(item);
  }

  /** Deleting by id from the array and by record from the tree removes the same item, or
      nothing from either when it is absent, as long as no other item carries its id. */
  method DeleteBoth(a: PlayerArrayList, t: PlayerBSTList, item: Player)
    requires Agree(a, t) && OwnsId(a.items, item)
    modifies a, t
    ensures Agree(a, t)
    ensures a.items ==
      if item in old(a.items) then RemoveAt(old(a.items), IndexOf(old(a.items), item)) else old(a.items)
  {
    LookupById(a.items, item);
    a.Delete(item.id);
    t.Delete(item);
  }

  /** `rankOf` of the array and the rank `find` reports for the tree agree, both one more than
      the number of items ranked before the item; the array answers 0 and the tree nothing
      when the item is absent. */
  method RankBoth(a: PlayerArrayList, t: PlayerBSTList, item: Player) returns (r1: int, r2: Option<RankedPlayer>)
    requires Agree(a, t) && OwnsId(a.items, item)
    ensures r2.None? <==> r1 == 0
    ensures r2.Some? ==> r2.value.rank == r1 == 1 + Ahead(a.items, item)
  {
    LookupById(a.items, item);
    r1 := a.RankOf(item.id);
    r2 := t.Find(item);
    if r2.Some? {
      InRankOrderIsStrictlySorted(a.items);
      IndexInRankOrder(a.items, r2.value.rank - 1);
    }
  }

  /** `getByRank` with a positive start returns the same records from both lists, in the same
      order: those ranked `from` to `to`. */
  method WindowBoth(a: PlayerArrayList, t: PlayerBSTList, from: int, to: int)
    returns (r1: seq<Player>, r2: seq<RankedPlayer>)
    requires Agree(a, t) && 1 <= from && 0 <= to
    ensures r1 == Records(r2) && r2 == RankWindow(a.items, from, to)
  {
    r1 := a.GetByRank(from, to);
    r2 := t.GetByRank(from, to);
  }
}
