/**
 * `PlayerArrayList`: the naive list, one array kept sorted by `PlayerList.compare` by pushing
 * or splicing and then re-sorting the whole array.
 */
module ArrayList {
  import opened Store
  import opened JsArray
  import opened PlayerList

  class PlayerArrayList {
    /** The private `array`, rank k at position k-1. */
    var items: seq<Player>

    /** Every public method leaves the array sorted by `compare`. */
    ghost predicate Valid()
      reads this
    {
      SortedBy(items, Compare)
    }

    constructor()
      ensures Valid() && items == []
    {
      items := [];
    }

    /** `size`: the number of items held. */
    method Size() returns (n: nat)
      ensures n == |items|
    {
      n := |items|;
    }

    /** `getByRank(from, to)`: `array.slice(from - 1, to)`, which for positive arguments is the
        list contract's window of ranks `[from, to]`. */
    method GetByRank(from: int, to: int) returns (r: seq<Player>)
      ensures r == Slice(items, from - 1, to)
      ensures 1 <= from && 0 <= to ==> r == Records(RankWindow(items, from, to))
    {
      r := Slice(items, from - 1, to);
      if 1 <= from && 0 <= to {
        SliceIsRankWindow(items, from, to);
      }
    }

    /** `rankOf(id)`: one plus the position of the first item carrying `id`, 0 when none does. */
    method RankOf(id: int) returns (rank: int)
      ensures 0 <= rank <= |items|
      ensures rank == 0 <==> forall p :: p in items ==> p.id != id
      ensures rank > 0 ==> items[rank - 1].id == id && forall k :: 0 <= k < rank - 1 ==> items[k].id != id
    {
      rank := FindIndex(items, HasId(id)) + 1;
    }

    /** `insert(item)`: push, then sort; the item lands after every item it does not rank before. */
    method Insert(item: Player)
      requires Valid()
      modifies this
      ensures Valid()
      ensures items == InsertBy(item, old(items), Compare)
      ensures multiset(items) == multiset(old(items)) + multiset{item}
    {
      PushThenSort(items, item);
      items := SortBy(items + [item], Compare);
    }

    /** `delete(id)`: nothing happens when no item carries `id`; otherwise the first item that
        does is spliced out and the array re-sorted, which leaves the others in place. */
    method Delete(id: int)
      requires Valid()
      modifies this
      ensures Valid()
      ensures var i := FindIndex(old(items), HasId(id));
        if i == -1 then items == old(items) else items == RemoveAt(old(items), i)
    {
      var index := FindIndex(items, HasId(id));
      if index == -1 {
        return;
      }
      RemoveAtSorted(items, index, Compare);
      SortOfSorted(RemoveAt(items, index));
      items := SortBy(RemoveAt(items, index), Compare);
    }

    /** `clear`: the list becomes empty. */
    method Clear()
      modifies this
      ensures Valid() && items == []
    {
      items := [];
    }
  }

  /** For positive arguments the clamped slice is the window of ranks `[from, to]`. */
  lemma SliceIsRankWindow(s: seq<Player>, from: int, to: int)
    requires 1 <= from && 0 <= to
    ensures Slice(s, from - 1, to) == Records(RankWindow(s, from, to))
  {
    var a, b := Slice(s, from - 1, to), Records(RankWindow(s, from, to));
    assert |a| == |b|;
    forall k | 0 <= k < |a| ensures a[k] == b[k] {
    }
  }

  /** Inserting a record with a fresh id and then deleting that id gives back the array that
      was there before, so every other item keeps its rank. */
  lemma InsertThenDeleteRestores(s: seq<Player>, x: Player)
    requires SortedBy(s, Compare)
    requires forall p :: p in s ==> p.id != x.id
    ensures FindIndex(InsertBy(x, s, Compare), HasId(x.id)) >= 0
    ensures RemoveAt(InsertBy(x, s, Compare), FindIndex(InsertBy(x, s, Compare), HasId(x.id))) == s
  {
    var t := InsertBy(x, s, Compare);
    CompareIsComparator();
    InsertBySorted(x, s, Compare);
    FreshIdFound(s, x);
    var i := FindIndex(t, HasId(x.id));
    RemoveAtSorted(t, i, Compare);
    SortedUnique(RemoveAt(t, i), s, Compare);
  }

  /** Looking up the fresh id after the insertion finds the inserted record, and taking it
      out leaves the elements that were there before. */
  lemma FreshIdFound(s: seq<Player>, x: Player)
    requires forall p :: p in s ==> p.id != x.id
    ensures var t := InsertBy(x, s, Compare); var i := FindIndex(t, HasId(x.id));
      0 <= i && t[i] == x && multiset(RemoveAt(t, i)) == multiset(s)
  {
    var t := InsertBy(x, s, Compare);
    assert x in multiset(t);
    var i := FindIndex(t, HasId(x.id));
    assert t[i] in multiset(t);
  }
}
