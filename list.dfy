/**
 * The order every player list keeps, and the contracts both list implementations share.
 * A list is abstracted as the sequence of its items in rank order: rank k is position k-1.
 */
module PlayerList {
  import opened Store
  import opened JsArray

  /** The composite key: `a` ranks before `b` when its mmr is higher, or the mmrs tie and its
      id is higher. */
  predicate Precedes(a: Player, b: Player) {
    a.mmr > b.mmr || (a.mmr == b.mmr && a.id > b.id)
  }

  /** `PlayerList.compare`: -1 when `a` ranks before `b`, 1 when after, 0 for equal records. */
  function Compare(a: Player, b: Player): (c: int)
    ensures c == -1 <==> Precedes(a, b)
    ensures c == 1 <==> Precedes(b, a)
    ensures c == 0 <==> a == b
  {
    if a.mmr > b.mmr then -1
    else if a.mmr < b.mmr then 1
    else if a.id > b.id then -1
    else if a.id < b.id then 1
    else 0
  }

  lemma CompareAntisymmetric(a: Player, b: Player)
    ensures Compare(a, b) == -Compare(b, a)
  {
  }

  /** `Precedes` is a strict total order on player records. */
  lemma PrecedesIsStrictTotalOrder(a: Player, b: Player, c: Player)
    ensures !Precedes(a, a)
    ensures Precedes(a, b) ==> !Precedes(b, a)
    ensures Precedes(a, b) && Precedes(b, c) ==> Precedes(a, c)
    ensures a != b ==> Precedes(a, b) || Precedes(b, a)
  {
  }

  /** `compare` is a consistent comparator for `sort`, and it ties only identical records. */
  lemma CompareIsComparator()
    ensures IsComparator(Compare)
    ensures ZeroOnlyOnEqual(Compare)
  {
  }

  /** A sequence in rank order: every item ranks before every later one. */
  ghost predicate InRankOrder(s: seq<Player>) {
    forall i, j :: 0 <= i < j < |s| ==> Precedes(s[i], s[j])
  }

  lemma InRankOrderIsStrictlySorted(s: seq<Player>)
    ensures InRankOrder(s) <==> StrictlySortedBy(s, Compare)
    ensures InRankOrder(s) ==> SortedBy(s, Compare)
  {
  }

  /** Sorting an already sorted list changes nothing. */
  lemma SortOfSorted(s: seq<Player>)
    requires SortedBy(s, Compare)
    ensures SortBy(s, Compare) == s
  {
    CompareIsComparator();
    SortBySorted(s, Compare);
    SortedUnique(SortBy(s, Compare), s, Compare);
  }

  /** `push` then `sort` on a sorted list is the sorted insertion of the new item. */
  lemma PushThenSort(s: seq<Player>, x: Player)
    requires SortedBy(s, Compare)
    ensures SortBy(s + [x], Compare) == InsertBy(x, s, Compare)
    ensures SortedBy(InsertBy(x, s, Compare), Compare)
  {
    assert (s + [x])[..|s|] == s;
    SortOfSorted(s);
    CompareIsComparator();
    InsertBySorted(x, s, Compare);
  }

  /** Where the sorted insertion puts an item: after every item that ranks before it and
      before every item that ranks after it. */
  lemma {:induction false} InsertBySplit(a: seq<Player>, b: seq<Player>, x: Player)
    requires forall y :: y in a ==> Precedes(y, x)
    requires forall y :: y in b ==> Precedes(x, y)
    ensures InsertBy(x, a + b, Compare) == a + [x] + b
  {
    if a == [] {
      assert a + b == b;
    } else {
      assert (a + b)[0] == a[0] && (a + b)[1..] == a[1..] + b;
      InsertBySplit(a[1..], b, x);
      assert a == [a[0]] + a[1..];
    }
  }

  /** An item that ranks after everything in `a` and before everything in `b` is absent from
      `t == a + b`, and inserting it gives `s == a + [x] + b`, in rank order. */
  lemma InsertBetween(t: seq<Player>, s: seq<Player>, a: seq<Player>, b: seq<Player>, x: Player)
    requires t == a + b && s == a + [x] + b
    requires InRankOrder(t)
    requires forall y :: y in a ==> Precedes(y, x)
    requires forall y :: y in b ==> Precedes(x, y)
    ensures x !in t
    ensures InsertBy(x, t, Compare) == s
    ensures InRankOrder(s)
  {
    InsertBySplit(a, b, x);
    assert x !in a && x !in b;
    InsertByInRankOrder(x, a + b);
  }

  /** Inserting an item not yet present keeps a list in strict rank order. */
  lemma {:induction false} InsertByInRankOrder(x: Player, s: seq<Player>)
    requires InRankOrder(s) && x !in s
    ensures InRankOrder(InsertBy(x, s, Compare))
  {
    if s == [] {
    } else if Compare(x, s[0]) < 0 {
      forall i, j | 0 <= i < j < |s| + 1 ensures Precedes(([x] + s)[i], ([x] + s)[j]) {
        if i == 0 && j > 1 {
          assert Precedes(s[0], s[j - 1]);
        }
      }
    } else {
      assert s[1..] == s[1..];
      forall i, j | 0 <= i < j < |s| - 1 ensures Precedes(s[1..][i], s[1..][j]) {
        assert Precedes(s[i + 1], s[j + 1]);
      }
      InsertByInRankOrder(x, s[1..]);
      var tail := InsertBy(x, s[1..], Compare);
      forall y | y in tail ensures Precedes(s[0], y) {
        assert y in multiset(tail);
        if y != x {
          assert y in multiset(s[1..]);
          var k :| 0 <= k < |s[1..]| && s[1..][k] == y;
          assert Precedes(s[0], s[k + 1]);
        }
      }
      var r := [s[0]] + tail;
      forall i, j | 0 <= i < j < |r| ensures Precedes(r[i], r[j]) {
        if i == 0 {
          assert r[j] in tail;
        }
      }
    }
  }

  /** Removing an item keeps a list in rank order. */
  lemma RemoveAtInRankOrder(s: seq<Player>, i: nat)
    requires InRankOrder(s) && i < |s|
    ensures InRankOrder(RemoveAt(s, i))
  {
    InRankOrderIsStrictlySorted(s);
    RemoveAtSorted(s, i, Compare);
    InRankOrderIsStrictlySorted(RemoveAt(s, i));
  }

  /** Taking the item at position `i` out of a list in rank order leaves every other item. */
  lemma RemoveAtMembers(s: seq<Player>, i: nat)
    requires InRankOrder(s) && i < |s|
    ensures forall q :: q in RemoveAt(s, i) <==> q in s && q != s[i]
  {
    var r := RemoveAt(s, i);
    forall q ensures q in r <==> q in s && q != s[i] {
      if q in r {
        var k :| 0 <= k < |r| && r[k] == q;
        PrecedesIsStrictTotalOrder(q, q, q);
        assert q == s[if k < i then k else k + 1];
      }
      if q in s && q != s[i] {
        var k :| 0 <= k < |s| && s[k] == q;
        assert q == r[if k < i then k else k - 1];
      }
    }
  }

  /** In a sequence in rank order, an item's first occurrence is its only one. */
  lemma IndexInRankOrder(s: seq<Player>, i: nat)
    requires InRankOrder(s) && i < |s|
    ensures IndexOf(s, s[i]) == i
  {
    var k := IndexOf(s, s[i]);
  }

  /** Taking out the item between two parts leaves the two parts. */
  lemma RemoveMiddle(a: seq<Player>, x: Player, b: seq<Player>)
    ensures RemoveAt(a + [x] + b, |a|) == a + b
  {
    var s := a + [x] + b;
    assert s[..|a|] == a && s[|a| + 1..] == b;
  }

  /** Taking `x` out of `t == a + [x] + b`, in rank order, at its first occurrence leaves
      `s == a + b`, in rank order. */
  lemma RemoveBetween(t: seq<Player>, s: seq<Player>, a: seq<Player>, x: Player, b: seq<Player>)
    requires t == a + [x] + b && s == a + b
    requires InRankOrder(t)
    ensures x in t && IndexOf(t, x) == |a|
    ensures RemoveAt(t, IndexOf(t, x)) == s
    ensures InRankOrder(s)
  {
    assert t[|a|] == x;
    IndexInRankOrder(t, |a|);
    RemoveMiddle(a, x, b);
    RemoveAtInRankOrder(t, |a|);
  }

  /** A list in rank order is determined by which records it holds. */
  lemma RankOrderUnique(a: seq<Player>, b: seq<Player>)
    requires InRankOrder(a) && InRankOrder(b)
    requires forall x :: x in a <==> x in b
    ensures a == b
  {
    CompareIsComparator();
    InRankOrderIsStrictlySorted(a);
    InRankOrderIsStrictlySorted(b);
    StrictlySortedUnique(a, b, Compare);
  }

  /** How many items of `s` rank before `p`. */
  function Ahead(s: seq<Player>, p: Player): nat {
    if s == [] then 0 else (if Precedes(s[0], p) then 1 else 0) + Ahead(s[1..], p)
  }

  /** In a list in rank order, the item at position `i` has exactly `i` items ranked before it,
      so its rank, one more than its position, is one more than the number of items ahead. */
  lemma {:induction false} PositionCountsAhead(s: seq<Player>, i: nat)
    requires InRankOrder(s) && i < |s|
    ensures Ahead(s, s[i]) == i
  {
    PrecedesIsStrictTotalOrder(s[i], s[i], s[i]);
    if i == 0 {
      AheadNone(s, s[0]);
    } else {
      assert s[1..][i - 1] == s[i];
      assert Precedes(s[0], s[i]);
      PositionCountsAhead(s[1..], i - 1);
    }
  }

  /** No item ranks before an item that ranks before them all. */
  lemma {:induction false} AheadNone(s: seq<Player>, p: Player)
    requires s != [] && s[0] == p && InRankOrder(s)
    ensures Ahead(s, p) == 0
  {
    NoneAhead(s[1..], p);
    PrecedesIsStrictTotalOrder(p, p, p);
  }

  lemma {:induction false} NoneAhead(s: seq<Player>, p: Player)
    requires forall y :: y in s ==> Precedes(p, y)
    ensures Ahead(s, p) == 0
  {
    if s != [] {
      PrecedesIsStrictTotalOrder(p, s[0], p);
      NoneAhead(s[1..], p);
    }
  }

  /** An item returned with its rank, as `getByRank` and `find` return them. */
  datatype RankedPlayer = RankedPlayer(player: Player, rank: int)

  /** The contract of `getByRank(from, to)` on a list whose items are `s` in rank order: the
      items whose rank lies in `[from, to]`, each with its rank, ascending by rank. */
  function RankWindow(s: seq<Player>, from: int, to: int): (r: seq<RankedPlayer>)
    ensures forall x :: x in r <==> from <= x.rank <= to && 1 <= x.rank <= |s| && x.player == s[x.rank - 1]
  {
    var lo := if from < 1 then 0 else from - 1;
    var hi := if to < |s| then to else |s|;
    var r := if lo < hi then seq(hi - lo, k requires 0 <= k < hi - lo => RankedPlayer(s[lo + k], lo + k + 1)) else [];
    WindowMembers(s, from, to, lo, r);
    r
  }

  lemma WindowMembers(s: seq<Player>, from: int, to: int, lo: int, r: seq<RankedPlayer>)
    requires lo == if from < 1 then 0 else from - 1
    requires |r| == if lo < (if to < |s| then to else |s|) then (if to < |s| then to else |s|) - lo else 0
    requires forall k :: 0 <= k < |r| ==> r[k] == RankedPlayer(s[lo + k], lo + k + 1)
    ensures forall x :: x in r <==> from <= x.rank <= to && 1 <= x.rank <= |s| && x.player == s[x.rank - 1]
  {
    forall x: RankedPlayer | from <= x.rank <= to && 1 <= x.rank <= |s| && x.player == s[x.rank - 1] ensures x in r {
      assert r[x.rank - 1 - lo] == x;
    }
  }

  /** The window lists its entries in ascending rank order. */
  lemma RankWindowAscends(s: seq<Player>, from: int, to: int)
    ensures var r := RankWindow(s, from, to);
      forall i, j :: 0 <= i < j < |r| ==> r[i].rank < r[j].rank
  {
    RankWindowAt(s, from, to);
  }

  /** The window's entries one by one: position `k` holds rank `max(from, 1) + k`. */
  lemma RankWindowAt(s: seq<Player>, from: int, to: int)
    ensures var lo := if from < 1 then 0 else from - 1;
      var hi := if to < |s| then to else |s|;
      && |RankWindow(s, from, to)| == (if lo < hi then hi - lo else 0)
      && forall k :: 0 <= k < |RankWindow(s, from, to)| ==>
           lo + k < |s| && RankWindow(s, from, to)[k] == RankedPlayer(s[lo + k], lo + k + 1)
  {
  }

  /** A list's own id lookup: the item carries `id`. */
  function HasId(id: int): Player -> bool {
    (p: Player) => p.id == id
  }

  /** The records of a ranked sequence, without their ranks. */
  function Records(rs: seq<RankedPlayer>): (ps: seq<Player>)
    ensures |ps| == |rs| && forall k :: 0 <= k < |rs| ==> ps[k] == rs[k].player
  {
    seq(|rs|, k requires 0 <= k < |rs| => rs[k].player)
  }
}
