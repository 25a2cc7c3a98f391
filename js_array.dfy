/**
 * The JavaScript array built-ins the core calls: `slice`, `indexOf`, `findIndex`,
 * `splice(i, 1)` and `sort(compare)`. The core's own code is written on top of these, so
 * their meaning (clamped slicing, first-match search, a stable sort that leaves a sequence
 * ordered by the comparator) is stated here once.
 */
module JsArray {

  /** How `slice` turns an integer argument into a position in `[0, len]`: a negative
      argument counts from the end, an argument past the end stops at the end. */
  function ClampIndex(i: int, len: nat): (p: nat)
    ensures p <= len
    ensures 0 <= i <= len ==> p == i
    ensures i > len ==> p == len
    ensures i < 0 ==> p == if len + i < 0 then 0 else len + i
  {
    if i < 0 then (if len + i < 0 then 0 else len + i)
    else if i > len then len
    else i
  }

  /** `s.slice(start, end)`. */
  function Slice<T>(s: seq<T>, start: int, end: int): (r: seq<T>)
    ensures |r| == if ClampIndex(start, |s|) < ClampIndex(end, |s|) then ClampIndex(end, |s|) - ClampIndex(start, |s|) else 0
    ensures forall k :: 0 <= k < |r| ==> r[k] == s[ClampIndex(start, |s|) + k]
  {
    var lo, hi := ClampIndex(start, |s|), ClampIndex(end, |s|);
    if lo < hi then s[lo..hi] else []
  }

  /** `s.indexOf(x)`: the first position holding `x`, or -1. */
  function IndexOf<T(==)>(s: seq<T>, x: T): (r: int)
    ensures -1 <= r < |s|
    ensures r == -1 <==> x !in s
    ensures 0 <= r ==> s[r] == x && forall k :: 0 <= k < r ==> s[k] != x
  {
    if s == [] then -1
    else if s[0] == x then 0
    else
      var k := IndexOf(s[1..], x);
      assert s[1..][..if k < 0 then 0 else k] == s[1..if k < 0 then 1 else k + 1];
      if k == -1 then -1 else k + 1
  }

  /** `s.findIndex(test)`: the first position whose element passes `test`, or -1. */
  function FindIndex<T>(s: seq<T>, test: T -> bool): (r: int)
    ensures -1 <= r < |s|
    ensures r == -1 <==> forall i :: 0 <= i < |s| ==> !test(s[i])
    ensures 0 <= r ==> test(s[r]) && forall i :: 0 <= i < r ==> !test(s[i])
  {
    if s == [] then -1
    else if test(s[0]) then 0
    else
      var k := FindIndex(s[1..], test);
      assert forall i :: 1 <= i < |s| ==> s[i] == s[1..][i - 1];
      if k == -1 then -1 else k + 1
  }

  /** `s.splice(i, 1)`: the sequence without its element at position `i`. */
  function RemoveAt<T>(s: seq<T>, i: nat): (r: seq<T>)
    requires i < |s|
    ensures |r| == |s| - 1
    ensures multiset(r) == multiset(s) - multiset{s[i]}
    ensures forall k :: 0 <= k < i ==> r[k] == s[k]
    ensures forall k :: i <= k < |r| ==> r[k] == s[k + 1]
  {
    assert s == s[..i] + [s[i]] + s[i + 1..];
    s[..i] + s[i + 1..]
  }

  /** `s.splice(i, 1, x)`: the sequence with its element at position `i` replaced by `x`. */
  function ReplaceAt<T>(s: seq<T>, i: nat, x: T): (r: seq<T>)
    requires i < |s|
    ensures |r| == |s|
    ensures multiset(r) == multiset(RemoveAt(s, i)) + multiset{x}
    ensures r[i] == x && forall k :: 0 <= k < |s| && k != i ==> r[k] == s[k]
  {
    var front, back := s[..i], s[i + 1..];
    assert RemoveAt(s, i) == front + back;
    assert multiset(front + [x] + back) == multiset(front + back) + multiset{x};
    front + [x] + back
  }

  /** Concatenation regroups. */
  lemma Regroup<T>(p: seq<T>, q: seq<T>, r: seq<T>)
    ensures p + q + r == p + (q + r)
  {
  }

  /** Removing an element keeps a sequence in order. */
  lemma RemoveAtSorted<T>(s: seq<T>, i: nat, cmp: (T, T) -> int)
    requires i < |s|
    ensures SortedBy(s, cmp) ==> SortedBy(RemoveAt(s, i), cmp)
    ensures StrictlySortedBy(s, cmp) ==> StrictlySortedBy(RemoveAt(s, i), cmp)
  {
    var r := RemoveAt(s, i);
    forall p, q | 0 <= p < q < |r| ensures r[p] == s[if p < i then p else p + 1] && r[q] == s[if q < i then q else q + 1] {
    }
  }

  /** `s` is in the order `cmp` asks for: no later element compares below an earlier one. */
  ghost predicate SortedBy<T>(s: seq<T>, cmp: (T, T) -> int) {
    forall i, j :: 0 <= i < j < |s| ==> cmp(s[i], s[j]) <= 0
  }

  /** `s` is in strictly increasing `cmp` order. */
  ghost predicate StrictlySortedBy<T>(s: seq<T>, cmp: (T, T) -> int) {
    forall i, j :: 0 <= i < j < |s| ==> cmp(s[i], s[j]) < 0
  }

  /** What `sort` needs of its comparator: it is antisymmetric in sign and transitive. */
  ghost predicate IsComparator<T(!new)>(cmp: (T, T) -> int) {
    && (forall a, b {:trigger cmp(a, b)} :: cmp(a, b) < 0 <==> cmp(b, a) > 0)
    && (forall a, b, c {:trigger cmp(a, b), cmp(b, c)} :: cmp(a, b) <= 0 && cmp(b, c) <= 0 ==> cmp(a, c) <= 0)
  }

  /** One step of the insertion sort: `x` goes after every element it does not compare below,
      so equal elements keep their order. */
  function InsertBy<T>(x: T, s: seq<T>, cmp: (T, T) -> int): (r: seq<T>)
    ensures multiset(r) == multiset(s) + multiset{x}
  {
    if s == [] then [x]
    else if cmp(x, s[0]) < 0 then [x] + s
    else
      assert s == [s[0]] + s[1..];
      [s[0]] + InsertBy(x, s[1..], cmp)
  }

  /** `s.sort(cmp)`, modelled as a stable insertion sort. */
  function SortBy<T>(s: seq<T>, cmp: (T, T) -> int): (r: seq<T>)
    ensures multiset(r) == multiset(s)
  {
    if s == [] then []
    else
      assert s == s[..|s| - 1] + [s[|s| - 1]];
      InsertBy(s[|s| - 1], SortBy(s[..|s| - 1], cmp), cmp)
  }

  /** The sorted insertion holds the old elements and the new one, and nothing else. */
  lemma InsertByMembers<T>(x: T, s: seq<T>, cmp: (T, T) -> int)
    ensures forall q :: q in InsertBy(x, s, cmp) <==> q in s || q == x
  {
    var r := InsertBy(x, s, cmp);
    forall q ensures q in r <==> q in s || q == x {
      assert q in r <==> q in multiset(r);
      assert q in s <==> q in multiset(s);
    }
  }

  /** Sorting depends on the comparator only through its answers. */
  lemma {:induction false} SortByPointwise<T>(s: seq<T>, c1: (T, T) -> int, c2: (T, T) -> int)
    requires forall a, b :: c1(a, b) == c2(a, b)
    ensures SortBy(s, c1) == SortBy(s, c2)
    decreases |s|
  {
    if s != [] {
      SortByPointwise(s[..|s| - 1], c1, c2);
      InsertByPointwise(s[|s| - 1], SortBy(s[..|s| - 1], c1), c1, c2);
    }
  }

  lemma {:induction false} InsertByPointwise<T>(x: T, s: seq<T>, c1: (T, T) -> int, c2: (T, T) -> int)
    requires forall a, b :: c1(a, b) == c2(a, b)
    ensures InsertBy(x, s, c1) == InsertBy(x, s, c2)
    decreases |s|
  {
    if s != [] {
      InsertByPointwise(x, s[1..], c1, c2);
    }
  }

  lemma {:induction false} InsertBySorted<T(!new)>(x: T, s: seq<T>, cmp: (T, T) -> int)
    requires IsComparator(cmp) && SortedBy(s, cmp)
    ensures SortedBy(InsertBy(x, s, cmp), cmp)
  {
    if s == [] {
    } else if cmp(x, s[0]) < 0 {
      PrependSorted(x, s, cmp);
    } else {
      InsertBySorted(x, s[1..], cmp);
      forall i, j | 0 <= i < j < |s| - 1 ensures cmp(s[1..][i], s[1..][j]) <= 0 {
        assert cmp(s[i + 1], s[j + 1]) <= 0;
      }
      var tail := InsertBy(x, s[1..], cmp);
      forall y | y in tail ensures cmp(s[0], y) <= 0 {
        assert y in multiset(tail);
        if y != x {
          assert y in multiset(s[1..]);
          var k :| 0 <= k < |s[1..]| && s[1..][k] == y;
          assert s[k + 1] == y;
        }
      }
      PrependSorted(s[0], tail, cmp);
    }
  }

  /** Putting in front an element that compares at or below the head keeps the order. */
  lemma PrependSorted<T(!new)>(x: T, s: seq<T>, cmp: (T, T) -> int)
    requires IsComparator(cmp) && SortedBy(s, cmp)
    requires s != [] ==> cmp(x, s[0]) <= 0
    ensures SortedBy([x] + s, cmp)
  {
    var r := [x] + s;
    forall i, j | 0 <= i < j < |r| ensures cmp(r[i], r[j]) <= 0 {
      if i == 0 && j > 1 {
        assert cmp(x, s[0]) <= 0 && cmp(s[0], s[j - 1]) <= 0;
      }
    }
  }

  /** A consistent comparator leaves the sorted sequence in its order. */
  lemma {:induction false} SortBySorted<T(!new)>(s: seq<T>, cmp: (T, T) -> int)
    requires IsComparator(cmp)
    ensures SortedBy(SortBy(s, cmp), cmp)
  {
    if s != [] {
      SortBySorted(s[..|s| - 1], cmp);
      InsertBySorted(s[|s| - 1], SortBy(s[..|s| - 1], cmp), cmp);
    }
  }

  /** `cmp` returns 0 only for identical elements. */
  ghost predicate ZeroOnlyOnEqual<T(!new)>(cmp: (T, T) -> int) {
    forall a, b :: cmp(a, b) == 0 ==> a == b
  }

  /** Two sorted arrangements of the same elements are the same sequence, provided the order
      leaves no room for ties: one of them is strictly sorted, or the comparator returns 0
      only for identical elements. */
  lemma {:induction false} SortedUnique<T(!new)>(a: seq<T>, b: seq<T>, cmp: (T, T) -> int)
    requires IsComparator(cmp)
    requires SortedBy(a, cmp) && SortedBy(b, cmp)
    requires StrictlySortedBy(b, cmp) || ZeroOnlyOnEqual(cmp)
    requires multiset(a) == multiset(b)
    ensures a == b
  {
    assert |b| == |multiset(b)| == |multiset(a)| == |a|;
    if a != [] {
      SortedHeadsEqual(a, b, cmp);
      SortedTails(a, b, cmp);
      SortedUnique(a[1..], b[1..], cmp);
      HeadTailEqual(a, b);
    }
  }

  /** Sequences with the same first element and the same rest are the same sequence. */
  lemma HeadTailEqual<T>(a: seq<T>, b: seq<T>)
    requires a != [] && b != [] && a[0] == b[0] && a[1..] == b[1..]
    ensures a == b
  {
    assert a == [a[0]] + a[1..];
  }

  /** Past equal heads, the tails are again sorted arrangements of the same elements. */
  lemma SortedTails<T(!new)>(a: seq<T>, b: seq<T>, cmp: (T, T) -> int)
    requires SortedBy(a, cmp) && SortedBy(b, cmp)
    requires StrictlySortedBy(b, cmp) || ZeroOnlyOnEqual(cmp)
    requires multiset(a) == multiset(b) && a != [] && b != [] && a[0] == b[0]
    ensures SortedBy(a[1..], cmp) && SortedBy(b[1..], cmp)
    ensures StrictlySortedBy(b[1..], cmp) || ZeroOnlyOnEqual(cmp)
    ensures multiset(a[1..]) == multiset(b[1..])
  {
    assert a == [a[0]] + a[1..];
    assert b == [b[0]] + b[1..];
    assert multiset(a[1..]) == multiset(a) - multiset{a[0]};
    assert multiset(b[1..]) == multiset(b) - multiset{b[0]};
    SortedTail(a, cmp);
    SortedTail(b, cmp);
  }

  lemma SortedHeadsEqual<T(!new)>(a: seq<T>, b: seq<T>, cmp: (T, T) -> int)
    requires IsComparator(cmp)
    requires SortedBy(a, cmp) && SortedBy(b, cmp)
    requires StrictlySortedBy(b, cmp) || ZeroOnlyOnEqual(cmp)
    requires multiset(a) == multiset(b) && a != [] && b != []
    ensures a[0] == b[0]
  {
    assert a[0] in multiset(b);
    var k :| 0 <= k < |b| && b[k] == a[0];
    assert b[0] in multiset(a);
    var m :| 0 <= m < |a| && a[m] == b[0];
    if k != 0 && m != 0 {
      assert cmp(b[0], a[0]) <= 0 && cmp(a[0], b[0]) <= 0;
    }
  }

  lemma SortedTail<T>(s: seq<T>, cmp: (T, T) -> int)
    requires s != []
    ensures SortedBy(s, cmp) ==> SortedBy(s[1..], cmp)
    ensures StrictlySortedBy(s, cmp) ==> StrictlySortedBy(s[1..], cmp)
  {
    if SortedBy(s, cmp) {
      forall i, j | 0 <= i < j < |s| - 1 ensures cmp(s[1..][i], s[1..][j]) <= 0 {
        assert cmp(s[i + 1], s[j + 1]) <= 0;
      }
    }
    if StrictlySortedBy(s, cmp) {
      forall i, j | 0 <= i < j < |s| - 1 ensures cmp(s[1..][i], s[1..][j]) < 0 {
        assert cmp(s[i + 1], s[j + 1]) < 0;
      }
    }
  }

  /** Two strictly sorted sequences holding the same elements are the same sequence. */
  lemma {:induction false} StrictlySortedUnique<T(!new)>(a: seq<T>, b: seq<T>, cmp: (T, T) -> int)
    requires IsComparator(cmp)
    requires StrictlySortedBy(a, cmp) && StrictlySortedBy(b, cmp)
    requires forall x :: x in a <==> x in b
    ensures a == b
  {
    assert a == [] <==> b == [] by {
      if a != [] { assert a[0] in a; }
      if b != [] { assert b[0] in b; }
    }
    if a != [] {
      StrictHeadsEqual(a, b, cmp);
      StrictTails(a, b, cmp);
      StrictlySortedUnique(a[1..], b[1..], cmp);
      assert a == [a[0]] + a[1..] && b == [b[0]] + b[1..];
    }
  }

  /** Past equal heads, the tails are again strictly sorted and hold the same elements. */
  lemma StrictTails<T(!new)>(a: seq<T>, b: seq<T>, cmp: (T, T) -> int)
    requires IsComparator(cmp)
    requires StrictlySortedBy(a, cmp) && StrictlySortedBy(b, cmp)
    requires forall x :: x in a <==> x in b
    requires a != [] && b != [] && a[0] == b[0]
    ensures StrictlySortedBy(a[1..], cmp) && StrictlySortedBy(b[1..], cmp)
    ensures forall x :: x in a[1..] <==> x in b[1..]
  {
    forall x ensures x in a[1..] <==> x in b[1..] {
      if x in a[1..] {
        var k :| 1 <= k < |a| && a[k] == x;
        assert cmp(a[0], a[k]) < 0;
      }
      if x in b[1..] {
        var k :| 1 <= k < |b| && b[k] == x;
        assert cmp(b[0], b[k]) < 0;
      }
      assert x in a <==> x == a[0] || x in a[1..];
      assert x in b <==> x == b[0] || x in b[1..];
    }
    SortedTail(a, cmp);
    SortedTail(b, cmp);
  }

  lemma StrictHeadsEqual<T(!new)>(a: seq<T>, b: seq<T>, cmp: (T, T) -> int)
    requires IsComparator(cmp)
    requires StrictlySortedBy(a, cmp) && StrictlySortedBy(b, cmp)
    requires a != [] && b != [] && a[0] in b && b[0] in a
    ensures a[0] == b[0]
  {
    var k :| 0 <= k < |b| && b[k] == a[0];
    var m :| 0 <= m < |a| && a[m] == b[0];
  }
}
