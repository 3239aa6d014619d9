/** Python's `list.sort` / `sorted`: a stable sort, so items whose keys compare equal keep
    their original relative order (also under `reverse=True`, which Python implements as a
    stable sort on the reversed comparison).  The sort is stated on indices: `SortIndices`
    returns the order in which the items of a list come out of the sort. */
module Sorting {

  /** `lt` is a strict total order on keys. */
  ghost predicate StrictTotalOrder<K(!new)>(lt: (K, K) -> bool) {
    && (forall a :: !lt(a, a))
    && (forall a, b, c :: lt(a, b) && lt(b, c) ==> lt(a, c))
    && (forall a, b :: a != b ==> lt(a, b) || lt(b, a))
  }

  /** In a stable sort of `keys`, item `i` comes out before item `j`. */
  predicate Before<K>(keys: seq<K>, lt: (K, K) -> bool, i: nat, j: nat)
    requires i < |keys| && j < |keys|
  {
    lt(keys[i], keys[j]) || (!lt(keys[j], keys[i]) && i < j)
  }

  predicate InRange(order: seq<nat>, n: nat) {
    forall k :: 0 <= k < |order| ==> order[k] < n
  }

  /** `order` lists indices of `keys` in stable-sorted order. */
  predicate SortedBy<K>(keys: seq<K>, lt: (K, K) -> bool, order: seq<nat>) {
    && InRange(order, |keys|)
    && forall a, b :: 0 <= a < b < |order| ==> Before(keys, lt, order[a], order[b])
  }

  /** The indices `0, 1, ..., n - 1`. */
  function Range(n: nat): (r: seq<nat>)
    ensures |r| == n && forall k :: 0 <= k < n ==> r[k] == k
  {
    seq(n, k => k)
  }

  /** Insert index `i`, larger than every index in `order`, behind all items whose key is not greater. */
  function Insert<K>(keys: seq<K>, lt: (K, K) -> bool, order: seq<nat>, i: nat): (r: seq<nat>)
    requires InRange(order, |keys|) && i < |keys|
    ensures |r| == |order| + 1 && InRange(r, |keys|)
  {
    if order == [] then [i]
    else if lt(keys[i], keys[order[0]]) then [i] + order
    else [order[0]] + Insert(keys, lt, order[1..], i)
  }

  function SortPrefix<K>(keys: seq<K>, lt: (K, K) -> bool, n: nat): (r: seq<nat>)
    requires n <= |keys|
    ensures |r| == n && InRange(r, |keys|)
  {
    if n == 0 then [] else Insert(keys, lt, SortPrefix(keys, lt, n - 1), n - 1)
  }

  /** The positions of `keys` in the order a stable sort by `lt` puts them. */
  function SortIndices<K>(keys: seq<K>, lt: (K, K) -> bool): (r: seq<nat>)
    ensures |r| == |keys| && InRange(r, |keys|)
  {
    SortPrefix(keys, lt, |keys|)
  }

  /** Inserting adds the index and keeps the others. */
  lemma {:induction false} InsertPermutes<K>(keys: seq<K>, lt: (K, K) -> bool, order: seq<nat>, i: nat)
    requires InRange(order, |keys|) && i < |keys|
    ensures multiset(Insert(keys, lt, order, i)) == multiset(order) + multiset{i}
  {
    if order != [] && !lt(keys[i], keys[order[0]]) {
      InsertPermutes(keys, lt, order[1..], i);
      assert order == [order[0]] + order[1..];
    }
  }

  lemma {:induction false} SortPrefixPermutes<K>(keys: seq<K>, lt: (K, K) -> bool, n: nat)
    requires n <= |keys|
    ensures multiset(SortPrefix(keys, lt, n)) == multiset(Range(n))
  {
    if n > 0 {
      SortPrefixPermutes(keys, lt, n - 1);
      InsertPermutes(keys, lt, SortPrefix(keys, lt, n - 1), n - 1);
      RangeSnoc(n);
    }
  }

  lemma RangeSnoc(n: nat)
    requires n > 0
    ensures Range(n) == Range(n - 1) + [n - 1]
  {
  }

  /** Inserting adds only the index inserted. */
  lemma InsertMembers<K>(keys: seq<K>, lt: (K, K) -> bool, order: seq<nat>, i: nat)
    requires InRange(order, |keys|) && i < |keys|
    ensures forall x :: x in Insert(keys, lt, order, i) ==> x == i || x in order
  {
    InsertPermutes(keys, lt, order, i);
    forall x | x in Insert(keys, lt, order, i) ensures x == i || x in order {
      assert x in multiset(Insert(keys, lt, order, i));
    }
  }

  /** The first `n` positions, sorted, are all below `n`. */
  lemma SortPrefixBelow<K>(keys: seq<K>, lt: (K, K) -> bool, n: nat)
    requires n <= |keys|
    ensures InRange(SortPrefix(keys, lt, n), n)
  {
    var r := SortPrefix(keys, lt, n);
    SortPrefixPermutes(keys, lt, n);
    forall k | 0 <= k < |r| ensures r[k] < n {
      assert r[k] in multiset(Range(n));
      var j :| 0 <= j < n && Range(n)[j] == r[k];
    }
  }

  /** `SortIndices` lists every position of `keys` exactly once. */
  lemma SortIndicesPermutes<K>(keys: seq<K>, lt: (K, K) -> bool)
    ensures var order := SortIndices(keys, lt);
      && multiset(order) == multiset(Range(|keys|))
      && (forall a, b :: 0 <= a < b < |order| ==> order[a] != order[b])
      && (forall i :: 0 <= i < |keys| ==> i in order)
  {
    SortPrefixPermutes(keys, lt, |keys|);
    PermutationOfRange(SortIndices(keys, lt), |keys|);
  }

  /** The items of `s` in the order `order` names them. */
  function Permute<T>(s: seq<T>, order: seq<nat>): (r: seq<T>)
    requires InRange(order, |s|)
    ensures |r| == |order| && forall k :: 0 <= k < |order| ==> r[k] == s[order[k]]
  {
    seq(|order|, k requires 0 <= k < |order| => s[order[k]])
  }

  /** A rearrangement of `0, ..., n - 1` lists each of those indices exactly once. */
  lemma PermutationOfRange(order: seq<nat>, n: nat)
    requires multiset(order) == multiset(Range(n))
    ensures |order| == n && InRange(order, n)
    ensures forall a, b :: 0 <= a < b < |order| ==> order[a] != order[b]
    ensures forall i :: 0 <= i < n ==> i in order
  {
    assert |order| == |multiset(order)| == |multiset(Range(n))| == n;
    forall k | 0 <= k < |order| ensures order[k] < n {
      assert order[k] in multiset(Range(n));
    }
    forall i | 0 <= i < n ensures i in order {
      assert Range(n)[i] == i;
      assert i in multiset(Range(n));
    }
    forall a, b | 0 <= a < b < |order| ensures order[a] != order[b] {
      if order[a] == order[b] {
        var x := order[a];
        assert multiset(order)[x] >= 2 by {
          assert order == order[..a] + [x] + order[a + 1..b] + [x] + order[b + 1..];
        }
        RangeOnce(n, x);
        assert false;
      }
    }
  }

  lemma {:induction false} RangeOnce(n: nat, x: nat)
    ensures multiset(Range(n))[x] == if x < n then 1 else 0
  {
    if n > 0 {
      assert Range(n) == Range(n - 1) + [n - 1];
      RangeOnce(n - 1, x);
    }
  }

  lemma BeforeAsymmetric<K(!new)>(keys: seq<K>, lt: (K, K) -> bool, i: nat, j: nat)
    requires StrictTotalOrder(lt) && i < |keys| && j < |keys|
    ensures !(Before(keys, lt, i, j) && Before(keys, lt, j, i))
  {
  }

  lemma {:induction false} InsertSorted<K(!new)>(keys: seq<K>, lt: (K, K) -> bool, order: seq<nat>, i: nat)
    requires StrictTotalOrder(lt) && SortedBy(keys, lt, order) && i < |keys| && InRange(order, i)
    ensures SortedBy(keys, lt, Insert(keys, lt, order, i))
  {
    if order == [] {
    } else if lt(keys[i], keys[order[0]]) {
      InsertFront(keys, lt, order, i);
    } else {
      var tail := order[1..];
      SortedTail(keys, lt, order);
      assert InRange(tail, i) by {
        forall k | 0 <= k < |tail| ensures tail[k] < i {
          assert tail[k] == order[k + 1];
        }
      }
      InsertSorted(keys, lt, tail, i);
      InsertMembers(keys, lt, tail, i);
      InsertBehind(keys, lt, order, Insert(keys, lt, tail, i), i);
    }
  }

  /** An index whose key is below the first key goes to the front. */
  lemma InsertFront<K(!new)>(keys: seq<K>, lt: (K, K) -> bool, order: seq<nat>, i: nat)
    requires StrictTotalOrder(lt) && SortedBy(keys, lt, order) && i < |keys| && InRange(order, i)
    requires order != [] && lt(keys[i], keys[order[0]])
    ensures SortedBy(keys, lt, [i] + order)
  {
    var r := [i] + order;
    forall a, b | 0 <= a < b < |r| ensures Before(keys, lt, r[a], r[b]) {
      if a == 0 {
        if b > 1 {
          assert Before(keys, lt, order[0], order[b - 1]);
        }
      } else {
        assert Before(keys, lt, order[a - 1], order[b - 1]);
      }
    }
  }

  /** The first index stays first when the index inserted into the rest does not come before it. */
  lemma InsertBehind<K(!new)>(keys: seq<K>, lt: (K, K) -> bool, order: seq<nat>, rest: seq<nat>, i: nat)
    requires SortedBy(keys, lt, order) && i < |keys| && InRange(order, i)
    requires order != [] && !lt(keys[i], keys[order[0]])
    requires SortedBy(keys, lt, rest) && forall x :: x in rest ==> x == i || x in order[1..]
    ensures SortedBy(keys, lt, [order[0]] + rest)
  {
    var r := [order[0]] + rest;
    forall a, b | 0 <= a < b < |r| ensures Before(keys, lt, r[a], r[b]) {
      if a == 0 {
        var x := rest[b - 1];
        assert x in rest;
        if x != i {
          var c :| 0 <= c < |order[1..]| && order[1..][c] == x;
          assert Before(keys, lt, order[0], order[c + 1]);
        }
      } else {
        assert r[a] == rest[a - 1] && r[b] == rest[b - 1];
      }
    }
  }

  lemma {:induction false} SortPrefixSorted<K(!new)>(keys: seq<K>, lt: (K, K) -> bool, n: nat)
    requires StrictTotalOrder(lt) && n <= |keys|
    ensures SortedBy(keys, lt, SortPrefix(keys, lt, n))
  {
    if n > 0 {
      SortPrefixSorted(keys, lt, n - 1);
      SortPrefixBelow(keys, lt, n - 1);
      InsertSorted(keys, lt, SortPrefix(keys, lt, n - 1), n - 1);
    }
  }

  /** `SortIndices` is a permutation of the positions, sorted and stable: of two items, the one with
      the smaller key comes first, and of two items with equal keys, the earlier one. */
  lemma SortIndicesSorted<K(!new)>(keys: seq<K>, lt: (K, K) -> bool)
    requires StrictTotalOrder(lt)
    ensures SortedBy(keys, lt, SortIndices(keys, lt))
  {
    SortPrefixSorted(keys, lt, |keys|);
  }

  /** Sorting by `keys` rearranges `s`: it keeps exactly the items of `s`. */
  lemma PermuteMembers<T, K>(s: seq<T>, keys: seq<K>, lt: (K, K) -> bool)
    requires |keys| == |s|
    ensures forall x :: x in Permute(s, SortIndices(keys, lt)) <==> x in s
  {
    var order := SortIndices(keys, lt);
    SortIndicesPermutes(keys, lt);
    forall x | x in s ensures x in Permute(s, order) {
      var k :| 0 <= k < |s| && s[k] == x;
      assert k in order;
      var a :| 0 <= a < |order| && order[a] == k;
      assert Permute(s, order)[a] == x;
    }
  }

  /** After a sort by a strict total order, no later key is smaller than an earlier one. */
  lemma SortIndicesNotAfter<K(!new)>(keys: seq<K>, lt: (K, K) -> bool)
    requires StrictTotalOrder(lt)
    ensures var order := SortIndices(keys, lt);
      forall a, b :: 0 <= a < b < |order| ==> !lt(keys[order[b]], keys[order[a]])
  {
    var order := SortIndices(keys, lt);
    SortIndicesSorted(keys, lt);
    forall a, b | 0 <= a < b < |order| ensures !lt(keys[order[b]], keys[order[a]]) {
      assert Before(keys, lt, order[a], order[b]);
    }
  }

  /** There is only one stably sorted arrangement of a set of positions: any sort that is stable
      produces exactly the order `SortIndices` does. */
  lemma {:induction false} SortedUnique<K(!new)>(keys: seq<K>, lt: (K, K) -> bool, o1: seq<nat>, o2: seq<nat>)
    requires StrictTotalOrder(lt)
    requires SortedBy(keys, lt, o1) && SortedBy(keys, lt, o2) && multiset(o1) == multiset(o2)
    ensures o1 == o2
  {
    if o1 == [] {
      assert |multiset(o2)| == 0;
    } else {
      assert |o2| == |multiset(o2)| == |multiset(o1)| > 0;
      SortedHeads(keys, lt, o1, o2);
      TailMultiset(o1);
      TailMultiset(o2);
      SortedTail(keys, lt, o1);
      SortedTail(keys, lt, o2);
      SortedUnique(keys, lt, o1[1..], o2[1..]);
      assert o1 == [o1[0]] + o1[1..] && o2 == [o2[0]] + o2[1..];
    }
  }

  /** Two stably sorted arrangements of the same positions start with the same position. */
  lemma SortedHeads<K(!new)>(keys: seq<K>, lt: (K, K) -> bool, o1: seq<nat>, o2: seq<nat>)
    requires StrictTotalOrder(lt)
    requires SortedBy(keys, lt, o1) && SortedBy(keys, lt, o2) && multiset(o1) == multiset(o2)
    requires o1 != [] && o2 != []
    ensures o1[0] == o2[0]
  {
    assert o1[0] in multiset(o2) && o2[0] in multiset(o1);
    HeadFirst(keys, lt, o1, o2[0]);
    HeadFirst(keys, lt, o2, o1[0]);
    BeforeAsymmetric(keys, lt, o1[0], o2[0]);
  }

  /** The first position of a sorted arrangement comes out before every other position in it. */
  lemma HeadFirst<K>(keys: seq<K>, lt: (K, K) -> bool, o: seq<nat>, x: nat)
    requires SortedBy(keys, lt, o) && x in o
    ensures x == o[0] || (x < |keys| && Before(keys, lt, o[0], x))
  {
    var p :| 0 <= p < |o| && o[p] == x;
    if p > 0 {
      assert Before(keys, lt, o[0], o[p]);
    }
  }

  lemma TailMultiset(o: seq<nat>)
    requires o != []
    ensures multiset(o[1..]) == multiset(o) - multiset{o[0]}
  {
    assert o == [o[0]] + o[1..];
  }

  lemma SortedTail<K>(keys: seq<K>, lt: (K, K) -> bool, order: seq<nat>)
    requires SortedBy(keys, lt, order) && order != []
    ensures SortedBy(keys, lt, order[1..])
  {
    forall a, b | 0 <= a < b < |order| - 1
      ensures Before(keys, lt, order[1..][a], order[1..][b])
    {
      assert order[1..][a] == order[a + 1] && order[1..][b] == order[b + 1];
    }
  }

  /** Python's `reverse=True` on numeric keys: descending order. */
  function Descending(a: real, b: real): bool { a > b }

  lemma DescendingIsTotal()
    ensures StrictTotalOrder(Descending)
  {
  }

  /** Python's comparison of two `str` values: lexicographic by code point. */
  predicate StrLess(a: string, b: string) {
    if a == [] then b != []
    else if b == [] then false
    else if a[0] != b[0] then a[0] < b[0]
    else StrLess(a[1..], b[1..])
  }

  lemma {:induction false} StrLessIrreflexive(a: string)
    ensures !StrLess(a, a)
  {
    if a != [] { StrLessIrreflexive(a[1..]); }
  }

  lemma {:induction false} StrLessTransitive(a: string, b: string, c: string)
    requires StrLess(a, b) && StrLess(b, c)
    ensures StrLess(a, c)
  {
    if a != [] && b != [] && c != [] && a[0] == b[0] == c[0] {
      StrLessTransitive(a[1..], b[1..], c[1..]);
    }
  }

  lemma {:induction false} StrLessTotal(a: string, b: string)
    requires a != b
    ensures StrLess(a, b) || StrLess(b, a)
  {
    if a != [] && b != [] && a[0] == b[0] {
      assert a == [a[0]] + a[1..] && b == [b[0]] + b[1..];
      StrLessTotal(a[1..], b[1..]);
    }
  }

  lemma StrLessIsTotal()
    ensures StrictTotalOrder(StrLess)
  {
    forall a: string ensures !StrLess(a, a) { StrLessIrreflexive(a); }
    forall a: string, b: string, c: string | StrLess(a, b) && StrLess(b, c)
      ensures StrLess(a, c)
    {
      StrLessTransitive(a, b, c);
    }
    forall a: string, b: string | a != b ensures StrLess(a, b) || StrLess(b, a) {
      StrLessTotal(a, b);
    }
  }
}
