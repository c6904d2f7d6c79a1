/** The stable descending sort both `giftsArray.sort((a, b) => b.percentage - a.percentage)`
    and the `created_at` sort of the report script perform. A comparator of the form
    `key(b) - key(a)` with a stable engine sort orders by `key` descending and keeps equal
    keys in their original order; that outcome is unique, so it is modelled here by
    insertion sort and proved sorted, a permutation and stable. */
module StableSort {

  predicate NonIncreasing<T>(s: seq<T>, key: T -> int) {
    forall i, j :: 0 <= i < j < |s| ==> key(s[i]) >= key(s[j])
  }

  /** Elements with equal keys appear in `r` in the order they have in `s`. */
  ghost predicate StableWrt<T>(s: seq<T>, r: seq<T>, key: T -> int) {
    forall i, j :: 0 <= i < j < |r| && key(r[i]) == key(r[j]) ==>
      exists i', j' :: 0 <= i' < j' < |s| && s[i'] == r[i] && s[j'] == r[j]
  }

  /** Where `x` goes in `t`: after the last element whose key is at least `key(x)`. */
  function InsertPos<T>(t: seq<T>, x: T, key: T -> int): (p: nat)
    ensures p <= |t|
    ensures forall k :: p <= k < |t| ==> key(t[k]) < key(x)
    ensures p > 0 ==> key(t[p - 1]) >= key(x)
  {
    if t == [] then 0
    else if key(t[|t| - 1]) < key(x) then InsertPos(t[..|t| - 1], x, key)
    else |t|
  }

  function Insert<T>(t: seq<T>, x: T, key: T -> int): seq<T> {
    var p := InsertPos(t, x, key);
    t[..p] + [x] + t[p..]
  }

  /** The element at each position after an insertion. */
  lemma InsertIndex<T>(t: seq<T>, x: T, key: T -> int, k: int)
    requires 0 <= k <= |t|
    ensures var p := InsertPos(t, x, key);
      && |Insert(t, x, key)| == |t| + 1
      && Insert(t, x, key)[k] == (if k < p then t[k] else if k == p then x else t[k - 1])
  {
  }

  function Sort<T>(s: seq<T>, key: T -> int): seq<T> {
    if s == [] then [] else Insert(Sort(s[..|s| - 1], key), s[|s| - 1], key)
  }

  lemma InsertPermutes<T>(t: seq<T>, x: T, key: T -> int)
    ensures multiset(Insert(t, x, key)) == multiset(t) + multiset{x}
  {
    var p := InsertPos(t, x, key);
    assert t == t[..p] + t[p..];
  }

  lemma InsertKeepsOrder<T>(t: seq<T>, x: T, key: T -> int)
    requires NonIncreasing(t, key)
    ensures NonIncreasing(Insert(t, x, key), key)
  {
    var p := InsertPos(t, x, key);
    var r := Insert(t, x, key);
    forall i, j | 0 <= i < j < |r| ensures key(r[i]) >= key(r[j]) {
      if i < p && j == p { assert key(t[i]) >= key(t[p - 1]); }
    }
  }

  /** The sorted sequence holds the same elements, as many times each. */
  lemma {:induction false} SortPermutes<T>(s: seq<T>, key: T -> int)
    ensures multiset(Sort(s, key)) == multiset(s)
  {
    if s != [] {
      var front := s[..|s| - 1];
      SortPermutes(front, key);
      InsertPermutes(Sort(front, key), s[|s| - 1], key);
      assert s == front + [s[|s| - 1]];
    }
  }

  /** The sorted sequence is non-increasing in the key. */
  lemma {:induction false} SortOrders<T>(s: seq<T>, key: T -> int)
    ensures NonIncreasing(Sort(s, key), key)
  {
    if s != [] {
      SortOrders(s[..|s| - 1], key);
      InsertKeepsOrder(Sort(s[..|s| - 1], key), s[|s| - 1], key);
    }
  }

  /** Equal keys keep the order they had in the input. */
  lemma {:induction false} SortIsStable<T>(s: seq<T>, key: T -> int)
    ensures StableWrt(s, Sort(s, key), key)
  {
    if s != [] {
      var front := s[..|s| - 1];
      SortIsStable(front, key);
      SortPermutes(front, key);
      SortOrders(front, key);
      forall i, j | 0 <= i < j < |Sort(s, key)| && key(Sort(s, key)[i]) == key(Sort(s, key)[j])
        ensures exists i', j' :: 0 <= i' < j' < |s| && s[i'] == Sort(s, key)[i] && s[j'] == Sort(s, key)[j]
      {
        InsertStablePair(s, key, i, j);
      }
    }
  }

  /** One pair of equal keys after the last element of `s` has been inserted. */
  lemma InsertStablePair<T>(s: seq<T>, key: T -> int, i: int, j: int)
    requires s != []
    requires StableWrt(s[..|s| - 1], Sort(s[..|s| - 1], key), key)
    requires multiset(Sort(s[..|s| - 1], key)) == multiset(s[..|s| - 1])
    requires NonIncreasing(Sort(s[..|s| - 1], key), key)
    requires 0 <= i < j < |Sort(s, key)| && key(Sort(s, key)[i]) == key(Sort(s, key)[j])
    ensures exists i', j' :: 0 <= i' < j' < |s| && s[i'] == Sort(s, key)[i] && s[j'] == Sort(s, key)[j]
  {
    var front, x := s[..|s| - 1], s[|s| - 1];
    var t := Sort(front, key);
    var p := InsertPos(t, x, key);
    if i <= p < j {
      NoTieAcross(t, x, key, i, j);
      assert false;
    }
    var r := Sort(s, key);
    InsertIndex(t, x, key, i);
    InsertIndex(t, x, key, j);
    if j == p {
      assert t[i] in multiset(front);
      var i' :| 0 <= i' < |front| && front[i'] == t[i];
      assert s[i'] == r[i] && s[|s| - 1] == r[j];
    } else {
      var ti, tj := if i < p then i else i - 1, if j < p then j else j - 1;
      LiftPair(s, front, t, ti, tj);
      assert r[i] == t[ti] && r[j] == t[tj];
    }
  }

  /** A pair that is in order in the front of `s` is in order in `s`. */
  lemma LiftPair<T>(s: seq<T>, front: seq<T>, t: seq<T>, ti: int, tj: int)
    requires s != [] && front == s[..|s| - 1] && 0 <= ti < tj < |t|
    requires exists i', j' :: 0 <= i' < j' < |front| && front[i'] == t[ti] && front[j'] == t[tj]
    ensures exists i', j' :: 0 <= i' < j' < |s| && s[i'] == t[ti] && s[j'] == t[tj]
  {
    var i', j' :| 0 <= i' < j' < |front| && front[i'] == t[ti] && front[j'] == t[tj];
    assert s[i'] == t[ti] && s[j'] == t[tj];
  }

  /** In a non-increasing sequence, nothing at or before the insertion point ties with
      anything after it. */
  lemma NoTieAcross<T>(t: seq<T>, x: T, key: T -> int, i: int, j: int)
    requires NonIncreasing(t, key)
    requires 0 <= i <= InsertPos(t, x, key) < j <= |t|
    ensures key(Insert(t, x, key)[i]) > key(Insert(t, x, key)[j])
  {
    var p := InsertPos(t, x, key);
    InsertIndex(t, x, key, i);
    InsertIndex(t, x, key, j);
    if i < p {
      assert key(t[i]) >= key(t[p - 1]);
    }
  }

  ghost predicate DistinctBy<T, K>(s: seq<T>, f: T -> K) {
    forall i, j :: 0 <= i < j < |s| ==> f(s[i]) != f(s[j])
  }

  lemma Twice<T>(r: seq<T>, i: int, j: int)
    requires 0 <= i < j < |r| && r[i] == r[j]
    ensures multiset(r)[r[i]] >= 2
  {
    assert r == r[..j] + r[j..];
    assert r[i] == r[..j][i];
    assert r[j..][0] == r[j];
  }

  lemma {:induction false} OnceEach<T, K>(s: seq<T>, f: T -> K, x: T)
    requires DistinctBy(s, f)
    ensures multiset(s)[x] <= 1
  {
    if s != [] {
      var front := s[..|s| - 1];
      assert DistinctBy(front, f);
      OnceEach(front, f, x);
      assert s == front + [s[|s| - 1]];
      if x == s[|s| - 1] {
        forall k | 0 <= k < |front| ensures front[k] != x {
          assert f(s[k]) != f(s[|s| - 1]);
        }
        assert x !in front;
      }
    }
  }

  /** A permutation of a sequence whose elements differ under `f` differs under `f` too. */
  lemma PermutationKeepsDistinct<T, K>(r: seq<T>, s: seq<T>, f: T -> K)
    requires multiset(r) == multiset(s)
    requires DistinctBy(s, f)
    ensures DistinctBy(r, f)
  {
    forall i, j | 0 <= i < j < |r| ensures f(r[i]) != f(r[j]) {
      OnceEach(s, f, r[i]);
      if r[i] == r[j] {
        Twice(r, i, j);
        assert false;
      }
      assert r[i] in multiset(s) && r[j] in multiset(s);
      var i' :| 0 <= i' < |s| && s[i'] == r[i];
      var j' :| 0 <= j' < |s| && s[j'] == r[j];
      if i' < j' { assert f(s[i']) != f(s[j']); }
      else { assert f(s[j']) != f(s[i']); }
    }
  }

  /** One step of the in-place sort: `a[i]` moves left past every element of the sorted
      prefix `a[..i]` with a smaller key, the rest of the array is untouched. */
  method InsertInPlace<T>(a: array<T>, i: nat, key: T -> int)
    requires i < a.Length
    modifies a
    ensures a[..i + 1] == Insert(old(a[..i]), old(a[i]), key)
    ensures a[i + 1..] == old(a[i + 1..])
  {
    ghost var t := a[..i];
    var x := a[i];
    var j := ShiftRight(a, i, x, key);
    a[j] := x;
    InsertFinish(a[..i + 1], t, x, key, j);
  }

  /** The inner loop of InsertInPlace: shifts right, by one place, the elements at the end
      of `a[..i]` whose key is smaller than `key(x)`, and returns the gap it leaves. */
  method ShiftRight<T>(a: array<T>, i: nat, x: T, key: T -> int) returns (j: nat)
    requires i < a.Length
    modifies a
    ensures j <= i
    ensures forall k :: 0 <= k < j ==> a[k] == old(a[k])
    ensures forall k :: j < k <= i ==> a[k] == old(a[k - 1])
    ensures forall k :: i < k < a.Length ==> a[k] == old(a[k])
    ensures j == 0 || key(a[j - 1]) >= key(x)
    ensures forall k :: j < k <= i ==> key(a[k]) < key(x)
  {
    ghost var t := a[..i];
    j := i;
    while j > 0 && key(a[j - 1]) < key(x)
      invariant 0 <= j <= i
      invariant forall k :: 0 <= k < j ==> a[k] == t[k]
      invariant forall k :: j < k <= i ==> a[k] == t[k - 1]
      invariant forall k :: i < k < a.Length ==> a[k] == old(a[k])
      invariant forall k :: j < k <= i ==> key(a[k]) < key(x)
    {
      a[j] := a[j - 1];
      j := j - 1;
    }
  }

  /** The insertion point is the `j` after which every key is smaller than `key(x)` and
      before which the key is not. */
  lemma {:induction false} InsertPosIs<T>(t: seq<T>, x: T, key: T -> int, j: int)
    requires 0 <= j <= |t|
    requires j == 0 || key(t[j - 1]) >= key(x)
    requires forall k :: j <= k < |t| ==> key(t[k]) < key(x)
    ensures InsertPos(t, x, key) == j
    decreases |t|
  {
    if |t| > j {
      InsertPosIs(t[..|t| - 1], x, key, j);
    }
  }

  lemma InsertFinish<T>(b: seq<T>, t: seq<T>, x: T, key: T -> int, j: int)
    requires 0 <= j <= |t| && |b| == |t| + 1
    requires j == 0 || key(t[j - 1]) >= key(x)
    requires forall k :: 0 <= k < j ==> b[k] == t[k]
    requires b[j] == x
    requires forall k :: j < k <= |t| ==> b[k] == t[k - 1]
    requires forall k :: j < k <= |t| ==> key(b[k]) < key(x)
    ensures b == Insert(t, x, key)
  {
    forall k | j <= k < |t| ensures key(t[k]) < key(x) {
      assert b[k + 1] == t[k];
    }
    InsertPosIs(t, x, key, j);
    forall k | 0 <= k <= |t| ensures b[k] == Insert(t, x, key)[k] {
      InsertIndex(t, x, key, k);
    }
  }

  /** The in-place sort: `a` ends up holding `Sort` of what it held. */
  method SortInPlace<T>(a: array<T>, key: T -> int)
    modifies a
    ensures a[..] == Sort(old(a[..]), key)
  {
    ghost var input := a[..];
    var i := 0;
    while i < a.Length
      invariant 0 <= i <= a.Length
      invariant a[..i] == Sort(input[..i], key)
      invariant a[i..] == input[i..]
    {
      assert a[i] == input[i];
      InsertInPlace(a, i, key);
      assert input[..i + 1][..i] == input[..i];
      i := i + 1;
    }
    assert input[..a.Length] == input;
  }

  /** Sorting a sequence that is already in order leaves it as it is. */
  lemma {:induction false} SortOfSorted<T>(s: seq<T>, key: T -> int)
    requires NonIncreasing(s, key)
    ensures Sort(s, key) == s
  {
    if s != [] {
      var n := |s| - 1;
      assert NonIncreasing(s[..n], key);
      SortOfSorted(s[..n], key);
      assert InsertPos(s[..n], s[n], key) == n;
      assert s[..n] + [s[n]] + s[..n][n..] == s;
    }
  }

  /** Two elements out of order change places. */
  lemma SortTwo<T>(x: T, y: T, key: T -> int)
    requires key(x) < key(y)
    ensures Sort([x, y], key) == [y, x]
  {
    assert [x, y][..1] == [x] && [x][..0] == [];
    assert Sort([x], key) == [x];
    assert InsertPos([x], y, key) == 0 by {
      assert [x][..0] == [];
    }
  }

  /** Taking the same element off the front of two permutations leaves permutations. */
  lemma DropHead<T>(a: seq<T>, b: seq<T>)
    requires multiset(a) == multiset(b)
    requires a != [] && b != [] && a[0] == b[0]
    ensures multiset(a[1..]) == multiset(b[1..])
  {
    assert a == [a[0]] + a[1..];
    assert b == [b[0]] + b[1..];
    assert multiset(a[1..]) == multiset(a) - multiset{a[0]};
    assert multiset(b[1..]) == multiset(b) - multiset{a[0]};
  }

  /** Taking the last element of `a` out of a permutation `b` of it, wherever it sits there,
      leaves a permutation of the rest of `a`. */
  lemma DropMatching<T>(a: seq<T>, b: seq<T>, j: int)
    requires multiset(a) == multiset(b)
    requires a != [] && 0 <= j < |b| && b[j] == a[|a| - 1]
    ensures multiset(a[..|a| - 1]) == multiset(b[..j] + b[j + 1..])
  {
    var x := a[|a| - 1];
    assert a == a[..|a| - 1] + [x];
    assert b == b[..j] + [x] + b[j + 1..];
    assert multiset(a[..|a| - 1]) == multiset(a) - multiset{x};
    assert multiset(b[..j] + b[j + 1..]) == multiset(b) - multiset{x};
  }

  /** Elements that differ under an injective `f` occur once each, so two such sequences
      holding the same elements are permutations of each other. */
  lemma SameElementsSameMultiset<T, K>(a: seq<T>, b: seq<T>, f: T -> K)
    requires DistinctBy(a, f) && DistinctBy(b, f)
    requires forall x :: x in a <==> x in b
    ensures multiset(a) == multiset(b)
  {
    forall x ensures multiset(a)[x] == multiset(b)[x] {
      OnceEach(a, f, x);
      OnceEach(b, f, x);
      if x in a {
        assert x in multiset(a) && x in multiset(b);
      } else {
        assert x !in multiset(a) && x !in multiset(b);
      }
    }
  }

  /** Only one arrangement of a collection is in non-increasing key order when its keys are
      pairwise different: any non-increasing permutation of a strictly decreasing sequence
      is that sequence. */
  lemma {:induction false} StrictOrderUnique<T>(a: seq<T>, b: seq<T>, key: T -> int)
    requires multiset(a) == multiset(b)
    requires forall i, j :: 0 <= i < j < |a| ==> key(a[i]) > key(a[j])
    requires NonIncreasing(b, key)
    ensures a == b
    decreases |a|
  {
    if a == [] {
      assert |b| == |multiset(b)| == 0;
    } else {
      assert |b| == |multiset(b)| == |a|;
      assert a[0] in multiset(b);
      var j :| 0 <= j < |b| && b[j] == a[0];
      assert b[0] in multiset(a);
      var i :| 0 <= i < |a| && a[i] == b[0];
      assert key(a[i]) == key(b[0]) >= key(b[j]) == key(a[0]);
      assert i == 0;
      DropHead(a, b);
      assert NonIncreasing(b[1..], key);
      StrictOrderUnique(a[1..], b[1..], key);
    }
  }
}
