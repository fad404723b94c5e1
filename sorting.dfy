/** Ordering siblings by `urutan ?? 0`, as the comparator
    `(a, b) => (a.urutan ?? 0) - (b.urutan ?? 0)` does under JavaScript's
    stable `Array.prototype.sort`. The sort is an insertion sort that keeps
    equal keys in input order; `SortByUrutan` is the in-place version on an
    array. */
module Sorting {
  import opened RabTypes

  ghost predicate SortedByKey(s: seq<Node>) {
    forall i, j | 0 <= i < j < |s| :: Key(s[i]) <= Key(s[j])
  }

  /** Inserts `x` after every element whose key does not exceed its own,
      scanning from the back. */
  function Insert(s: seq<Node>, x: Node): (r: seq<Node>)
    ensures |r| == |s| + 1
  {
    if s == [] then [x]
    else if Key(s[|s| - 1]) <= Key(x) then s + [x]
    else
      var s0, last := s[..|s| - 1], s[|s| - 1];
      assert s == s0 + [last];
      Insert(s0, x) + [last]
  }

  lemma {:induction false} InsertPermutes(s: seq<Node>, x: Node)
    ensures multiset(Insert(s, x)) == multiset(s) + multiset{x}
    decreases |s|
  {
    if s != [] && Key(s[|s| - 1]) > Key(x) {
      var s0, last := s[..|s| - 1], s[|s| - 1];
      assert s == s0 + [last];
      InsertPermutes(s0, x);
    }
  }

  lemma {:induction false} InsertSorted(s: seq<Node>, x: Node)
    requires SortedByKey(s)
    ensures SortedByKey(Insert(s, x))
    decreases |s|
  {
    if s != [] && Key(s[|s| - 1]) > Key(x) {
      var s0, last := s[..|s| - 1], s[|s| - 1];
      assert s == s0 + [last];
      InsertSorted(s0, x);
      InsertPermutes(s0, x);
      var r0 := Insert(s0, x);
      forall y | y in r0 ensures Key(y) <= Key(last) {
        assert y in multiset(r0);
        if y != x {
          assert y in s0;
        }
      }
    }
  }

  /** The stable sort of `s` by key. */
  function SortByKey(s: seq<Node>): (r: seq<Node>)
    ensures |r| == |s|
  {
    if s == [] then []
    else Insert(SortByKey(s[..|s| - 1]), s[|s| - 1])
  }

  /** The sorted list is ordered by key and is a permutation of the input. */
  lemma {:induction false} SortByKeySortedPermutation(s: seq<Node>)
    ensures SortedByKey(SortByKey(s))
    ensures multiset(SortByKey(s)) == multiset(s)
    ensures forall x :: x in SortByKey(s) <==> x in s
    decreases |s|
  {
    if s != [] {
      var s0, x := s[..|s| - 1], s[|s| - 1];
      assert s == s0 + [x];
      SortByKeySortedPermutation(s0);
      InsertSorted(SortByKey(s0), x);
      InsertPermutes(SortByKey(s0), x);
    }
    forall y ensures y in SortByKey(s) <==> y in s {
      assert y in SortByKey(s) <==> y in multiset(SortByKey(s));
      assert y in s <==> y in multiset(s);
    }
  }

  lemma SortByKeySnoc(s: seq<Node>, x: Node)
    ensures SortByKey(s + [x]) == Insert(SortByKey(s), x)
  {
    assert (s + [x])[..|s|] == s;
  }

  /** The elements of `s` whose key is `k`, in order. */
  function KeyFilter(s: seq<Node>, k: int): (r: seq<Node>)
    ensures |r| <= |s|
  {
    if s == [] then []
    else if Key(s[|s| - 1]) == k then KeyFilter(s[..|s| - 1], k) + [s[|s| - 1]]
    else KeyFilter(s[..|s| - 1], k)
  }

  lemma KeyFilterSnoc(s: seq<Node>, x: Node, k: int)
    ensures KeyFilter(s + [x], k) == KeyFilter(s, k) + (if Key(x) == k then [x] else [])
  {
    assert (s + [x])[..|s|] == s;
  }

  /** Inserting `x` never reorders the elements already present, and `x`
      lands after every element with its own key. */
  lemma {:induction false} InsertKeyFilter(s: seq<Node>, x: Node, k: int)
    ensures KeyFilter(Insert(s, x), k) == KeyFilter(s, k) + (if Key(x) == k then [x] else [])
    decreases |s|
  {
    if s == [] {
      KeyFilterSnoc([], x, k);
    } else if Key(s[|s| - 1]) <= Key(x) {
      KeyFilterSnoc(s, x, k);
    } else {
      var s0, last := s[..|s| - 1], s[|s| - 1];
      assert s == s0 + [last];
      assert Insert(s, x) == Insert(s0, x) + [last];
      var e := if Key(x) == k then [x] else [];
      var l := if Key(last) == k then [last] else [];
      InsertKeyFilter(s0, x, k);
      KeyFilterSnoc(Insert(s0, x), last, k);
      KeyFilterSnoc(s0, last, k);
      assert e == [] || l == [];
      assert KeyFilter(Insert(s, x), k) == KeyFilter(s0, k) + e + l;
      assert KeyFilter(s, k) == KeyFilter(s0, k) + l;
    }
  }

  /** Stability: for every key, the elements carrying it appear in the sorted
      list in the same order as in the input. */
  lemma {:induction false} SortByKeyStable(s: seq<Node>, k: int)
    ensures KeyFilter(SortByKey(s), k) == KeyFilter(s, k)
    decreases |s|
  {
    if s != [] {
      var s0, x := s[..|s| - 1], s[|s| - 1];
      assert s == s0 + [x];
      SortByKeyStable(s0, k);
      InsertKeyFilter(SortByKey(s0), x, k);
      KeyFilterSnoc(s0, x, k);
    }
  }

  /** `r` is `s` sorted by key, stably. */
  ghost predicate StableSortOf(r: seq<Node>, s: seq<Node>) {
    && SortedByKey(r)
    && multiset(r) == multiset(s)
    && forall k :: KeyFilter(r, k) == KeyFilter(s, k)
  }

  lemma SortByKeyIsStableSort(s: seq<Node>)
    ensures StableSortOf(SortByKey(s), s)
  {
    SortByKeySortedPermutation(s);
    forall k ensures KeyFilter(SortByKey(s), k) == KeyFilter(s, k) {
      SortByKeyStable(s, k);
    }
  }

  /** Appending an element whose key is at least every other key leaves it
      last in the sorted order. */
  lemma SortByKeyAppendMax(s: seq<Node>, x: Node)
    requires forall y | y in s :: Key(y) <= Key(x)
    ensures SortByKey(s + [x]) == SortByKey(s) + [x]
  {
    SortByKeySnoc(s, x);
    SortByKeySortedPermutation(s);
    var t := SortByKey(s);
    if t != [] {
      assert t[|t| - 1] in t;
    }
  }

  /** In a sorted non-empty list the last key is the largest. */
  lemma SortedLastIsMax(s: seq<Node>)
    requires s != []
    ensures forall y | y in SortByKey(s) :: Key(y) <= Key(SortByKey(s)[|s| - 1])
    ensures forall y | y in s :: Key(y) <= Key(SortByKey(s)[|s| - 1])
  {
    SortByKeySortedPermutation(s);
    var t := SortByKey(s);
    forall y | y in s ensures Key(y) <= Key(t[|s| - 1]) {
      var i :| 0 <= i < |t| && t[i] == y;
    }
  }

  /** Where the back-to-front scan of `Insert` stops. */
  lemma {:induction false} InsertAt(s: seq<Node>, x: Node, j: nat)
    requires j <= |s|
    requires forall m | j <= m < |s| :: Key(s[m]) > Key(x)
    requires j > 0 ==> Key(s[j - 1]) <= Key(x)
    ensures Insert(s, x) == s[..j] + [x] + s[j..]
    decreases |s|
  {
    if j < |s| {
      var s0, last := s[..|s| - 1], s[|s| - 1];
      assert Key(last) > Key(x);
      assert Insert(s, x) == Insert(s0, x) + [last];
      forall m | j <= m < |s0| ensures Key(s0[m]) > Key(x) {
        assert s0[m] == s[m];
      }
      assert j > 0 ==> Key(s0[j - 1]) <= Key(x) by {
        if j > 0 { assert s0[j - 1] == s[j - 1]; }
      }
      InsertAt(s0, x, j);
      assert s0[..j] == s[..j];
      assert s0[j..] + [last] == s[j..];
    } else {
      assert s[..j] == s;
      assert s[j..] == [];
    }
  }

  /** One step of the insertion sort: shifts the larger elements of the
      sorted prefix `a[..i]` right by one and drops `a[i]` into the gap. */
  method InsertInPlace(a: array<Node>, i: nat)
    requires i < a.Length
    modifies a
    ensures a[..] == Insert(old(a[..i]), old(a[i])) + old(a[i + 1..])
  {
    ghost var sorted, rest := a[..i], a[i + 1..];
    var x := a[i];
    var j := i;
    ShiftStart(a[..], i);
    while j > 0 && Key(a[j - 1]) > Key(x)
      invariant 0 <= j <= i
      invariant Shifting(a[..], sorted, x, rest, j)
    {
      ShiftStep(a[..], sorted, x, rest, j);
      a[j] := a[j - 1];
      j := j - 1;
    }
    ShiftDone(a[..], sorted, x, rest, j);
    a[j] := x;
  }

  /** The array during the scan of `InsertInPlace`: the elements of `sorted`
      from `j` on have moved one place right, the gap is at `j`, and all of
      them rank above `x`. */
  ghost predicate Shifting(b: seq<Node>, sorted: seq<Node>, x: Node, rest: seq<Node>, j: nat) {
    && j <= |sorted|
    && |b| == |sorted| + 1 + |rest|
    && b[..j] == sorted[..j]
    && b[j + 1..|sorted| + 1] == sorted[j..]
    && b[|sorted| + 1..] == rest
    && forall m | j <= m < |sorted| :: Key(sorted[m]) > Key(x)
  }

  lemma ShiftStart(b: seq<Node>, i: nat)
    requires i < |b|
    ensures Shifting(b, b[..i], b[i], b[i + 1..], i)
  {
  }

  lemma ShiftStep(b: seq<Node>, sorted: seq<Node>, x: Node, rest: seq<Node>, j: nat)
    requires Shifting(b, sorted, x, rest, j) && j > 0 && Key(b[j - 1]) > Key(x)
    ensures Shifting(b[j := b[j - 1]], sorted, x, rest, j - 1)
  {
    var c := b[j := b[j - 1]];
    assert c[..j - 1] == b[..j - 1];
    assert c[j..|sorted| + 1] == [b[j - 1]] + b[j + 1..|sorted| + 1];
    assert sorted[j - 1..] == [sorted[j - 1]] + sorted[j..];
    assert c[|sorted| + 1..] == b[|sorted| + 1..];
  }

  lemma ShiftDone(b: seq<Node>, sorted: seq<Node>, x: Node, rest: seq<Node>, j: nat)
    requires Shifting(b, sorted, x, rest, j) && (j == 0 || Key(b[j - 1]) <= Key(x))
    ensures b[j := x] == Insert(sorted, x) + rest
  {
    InsertAt(sorted, x, j);
    var c := b[j := x];
    assert c == c[..j] + [x] + c[j + 1..|sorted| + 1] + c[|sorted| + 1..];
  }

  /** The array before step `i` of the sort, split into its sorted prefix,
      the next element and the untouched rest. */
  lemma SortStep(orig: seq<Node>, i: nat)
    requires i < |orig|
    ensures var s := SortByKey(orig[..i]) + orig[i..];
      && s[..i] == SortByKey(orig[..i])
      && s[i] == orig[i]
      && s[i + 1..] == orig[i + 1..]
      && SortByKey(orig[..i + 1]) + orig[i + 1..] == Insert(s[..i], s[i]) + s[i + 1..]
  {
    assert orig[..i + 1] == orig[..i] + [orig[i]];
    SortByKeySnoc(orig[..i], orig[i]);
  }

  /** Stable in-place insertion sort by `urutan ?? 0` (the `sort` calls
      inside the tree builder). */
  method SortByUrutan(a: array<Node>)
    modifies a
    ensures a[..] == SortByKey(old(a[..]))
  {
    ghost var orig := a[..];
    for i := 0 to a.Length
      invariant a[..] == SortByKey(orig[..i]) + orig[i..]
    {
      SortStep(orig, i);
      InsertInPlace(a, i);
    }
    assert orig[..a.Length] == orig;
  }
}
