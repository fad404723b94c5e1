/** Subtotals, the grand total and the value shown in an editor row.
    `Subtotal` follows the editor's recursive `subtotal`; `SumLinesIn` and
    `TotalLines` are independent definitions (plain sums of line values) that
    the lemmas below connect it to. */
module Totals {
  import opened RabTypes
  import opened Subtree

  /** An item's own value plus the subtotals of the items whose parentId is
      its id, summed left to right. */
  function Subtotal(all: seq<Node>, n: Node): int
    requires Acyclic(all) && n in all
    decreases RankOf(all, n.id) + 1, 0
  {
    var kids := ChildrenOf(all, Some(n.id));
    ChildrenBound(all, n.id, kids);
    LineValue(n) + SumSubtotals(all, kids)
  }

  /** `ks.reduce((s, k) => s + subtotal(k, all), 0)`. */
  function SumSubtotals(all: seq<Node>, ks: seq<Node>): int
    requires Acyclic(all) && forall k | k in ks :: k in all
    decreases RankBound(all, ks), |ks| + 1
  {
    if ks == [] then 0
    else
      assert ks[|ks| - 1] in ks;
      SumSubtotals(all, ks[..|ks| - 1]) + Subtotal(all, ks[|ks| - 1])
  }

  /** The total shown under the table: the subtotals of the items whose
      parentId is `null`. */
  function GrandTotal(all: seq<Node>): int
    requires Acyclic(all)
  {
    SumSubtotals(all, ChildrenOf(all, None))
  }

  /** The line values of the items whose id is in `c`. */
  function SumLinesIn(all: seq<Node>, c: set<string>): int {
    if all == [] then 0
    else
      var x := all[|all| - 1];
      SumLinesIn(all[..|all| - 1], c) + (if x.id in c then LineValue(x) else 0)
  }

  /** The line values of all items. */
  function TotalLines(all: seq<Node>): int {
    if all == [] then 0 else TotalLines(all[..|all| - 1]) + LineValue(all[|all| - 1])
  }

  /** The amount column of an editor row: the own value if it is non-zero,
      otherwise the subtotal if the row has children, otherwise blank. */
  function EditorDisplay(all: seq<Node>, n: Node): Option<int>
    requires Acyclic(all) && n in all
  {
    var jumlah := LineValue(n);
    var children := ChildrenOf(all, Some(n.id));
    if jumlah != 0 || |children| > 0 then Some(if jumlah != 0 then jumlah else Subtotal(all, n))
    else None
  }

  /** The editor's amount column is blank exactly for a childless row
      without an own value; it shows the own value when that is non-zero,
      and otherwise the sum of the line values below the row. For a
      childless row it is the subtotal, blank when that is zero. */
  lemma EditorDisplayRule(all: seq<Node>, n: Node)
    requires UniqueIds(all) && Acyclic(all) && n in all
    ensures EditorDisplay(all, n) == None <==> LineValue(n) == 0 && ChildrenOf(all, Some(n.id)) == []
    ensures LineValue(n) != 0 ==> EditorDisplay(all, n) == Some(LineValue(n))
    ensures LineValue(n) == 0 && ChildrenOf(all, Some(n.id)) != [] ==>
      EditorDisplay(all, n) == Some(SumLinesIn(all, Closure(all, n.id)))
    ensures ChildrenOf(all, Some(n.id)) == [] ==>
      EditorDisplay(all, n) == if Subtotal(all, n) == 0 then None else Some(Subtotal(all, n))
  {
    SubtotalIsSubtreeSum(all, n);
  }

  // ----- sums of line values -----

  lemma {:induction false} SumLinesInUnion(all: seq<Node>, a: set<string>, b: set<string>)
    requires a !! b
    ensures SumLinesIn(all, a + b) == SumLinesIn(all, a) + SumLinesIn(all, b)
    decreases |all|
  {
    if all != [] {
      SumLinesInUnion(all[..|all| - 1], a, b);
    }
  }

  lemma {:induction false} SumLinesInNone(all: seq<Node>, c: set<string>)
    requires forall x | x in all :: x.id !in c
    ensures SumLinesIn(all, c) == 0
    decreases |all|
  {
    if all != [] {
      assert forall x | x in all[..|all| - 1] :: x in all;
      SumLinesInNone(all[..|all| - 1], c);
    }
  }

  lemma {:induction false} SumLinesInSingle(all: seq<Node>, n: Node)
    requires UniqueIds(all) && n in all
    ensures SumLinesIn(all, {n.id}) == LineValue(n)
    decreases |all|
  {
    var all0, x := all[..|all| - 1], all[|all| - 1];
    assert all == all0 + [x];
    var i :| 0 <= i < |all| && all[i] == n;
    if i == |all| - 1 {
      forall y | y in all0 ensures y.id != n.id {
        var j :| 0 <= j < |all0| && all0[j] == y;
        assert all[j] == y;
      }
      SumLinesInNone(all0, {n.id});
    } else {
      assert all0[i] == n;
      assert x.id != n.id;
      SumLinesInSingle(all0, n);
    }
  }

  lemma {:induction false} SumLinesInCovering(all: seq<Node>, c: set<string>)
    requires Ids(all) <= c
    ensures SumLinesIn(all, c) == TotalLines(all)
    decreases |all|
  {
    if all != [] {
      var all0 := all[..|all| - 1];
      assert all[|all| - 1] in all;
      assert Ids(all0) <= Ids(all) by {
        forall y | y in all0 ensures y in all { }
      }
      SumLinesInCovering(all0, c);
    }
  }

  /** Two lists of the same shape whose line values agree on `c` have the
      same sum over `c`. */
  lemma {:induction false} SumLinesInSameShape(a: seq<Node>, b: seq<Node>, c: set<string>)
    requires SameShape(a, b)
    requires forall i | 0 <= i < |a| && a[i].id in c :: LineValue(a[i]) == LineValue(b[i])
    ensures SumLinesIn(a, c) == SumLinesIn(b, c)
    decreases |a|
  {
    if a != [] {
      var a0, b0 := a[..|a| - 1], b[..|b| - 1];
      forall i | 0 <= i < |a0| ensures a0[i] == a[i] && b0[i] == b[i] { }
      SumLinesInSameShape(a0, b0, c);
    }
  }

  // ----- subtotal is the sum over the subtree -----

  /** A subtotal is the sum of the line values of the item and all of its
      descendants. */
  lemma {:induction false} SubtotalIsSubtreeSum(all: seq<Node>, n: Node)
    requires UniqueIds(all) && Acyclic(all) && n in all
    ensures Subtotal(all, n) == SumLinesIn(all, Closure(all, n.id))
    decreases RankOf(all, n.id) + 1, 0
  {
    var kids := ChildrenOf(all, Some(n.id));
    ChildrenBound(all, n.id, kids);
    SiblingsDisjoint(all, kids);
    SumSubtotalsIsClosureSum(all, kids);
    NotBelowItself(all, n);
    SumLinesInUnion(all, {n.id}, ClosureOfSeq(all, kids));
    SumLinesInSingle(all, n);
  }

  /** No item lies in the closure of one of its own children. */
  lemma NotBelowItself(all: seq<Node>, n: Node)
    requires Acyclic(all) && n in all
    ensures forall k | k in ChildrenOf(all, Some(n.id)) :: k in all
    ensures n.id !in ClosureOfSeq(all, ChildrenOf(all, Some(n.id)))
  {
    var kids := ChildrenOf(all, Some(n.id));
    if n.id in ClosureOfSeq(all, kids) {
      ClosureOfSeqMember(all, kids, n.id);
      var i :| 0 <= i < |kids| && n.id in Closure(all, kids[i].id);
      assert kids[i] in kids;
      ChildRankBelow(all, kids[i], n.id);
      ClosureWithin(all, kids[i].id);
      assert false;
    }
  }

  /** The closures of `ks` are pairwise disjoint. */
  ghost predicate PairwiseDisjoint(all: seq<Node>, ks: seq<Node>)
    requires Acyclic(all) && forall k | k in ks :: k in all
  {
    forall i, j | 0 <= i < j < |ks| :: Closure(all, ks[i].id) !! Closure(all, ks[j].id)
  }

  /** Dropping the last of pairwise disjoint closures keeps the rest pairwise
      disjoint, and their union misses the last one. */
  lemma PairwiseDisjointSnoc(all: seq<Node>, ks: seq<Node>)
    requires Acyclic(all) && ks != [] && forall k | k in ks :: k in all
    requires PairwiseDisjoint(all, ks)
    ensures forall k | k in ks[..|ks| - 1] :: k in all
    ensures PairwiseDisjoint(all, ks[..|ks| - 1])
    ensures ClosureOfSeq(all, ks[..|ks| - 1]) !! Closure(all, ks[|ks| - 1].id)
  {
    var ks0 := ks[..|ks| - 1];
    assert forall k | k in ks0 :: k in ks;
    forall i, j | 0 <= i < j < |ks0| ensures Closure(all, ks0[i].id) !! Closure(all, ks0[j].id) {
      assert ks0[i] == ks[i] && ks0[j] == ks[j];
    }
    PrefixMissesLast(all, ks);
  }

  lemma PrefixMissesLast(all: seq<Node>, ks: seq<Node>)
    requires Acyclic(all) && ks != [] && forall k | k in ks :: k in all
    requires PairwiseDisjoint(all, ks)
    ensures forall k | k in ks[..|ks| - 1] :: k in all
    ensures ClosureOfSeq(all, ks[..|ks| - 1]) !! Closure(all, ks[|ks| - 1].id)
  {
    var ks0, n := ks[..|ks| - 1], |ks| - 1;
    assert forall k | k in ks0 :: k in ks;
    assert ks[n] in ks;
    forall y | y in ClosureOfSeq(all, ks0) ensures y !in Closure(all, ks[n].id) {
      ClosureOfSeqMember(all, ks0, y);
      var i :| 0 <= i < |ks0| && y in Closure(all, ks0[i].id);
      assert ks0[i] == ks[i];
    }
  }

  lemma {:induction false} SumSubtotalsIsClosureSum(all: seq<Node>, ks: seq<Node>)
    requires UniqueIds(all) && Acyclic(all) && forall k | k in ks :: k in all
    requires PairwiseDisjoint(all, ks)
    ensures SumSubtotals(all, ks) == SumLinesIn(all, ClosureOfSeq(all, ks))
    decreases RankBound(all, ks), |ks| + 1
  {
    if ks == [] {
      SumLinesInNone(all, {});
    } else {
      var ks0, last := ks[..|ks| - 1], ks[|ks| - 1];
      PairwiseDisjointSnoc(all, ks);
      SumSubtotalsIsClosureSum(all, ks0);
      SubtotalIsSubtreeSum(all, last);
      SumLinesInUnion(all, ClosureOfSeq(all, ks0), Closure(all, last.id));
    }
  }

  /** The closures of a list of siblings with distinct ids are pairwise
      disjoint. */
  lemma SiblingsDisjoint(all: seq<Node>, ks: seq<Node>)
    requires UniqueIds(all) && Acyclic(all) && UniqueIds(ks)
    requires forall k | k in ks :: k in all
    requires forall i, j | 0 <= i < |ks| && 0 <= j < |ks| :: ks[i].parentId == ks[j].parentId
    ensures PairwiseDisjoint(all, ks)
  {
    forall i, j | 0 <= i < j < |ks| ensures Closure(all, ks[i].id) !! Closure(all, ks[j].id) {
      assert ks[i] in ks && ks[j] in ks;
      SiblingClosuresDisjoint(all, ks[i], ks[j]);
    }
  }

  // ----- grand total -----

  /** In a well-formed list every item lies below some top-level item. */
  lemma {:induction false} UnderSomeRoot(all: seq<Node>, x: Node)
    requires WellFormed(all) && x in all
    ensures x.id in ClosureOfSeq(all, ChildrenOf(all, None))
    decreases RankBound(all, all) - RankOf(all, x.id)
  {
    var roots := ChildrenOf(all, None);
    ClosureOfSeqMember(all, roots, x.id);
    if x.parentId == None {
      var i :| 0 <= i < |roots| && roots[i] == x;
      assert x.id in Closure(all, roots[i].id);
    } else {
      var p := x.parentId.value;
      var q :| q in all && q.id == p;
      ChildRankBelow(all, x, p);
      UnderSomeRoot(all, q);
      ClosureOfSeqMember(all, roots, p);
      var i :| 0 <= i < |roots| && p in Closure(all, roots[i].id);
      assert roots[i] in roots;
      ClosureClosedUnderChildren(all, roots[i].id, p, x);
    }
  }

  /** For a well-formed list the grand total is the sum of every item's own
      line value: each item is counted once, under exactly one root. */
  lemma GrandTotalIsSumOfLines(all: seq<Node>)
    requires WellFormed(all)
    ensures GrandTotal(all) == TotalLines(all)
  {
    var roots := ChildrenOf(all, None);
    SiblingsDisjoint(all, roots);
    SumSubtotalsIsClosureSum(all, roots);
    forall y | y in Ids(all) ensures y in ClosureOfSeq(all, roots) {
      var x :| x in all && x.id == y;
      UnderSomeRoot(all, x);
    }
    SumLinesInCovering(all, ClosureOfSeq(all, roots));
  }

  lemma GrandTotalEmpty()
    ensures Acyclic([]) && GrandTotal([]) == 0
  {
    assert Ranked([], map[]);
  }

  /** An item with no children contributes only its own value. */
  lemma SubtotalLeaf(all: seq<Node>, n: Node)
    requires Acyclic(all) && n in all && ChildrenOf(all, Some(n.id)) == []
    ensures Subtotal(all, n) == LineValue(n)
  {
  }

  /** A subtotal depends only on the item's own subtree: two lists of the
      same shape whose line values agree inside the subtree give it the same
      subtotal, whatever happens elsewhere. */
  lemma SubtotalDependsOnlyOnSubtree(a: seq<Node>, b: seq<Node>, k: nat)
    requires UniqueIds(a) && Acyclic(a) && SameShape(a, b) && k < |a|
    requires forall i | 0 <= i < |a| && a[i].id in Closure(a, a[k].id) :: LineValue(a[i]) == LineValue(b[i])
    ensures Acyclic(b) && b[k] in b
    ensures Subtotal(b, b[k]) == Subtotal(a, a[k])
  {
    SameShapeWellFormed(a, b);
    SameShapeIds(a, b);
    assert a[k] in a && b[k] in b;
    ClosureSameShape(a, b, a[k].id);
    SubtotalIsSubtreeSum(a, a[k]);
    SubtotalIsSubtreeSum(b, b[k]);
    SumLinesInSameShape(a, b, Closure(a, a[k].id));
  }

  /** Closures depend only on ids and parents. */
  lemma ClosureSameShape(a: seq<Node>, b: seq<Node>, id: string)
    requires Acyclic(a) && SameShape(a, b) && id in Ids(a)
    ensures Acyclic(b) && id in Ids(b)
    ensures Closure(b, id) == Closure(a, id)
  {
    SameShapeWellFormed(a, b);
    SameShapeIds(a, b);
    ClosureChildClosedAcross(a, b, id);
    ClosureChildClosedAcross(b, a, id);
    ClosureLeast(a, id, Closure(b, id));
    ClosureLeast(b, id, Closure(a, id));
  }

  /** The closure taken in `a` is closed under "is a child of" in any list
      of the same shape. */
  lemma ClosureChildClosedAcross(a: seq<Node>, b: seq<Node>, id: string)
    requires Acyclic(a) && SameShape(a, b) && id in Ids(a)
    ensures forall x | x in b && x.parentId.Some? && x.parentId.value in Closure(a, id) :: x.id in Closure(a, id)
  {
    forall x | x in b && x.parentId.Some? && x.parentId.value in Closure(a, id)
      ensures x.id in Closure(a, id)
    {
      var i :| 0 <= i < |b| && b[i] == x;
      assert a[i] in a;
      ClosureClosedUnderChildren(a, id, x.parentId.value, a[i]);
    }
  }
}
