/** The set of ids that `remove` deletes: an item together with all of its
    transitive descendants, collected by the recursive `walk`. */
module Subtree {
  import opened RabTypes

  /** `id` and the ids of every item below it. */
  function Closure(all: seq<Node>, id: string): set<string>
    requires Acyclic(all) && id in Ids(all)
    decreases RankOf(all, id) + 1, 0
  {
    ChildrenBound(all, id, ChildrenOf(all, Some(id)));
    {id} + ClosureOfSeq(all, ChildrenOf(all, Some(id)))
  }

  /** The union of the closures of `ks`, taken left to right. */
  function ClosureOfSeq(all: seq<Node>, ks: seq<Node>): set<string>
    requires Acyclic(all) && forall k | k in ks :: k in all
    decreases RankBound(all, ks), |ks| + 1
  {
    if ks == [] then {}
    else
      assert ks[|ks| - 1] in ks;
      ClosureOfSeq(all, ks[..|ks| - 1]) + Closure(all, ks[|ks| - 1].id)
  }

  /** `walk(id)`: adds `id` to the set, then walks each child in list
      order. The mutable `Set` of the editor is threaded through as `acc`. */
  method Walk(all: seq<Node>, id: string, acc: set<string>) returns (ids: set<string>)
    requires Acyclic(all) && id in Ids(all)
    ensures ids == acc + Closure(all, id)
    decreases RankOf(all, id)
  {
    ids := acc + {id};
    var kids := ChildrenOf(all, Some(id));
    for i := 0 to |kids|
      invariant ids == acc + {id} + ClosureOfSeq(all, kids[..i])
    {
      assert kids[i] in kids;
      ChildRankBelow(all, kids[i], id);
      ids := Walk(all, kids[i].id, ids);
      assert kids[..i + 1][..i] == kids[..i];
    }
    assert kids[..|kids|] == kids;
  }

  lemma {:induction false} ClosureOfSeqMember(all: seq<Node>, ks: seq<Node>, y: string)
    requires Acyclic(all) && forall k | k in ks :: k in all
    ensures y in ClosureOfSeq(all, ks) <==> exists i :: 0 <= i < |ks| && y in Closure(all, ks[i].id)
    decreases |ks|
  {
    if ks != [] {
      var ks0 := ks[..|ks| - 1];
      ClosureOfSeqMember(all, ks0, y);
      if y in ClosureOfSeq(all, ks) && y !in Closure(all, ks[|ks| - 1].id) {
        var i :| 0 <= i < |ks0| && y in Closure(all, ks0[i].id);
        assert ks[i] == ks0[i];
      }
      if i :| 0 <= i < |ks| && y in Closure(all, ks[i].id) {
        if i < |ks| - 1 {
          assert ks0[i] == ks[i];
        }
      }
    }
  }

  /** A child's closure lies inside its parent's. */
  lemma ChildClosureWithin(all: seq<Node>, id: string, k: Node)
    requires Acyclic(all) && id in Ids(all) && k in all && k.parentId == Some(id)
    ensures Closure(all, k.id) <= Closure(all, id)
  {
    var kids := ChildrenOf(all, Some(id));
    var i :| 0 <= i < |kids| && kids[i] == k;
    forall y | y in Closure(all, k.id) ensures y in Closure(all, id) {
      ClosureOfSeqMember(all, kids, y);
    }
  }

  /** Everything in a closure is an existing id ranked no higher than the
      root of the closure. */
  lemma {:induction false} ClosureWithin(all: seq<Node>, id: string)
    requires Acyclic(all) && id in Ids(all)
    ensures Closure(all, id) <= Ids(all)
    ensures forall y | y in Closure(all, id) :: RankOf(all, y) <= RankOf(all, id)
    decreases RankOf(all, id)
  {
    var kids := ChildrenOf(all, Some(id));
    forall y | y in Closure(all, id) && y != id
      ensures y in Ids(all) && RankOf(all, y) <= RankOf(all, id)
    {
      ClosureOfSeqMember(all, kids, y);
      var i :| 0 <= i < |kids| && y in Closure(all, kids[i].id);
      assert kids[i] in kids;
      ChildRankBelow(all, kids[i], id);
      ClosureWithin(all, kids[i].id);
    }
  }

  /** Every id in a closure other than its root belongs to an item whose
      parent is in the closure. */
  lemma {:induction false} ClosureParent(all: seq<Node>, id: string, y: string)
    requires Acyclic(all) && id in Ids(all) && y in Closure(all, id) && y != id
    ensures exists x :: x in all && x.id == y && x.parentId.Some? && x.parentId.value in Closure(all, id)
    decreases RankOf(all, id)
  {
    var kids := ChildrenOf(all, Some(id));
    ClosureOfSeqMember(all, kids, y);
    var i :| 0 <= i < |kids| && y in Closure(all, kids[i].id);
    var k := kids[i];
    assert k in kids;
    ChildClosureWithin(all, id, k);
    if y != k.id {
      ChildRankBelow(all, k, id);
      ClosureParent(all, k.id, y);
    }
  }

  /** The closure is closed under "is a child of". */
  lemma {:induction false} ClosureClosedUnderChildren(all: seq<Node>, id: string, p: string, x: Node)
    requires Acyclic(all) && id in Ids(all) && p in Closure(all, id)
    requires x in all && x.parentId == Some(p)
    ensures x.id in Closure(all, id)
    decreases RankOf(all, id)
  {
    if p == id {
      ChildClosureWithin(all, id, x);
    } else {
      var kids := ChildrenOf(all, Some(id));
      ClosureOfSeqMember(all, kids, p);
      var i :| 0 <= i < |kids| && p in Closure(all, kids[i].id);
      assert kids[i] in kids;
      ChildRankBelow(all, kids[i], id);
      ClosureClosedUnderChildren(all, kids[i].id, p, x);
      ChildClosureWithin(all, id, kids[i]);
    }
  }

  /** The closure is the least set that holds `id` and is closed under
      "is a child of": it holds nothing but descendants. */
  lemma {:induction false} ClosureLeast(all: seq<Node>, id: string, s: set<string>)
    requires Acyclic(all) && id in Ids(all) && id in s
    requires forall x | x in all && x.parentId.Some? && x.parentId.value in s :: x.id in s
    ensures Closure(all, id) <= s
    decreases RankOf(all, id)
  {
    var kids := ChildrenOf(all, Some(id));
    forall y | y in Closure(all, id) && y != id ensures y in s {
      ClosureOfSeqMember(all, kids, y);
      var i :| 0 <= i < |kids| && y in Closure(all, kids[i].id);
      assert kids[i] in kids;
      ChildRankBelow(all, kids[i], id);
      ClosureLeast(all, kids[i].id, s);
    }
  }

  /** No item is its own descendant: the parent of an item is never in the
      item's closure. */
  lemma ParentNotInClosure(all: seq<Node>, x: Node)
    requires Acyclic(all) && x in all && x.parentId.Some? && x.parentId.value in Ids(all)
    ensures x.parentId.value !in Closure(all, x.id)
  {
    ClosureWithin(all, x.id);
    ChildRankBelow(all, x, x.parentId.value);
  }

  /** Two closures that share an id are nested. */
  lemma ClosuresMeet(all: seq<Node>, z1: string, z2: string, y: string)
    requires UniqueIds(all) && Acyclic(all) && z1 in Ids(all) && z2 in Ids(all)
    requires y in Closure(all, z1) && y in Closure(all, z2)
    ensures z1 in Closure(all, z2) || z2 in Closure(all, z1)
    decreases RankOf(all, z1) - RankOf(all, y)
  {
    if y != z1 && y != z2 {
      ClosureParent(all, z1, y);
      ClosureParent(all, z2, y);
      var x1 :| x1 in all && x1.id == y && x1.parentId.Some? && x1.parentId.value in Closure(all, z1);
      var x2 :| x2 in all && x2.id == y && x2.parentId.Some? && x2.parentId.value in Closure(all, z2);
      UniqueIdsSameItem(all, x1, x2);
      var p := x1.parentId.value;
      ClosureWithin(all, z1);
      ChildRankBelow(all, x1, p);
      ClosuresMeet(all, z1, z2, p);
    }
  }

  /** Distinct items with the same parent (or both top-level) have disjoint
      closures. */
  lemma SiblingClosuresDisjoint(all: seq<Node>, k1: Node, k2: Node)
    requires UniqueIds(all) && Acyclic(all) && k1 in all && k2 in all
    requires k1 != k2 && k1.parentId == k2.parentId
    ensures Closure(all, k1.id) !! Closure(all, k2.id)
  {
    if k1.id == k2.id {
      UniqueIdsSameItem(all, k1, k2);
    }
    if y :| y in Closure(all, k1.id) && y in Closure(all, k2.id) {
      ClosuresMeet(all, k1.id, k2.id, y);
      SiblingNotInClosure(all, k1, k2);
      SiblingNotInClosure(all, k2, k1);
      assert false;
    }
  }

  /** An item never lies below its own sibling. */
  lemma SiblingNotInClosure(all: seq<Node>, k1: Node, k2: Node)
    requires UniqueIds(all) && Acyclic(all) && k1 in all && k2 in all
    requires k1.id != k2.id && k1.parentId == k2.parentId
    ensures k1.id !in Closure(all, k2.id)
  {
    if k1.id in Closure(all, k2.id) {
      ClosureParent(all, k2.id, k1.id);
      var x :| x in all && x.id == k1.id && x.parentId.Some? && x.parentId.value in Closure(all, k2.id);
      UniqueIdsSameItem(all, x, k1);
      ClosureWithin(all, k2.id);
      ChildRankBelow(all, k2, x.parentId.value);
      assert false;
    }
  }
}
