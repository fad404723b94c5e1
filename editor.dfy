/** The editor's operations on the flat list. Each returns a new list; the
    caller (`setAll`) replaces the old one with it. `uid()` is modelled as a
    caller-supplied id, fresh where a lemma says so. */
module Editor {
  import opened RabTypes
  import opened Sorting
  import opened Subtree
  import opened Totals

  // ----- update -----

  /** A `Partial<RabNode>`: `None` leaves a field out of the patch. For the
      optional fields, `Some(None)` is a field present with value
      `undefined` (an emptied number input), which clears it. */
  datatype Patch = Patch(
    id: Option<string>,
    parentId: Option<Option<string>>,
    kode: Option<Option<string>>,
    uraian: Option<string>,
    satuan: Option<Option<string>>,
    volume: Option<Option<int>>,
    hargaSatuan: Option<Option<int>>,
    urutan: Option<Option<int>>)

  /** `{ ...x, ...patch }`. */
  function ApplyPatch(x: Node, p: Patch): Node {
    Node(
      p.id.GetOr(x.id),
      p.parentId.GetOr(x.parentId),
      p.kode.GetOr(x.kode),
      p.uraian.GetOr(x.uraian),
      p.satuan.GetOr(x.satuan),
      p.volume.GetOr(x.volume),
      p.hargaSatuan.GetOr(x.hargaSatuan),
      p.urutan.GetOr(x.urutan))
  }

  /** `y` is `x` with the fields present in `p` overwritten and no other. */
  predicate PatchedFrom(y: Node, x: Node, p: Patch) {
    && y.id == (if p.id.Some? then p.id.value else x.id)
    && y.parentId == (if p.parentId.Some? then p.parentId.value else x.parentId)
    && y.kode == (if p.kode.Some? then p.kode.value else x.kode)
    && y.uraian == (if p.uraian.Some? then p.uraian.value else x.uraian)
    && y.satuan == (if p.satuan.Some? then p.satuan.value else x.satuan)
    && y.volume == (if p.volume.Some? then p.volume.value else x.volume)
    && y.hargaSatuan == (if p.hargaSatuan.Some? then p.hargaSatuan.value else x.hargaSatuan)
    && y.urutan == (if p.urutan.Some? then p.urutan.value else x.urutan)
  }

  /** A patch that leaves ids and parents alone, as every patch the editor's
      inputs send does. */
  predicate KeepsLinks(p: Patch) {
    p.id.None? && p.parentId.None?
  }

  /** `update(patch)`: `all.map(x => x.id === n.id ? { ...x, ...patch } : x)`. */
  function Update(all: seq<Node>, n: Node, p: Patch): (r: seq<Node>)
    ensures |r| == |all|
  {
    seq(|all|, i requires 0 <= i < |all| => if all[i].id == n.id then ApplyPatch(all[i], p) else all[i])
  }

  /** Only items whose id is `n.id` change, and only in the fields the patch
      holds; every other item keeps its position and value. */
  lemma UpdateOnlyTarget(all: seq<Node>, n: Node, p: Patch)
    ensures |Update(all, n, p)| == |all|
    ensures forall i | 0 <= i < |all| && all[i].id != n.id :: Update(all, n, p)[i] == all[i]
    ensures forall i | 0 <= i < |all| && all[i].id == n.id :: PatchedFrom(Update(all, n, p)[i], all[i], p)
  {
  }

  /** Sending the same patch twice changes nothing the second time, unless
      the patch moves the item to another id. */
  lemma UpdateIdempotent(all: seq<Node>, n: Node, p: Patch)
    requires p.id.None? || p.id == Some(n.id)
    ensures Update(Update(all, n, p), n, p) == Update(all, n, p)
  {
    var r := Update(all, n, p);
    forall i | 0 <= i < |all| ensures Update(r, n, p)[i] == r[i] {
      if all[i].id == n.id {
        assert r[i].id == n.id;
      }
    }
  }

  /** A patch that keeps ids and parents keeps positions, ids and parents,
      and so keeps the list well formed. */
  lemma UpdateKeepsShape(all: seq<Node>, n: Node, p: Patch)
    requires KeepsLinks(p)
    ensures SameShape(all, Update(all, n, p))
    ensures WellFormed(all) ==> WellFormed(Update(all, n, p))
  {
    SameShapeWellFormed(all, Update(all, n, p));
  }

  /** Editing an item leaves the subtotal of every row that is not one of
      its ancestors (or itself) as it was; a patch that leaves volume and
      price alone leaves every subtotal as it was. */
  lemma UpdateSubtotals(all: seq<Node>, n: Node, p: Patch, k: nat)
    requires UniqueIds(all) && Acyclic(all) && KeepsLinks(p) && k < |all|
    requires n.id !in Closure(all, all[k].id) || (p.volume.None? && p.hargaSatuan.None?)
    ensures Acyclic(Update(all, n, p))
    ensures Subtotal(Update(all, n, p), Update(all, n, p)[k]) == Subtotal(all, all[k])
  {
    var r := Update(all, n, p);
    UpdateKeepsShape(all, n, p);
    SameShapeWellFormed(all, r);
    forall i | 0 <= i < |all| && all[i].id in Closure(all, all[k].id) ensures LineValue(all[i]) == LineValue(r[i]) {
    }
    SubtotalDependsOnlyOnSubtree(all, r, k);
  }

  /** The line values of `b` are those of `a` except at position `k`. */
  lemma {:induction false} TotalLinesChangeOne(a: seq<Node>, b: seq<Node>, k: nat)
    requires |a| == |b| && k < |a|
    requires forall i | 0 <= i < |a| && i != k :: LineValue(a[i]) == LineValue(b[i])
    ensures TotalLines(b) == TotalLines(a) - LineValue(a[k]) + LineValue(b[k])
    decreases |a|
  {
    var a0, b0 := a[..|a| - 1], b[..|b| - 1];
    if k < |a| - 1 {
      forall i | 0 <= i < |a0| && i != k ensures LineValue(a0[i]) == LineValue(b0[i]) {
        assert a0[i] == a[i] && b0[i] == b[i];
      }
      assert a0[k] == a[k] && b0[k] == b[k];
      TotalLinesChangeOne(a0, b0, k);
    } else {
      TotalLinesPointwise(a0, b0);
    }
  }

  lemma {:induction false} TotalLinesPointwise(a: seq<Node>, b: seq<Node>)
    requires |a| == |b| && forall i | 0 <= i < |a| :: LineValue(a[i]) == LineValue(b[i])
    ensures TotalLines(b) == TotalLines(a)
    decreases |a|
  {
    if a != [] {
      var a0, b0 := a[..|a| - 1], b[..|b| - 1];
      forall i | 0 <= i < |a0| ensures LineValue(a0[i]) == LineValue(b0[i]) {
        assert a0[i] == a[i] && b0[i] == b[i];
      }
      TotalLinesPointwise(a0, b0);
    }
  }

  /** In a well-formed list, editing an item moves the grand total by the
      change in that item's own line value. */
  lemma UpdateGrandTotal(all: seq<Node>, n: Node, p: Patch)
    requires WellFormed(all) && n in all && KeepsLinks(p)
    ensures WellFormed(Update(all, n, p))
    ensures GrandTotal(Update(all, n, p)) == GrandTotal(all) - LineValue(n) + LineValue(ApplyPatch(n, p))
  {
    var r := Update(all, n, p);
    UpdateKeepsShape(all, n, p);
    var k :| 0 <= k < |all| && all[k] == n;
    forall i | 0 <= i < |all| && i != k ensures LineValue(all[i]) == LineValue(r[i]) {
      assert all[i].id != n.id;
    }
    TotalLinesChangeOne(all, r, k);
    GrandTotalIsSumOfLines(all);
    GrandTotalIsSumOfLines(r);
  }

  // ----- addChild and addRoot -----

  /** `xs.at(-1)?.urutan ?? 0`. */
  function LastKey(xs: seq<Node>): int {
    if xs == [] then 0 else Key(xs[|xs| - 1])
  }

  /** The item `addChild` and `addRoot` append. */
  function NewItem(id: string, parent: Option<string>, uraian: string, urutan: int): (x: Node)
    ensures LineValue(x) == 0 && Key(x) == urutan
  {
    Node(id, parent, None, uraian, None, None, None, Some(urutan))
  }

  /** `addChild()`: appends an "Item baru" under `n`, one past the key of
      `n`'s last child in display (sorted) order. */
  function AddChild(all: seq<Node>, n: Node, freshId: string): seq<Node> {
    var children := SortByKey(ChildrenOf(all, Some(n.id)));
    all + [NewItem(freshId, Some(n.id), "Item baru", LastKey(children) + 1)]
  }

  /** `addRoot()` as written: appends a "Kelompok baru" at the top level, one
      past the key of the last top-level item in LIST order. */
  function AddRoot(all: seq<Node>, freshId: string): seq<Node> {
    all + [NewItem(freshId, None, "Kelompok baru", LastKey(ChildrenOf(all, None)) + 1)]
  }

  /** `addRoot()` with the key taken, as `addChild` does, from the last
      top-level item in display (sorted) order. */
  function AddRootAfterLast(all: seq<Node>, freshId: string): seq<Node> {
    var roots := SortByKey(ChildrenOf(all, None));
    all + [NewItem(freshId, None, "Kelompok baru", LastKey(roots) + 1)]
  }

  /** An item keyed one past the last sibling in sorted order has a larger
      key than every sibling, and so is displayed after all of them. */
  lemma AppendedSortsLast(all: seq<Node>, x: Node)
    requires Key(x) == LastKey(SortByKey(ChildrenOf(all, x.parentId))) + 1
    ensures forall y | y in ChildrenOf(all, x.parentId) :: Key(y) < Key(x)
    ensures SortByKey(ChildrenOf(all + [x], x.parentId)) == SortByKey(ChildrenOf(all, x.parentId)) + [x]
  {
    var sibs := ChildrenOf(all, x.parentId);
    if sibs != [] {
      SortedLastIsMax(sibs);
    }
    ChildrenOfSnoc(all, x, x.parentId);
    SortByKeyAppendMax(sibs, x);
  }

  /** The last key in sorted order is 0 for no siblings, and otherwise the
      key of one of them. */
  lemma SortedLastKey(sibs: seq<Node>)
    ensures sibs == [] ==> LastKey(SortByKey(sibs)) == 0
    ensures sibs != [] ==> exists y :: y in sibs && LastKey(SortByKey(sibs)) == Key(y)
  {
    var s := SortByKey(sibs);
    SortByKeySortedPermutation(sibs);
    if s != [] {
      assert s[|s| - 1] in s;
    }
  }

  /** The new child is the last of `n`'s children on screen: its key is 1
      when `n` has no children, and otherwise one past the largest key among
      them. */
  lemma AddChildSortsLast(all: seq<Node>, n: Node, freshId: string)
    ensures var r := AddChild(all, n, freshId);
      && r[..|all|] == all && |r| == |all| + 1
      && r[|all|].id == freshId && r[|all|].parentId == Some(n.id) && r[|all|].uraian == "Item baru"
      && (forall y | y in ChildrenOf(all, Some(n.id)) :: Key(y) < Key(r[|all|]))
      && (ChildrenOf(all, Some(n.id)) == [] ==> Key(r[|all|]) == 1)
      && (ChildrenOf(all, Some(n.id)) != [] ==>
            exists y :: y in ChildrenOf(all, Some(n.id)) && Key(r[|all|]) == Key(y) + 1)
      && SortByKey(ChildrenOf(r, Some(n.id))) == SortByKey(ChildrenOf(all, Some(n.id))) + [r[|all|]]
  {
    var r := AddChild(all, n, freshId);
    AppendedSortsLast(all, r[|all|]);
    SortedLastKey(ChildrenOf(all, Some(n.id)));
    assert r[..|all|] == all;
  }

  /** The corrected `addRoot` puts the new group last on screen: its key is
      1 when there are no groups, and otherwise one past the largest group
      key. */
  lemma AddRootAfterLastSortsLast(all: seq<Node>, freshId: string)
    ensures var r := AddRootAfterLast(all, freshId);
      && r[..|all|] == all && |r| == |all| + 1
      && r[|all|].id == freshId && r[|all|].parentId == None && r[|all|].uraian == "Kelompok baru"
      && (forall y | y in ChildrenOf(all, None) :: Key(y) < Key(r[|all|]))
      && (ChildrenOf(all, None) == [] ==> Key(r[|all|]) == 1)
      && (ChildrenOf(all, None) != [] ==> exists y :: y in ChildrenOf(all, None) && Key(r[|all|]) == Key(y) + 1)
      && SortByKey(ChildrenOf(r, None)) == SortByKey(ChildrenOf(all, None)) + [r[|all|]]
  {
    var r := AddRootAfterLast(all, freshId);
    AppendedSortsLast(all, r[|all|]);
    SortedLastKey(ChildrenOf(all, None));
    assert r[..|all|] == all;
  }

  /** `addRoot` as written appends one zero-valued "Kelompok baru" at the top
      level, which becomes the last group in list order, keyed 1 when there
      are no groups and otherwise one past the key of the group that was
      last in list order. */
  lemma AddRootAppends(all: seq<Node>, freshId: string)
    ensures var r := AddRoot(all, freshId);
      var groups := ChildrenOf(all, None);
      && r[..|all|] == all && |r| == |all| + 1
      && r[|all|].id == freshId && r[|all|].parentId == None && r[|all|].uraian == "Kelompok baru"
      && LineValue(r[|all|]) == 0
      && ChildrenOf(r, None) == groups + [r[|all|]]
      && (groups == [] ==> Key(r[|all|]) == 1)
      && (groups != [] ==> Key(r[|all|]) == Key(groups[|groups| - 1]) + 1)
  {
    var r := AddRoot(all, freshId);
    assert r == all + [r[|all|]];
    ChildrenOfSnoc(all, r[|all|], None);
  }

  /** `addRoot` as written does not always put the new group last: after
      `move` has swapped keys around, the last top-level item in list order
      need not have the largest key, and a group keyed above the new one is
      then shown after it. */
  lemma AddRootAsWrittenNotLast(all: seq<Node>, freshId: string)
    requires exists y :: y in ChildrenOf(all, None) && Key(y) > LastKey(ChildrenOf(all, None)) + 1
    ensures var r := AddRoot(all, freshId);
      var shown := SortByKey(ChildrenOf(r, None));
      && |shown| == |ChildrenOf(all, None)| + 1
      && shown[|shown| - 1] != r[|all|]
      && shown != SortByKey(ChildrenOf(all, None)) + [r[|all|]]
  {
    var r := AddRoot(all, freshId);
    var x := r[|all|];
    assert r == all + [x];
    ChildrenOfSnoc(all, x, None);
    var roots := ChildrenOf(r, None);
    var shown := SortByKey(roots);
    SortByKeySortedPermutation(roots);
    var y :| y in ChildrenOf(all, None) && Key(y) > Key(x) - 1 + 1;
    assert y in shown;
    var i :| 0 <= i < |shown| && shown[i] == y;
    if shown[|shown| - 1] == x {
      assert false;
    }
  }

  /** Top-level groups a, b, c with keys 2, 3, 1 in list order (reached from
      keys 1, 2, 3 by moving c up twice) meet the condition above: the new
      group gets key 2 and is shown before b. */
  lemma AddRootCounterexample()
    ensures var all := [Root("a", 2), Root("b", 3), Root("c", 1)];
      && LastKey(ChildrenOf(all, None)) == 1
      && Root("b", 3) in ChildrenOf(all, None) && Key(Root("b", 3)) > LastKey(ChildrenOf(all, None)) + 1
  {
    var all := [Root("a", 2), Root("b", 3), Root("c", 1)];
    assert all == all[..2] + [all[2]];
    ChildrenOfSnoc(all[..2], all[2], None);
  }

  /** A top-level item with the given id and key. */
  function Root(id: string, urutan: int): Node {
    Node(id, None, None, "", None, None, None, Some(urutan))
  }

  /** Appending an item with a fresh id whose parent is absent or present
      keeps the list well formed. */
  lemma AppendWellFormed(all: seq<Node>, x: Node)
    requires WellFormed(all) && x.id !in Ids(all)
    requires x.parentId.None? || x.parentId.value in Ids(all)
    ensures WellFormed(all + [x])
  {
    var r := all + [x];
    var rank := RankMap(all);
    var rank' := (map id | id in Ids(all) :: rank[id] + 1)[x.id := 0];
    forall y | y in r && y.parentId.Some? && y.parentId.value in rank'
      ensures rank'[y.id] < rank'[y.parentId.value]
    {
      if y != x {
        assert y in all;
        assert y.id in Ids(all) && y.parentId.value in Ids(all);
      }
    }
    assert Ranked(r, rank');
    forall i, j | 0 <= i < |r| && 0 <= j < |r| && i != j ensures r[i].id != r[j].id {
      if i < |all| && j < |all| {
        assert r[i] == all[i] && r[j] == all[j];
      } else if i < |all| {
        assert r[i] in all;
      } else {
        assert r[j] in all;
      }
    }
    forall y | y in r && y.parentId.Some? ensures y.parentId.value in Ids(r) {
      if y != x {
        assert y in all;
      }
      assert Ids(all) <= Ids(r) by {
        forall id | id in Ids(all) ensures id in Ids(r) {
          var z :| z in all && z.id == id;
          assert z in r;
        }
      }
    }
  }

  /** Appending an item worth nothing leaves the grand total as it was. */
  lemma AppendZeroGrandTotal(all: seq<Node>, x: Node)
    requires WellFormed(all) && x.id !in Ids(all) && LineValue(x) == 0
    requires x.parentId.None? || x.parentId.value in Ids(all)
    ensures WellFormed(all + [x])
    ensures GrandTotal(all + [x]) == GrandTotal(all)
  {
    AppendWellFormed(all, x);
    assert (all + [x])[..|all|] == all;
    GrandTotalIsSumOfLines(all);
    GrandTotalIsSumOfLines(all + [x]);
  }

  /** With a fresh id, `addChild` keeps the list well formed and the grand
      total unchanged. */
  lemma AddChildKeepsInvariant(all: seq<Node>, n: Node, freshId: string)
    requires WellFormed(all) && n in all && freshId !in Ids(all)
    ensures WellFormed(AddChild(all, n, freshId))
    ensures GrandTotal(AddChild(all, n, freshId)) == GrandTotal(all)
  {
    var r := AddChild(all, n, freshId);
    AppendZeroGrandTotal(all, r[|all|]);
    assert r == all + [r[|all|]];
  }

  /** With a fresh id, `addRoot` as written keeps the list well formed and
      the grand total unchanged. */
  lemma AddRootKeepsInvariant(all: seq<Node>, freshId: string)
    requires WellFormed(all) && freshId !in Ids(all)
    ensures WellFormed(AddRoot(all, freshId))
    ensures GrandTotal(AddRoot(all, freshId)) == GrandTotal(all)
  {
    var r := AddRoot(all, freshId);
    AppendZeroGrandTotal(all, r[|all|]);
    assert r == all + [r[|all|]];
  }

  /** With a fresh id, the corrected `addRoot` keeps the list well formed and
      the grand total unchanged. */
  lemma AddRootAfterLastKeepsInvariant(all: seq<Node>, freshId: string)
    requires WellFormed(all) && freshId !in Ids(all)
    ensures WellFormed(AddRootAfterLast(all, freshId))
    ensures GrandTotal(AddRootAfterLast(all, freshId)) == GrandTotal(all)
  {
    var r := AddRootAfterLast(all, freshId);
    AppendZeroGrandTotal(all, r[|all|]);
    assert r == all + [r[|all|]];
  }

  // ----- remove -----

  /** `all.filter(x => !ids.has(x.id))`. */
  function Survivors(all: seq<Node>, removed: set<string>): (r: seq<Node>)
    ensures forall x :: x in r <==> x in all && x.id !in removed
  {
    Filter(all, (x: Node) => x.id !in removed)
  }

  /** `remove()`: collects `n` and its descendants with `walk`, then keeps
      every other item. */
  method Remove(all: seq<Node>, n: Node) returns (r: seq<Node>)
    requires Acyclic(all) && n in all
    ensures r == Survivors(all, Closure(all, n.id))
    ensures forall x :: x in r <==> x in all && x.id !in Closure(all, n.id)
  {
    var ids := Walk(all, n.id, {});
    assert ids == Closure(all, n.id);
    r := Survivors(all, ids);
  }

  /** `f` lists, in increasing order, positions of `s` holding the elements
      of `r`. */
  ghost predicate Embeds(r: seq<Node>, s: seq<Node>, f: seq<nat>) {
    && |f| == |r|
    && (forall i | 0 <= i < |f| :: f[i] < |s| && s[f[i]] == r[i])
    && (forall i, j | 0 <= i < j < |f| :: f[i] < f[j])
  }

  /** `r` is `s` with some elements left out and the rest in their order. */
  ghost predicate Subsequence(r: seq<Node>, s: seq<Node>) {
    exists f :: Embeds(r, s, f)
  }

  lemma {:induction false} FilterEmbeds(s: seq<Node>, p: Node -> bool) returns (f: seq<nat>)
    ensures Embeds(Filter(s, p), s, f)
    decreases |s|
  {
    if s == [] {
      f := [];
    } else {
      var s0, x := s[..|s| - 1], s[|s| - 1];
      assert s == s0 + [x];
      var f0 := FilterEmbeds(s0, p);
      var r0 := Filter(s0, p);
      FilterSnoc(s0, x, p);
      forall i | 0 <= i < |f0| ensures f0[i] < |s| && s[f0[i]] == r0[i] {
        assert s0[f0[i]] == s[f0[i]];
      }
      if p(x) {
        f := f0 + [|s| - 1];
        forall i | 0 <= i < |f| ensures f[i] < |s| && s[f[i]] == (r0 + [x])[i] {
          if i < |f0| {
            assert f[i] == f0[i] && (r0 + [x])[i] == r0[i];
          }
        }
      } else {
        f := f0;
      }
    }
  }

  /** The survivors keep their relative order. */
  lemma RemoveKeepsOrder(all: seq<Node>, removed: set<string>)
    ensures Subsequence(Survivors(all, removed), all)
  {
    var f := FilterEmbeds(all, (x: Node) => x.id !in removed);
  }

  /** No survivor names a removed item as its parent. */
  lemma RemoveLeavesNoOrphans(all: seq<Node>, n: Node)
    requires Acyclic(all) && n in all
    ensures forall x | x in Survivors(all, Closure(all, n.id)) && x.parentId.Some? ::
      x.parentId.value !in Closure(all, n.id)
  {
    var c := Closure(all, n.id);
    forall x | x in Survivors(all, c) && x.parentId.Some? ensures x.parentId.value !in c {
      if x.parentId.value in c {
        ClosureClosedUnderChildren(all, n.id, x.parentId.value, x);
      }
    }
  }

  /** Removing a subtree keeps the list well formed. */
  lemma RemoveWellFormed(all: seq<Node>, n: Node)
    requires WellFormed(all) && n in all
    ensures WellFormed(Survivors(all, Closure(all, n.id)))
  {
    var c := Closure(all, n.id);
    var r := Survivors(all, c);
    FilterUnique(all, (x: Node) => x.id !in c);
    assert Ranked(r, RankMap(all));
    RemoveLeavesNoOrphans(all, n);
    forall x | x in r && x.parentId.Some? ensures x.parentId.value in Ids(r) {
      var q :| q in all && q.id == x.parentId.value;
      assert q in r;
    }
  }

  lemma {:induction false} TotalLinesSurvivors(all: seq<Node>, c: set<string>)
    ensures TotalLines(Survivors(all, c)) == TotalLines(all) - SumLinesIn(all, c)
    decreases |all|
  {
    if all != [] {
      var all0, x := all[..|all| - 1], all[|all| - 1];
      assert all == all0 + [x];
      TotalLinesSurvivors(all0, c);
      FilterSnoc(all0, x, (y: Node) => y.id !in c);
      var r0 := Survivors(all0, c);
      if x.id !in c {
        assert (r0 + [x])[..|r0|] == r0;
      }
    }
  }

  /** Removing a row lowers the grand total by exactly that row's
      subtotal. */
  lemma RemoveGrandTotal(all: seq<Node>, n: Node)
    requires WellFormed(all) && n in all
    ensures WellFormed(Survivors(all, Closure(all, n.id)))
    ensures GrandTotal(Survivors(all, Closure(all, n.id))) == GrandTotal(all) - Subtotal(all, n)
  {
    var c := Closure(all, n.id);
    RemoveWellFormed(all, n);
    TotalLinesSurvivors(all, c);
    SubtotalIsSubtreeSum(all, n);
    GrandTotalIsSumOfLines(all);
    GrandTotalIsSumOfLines(Survivors(all, c));
  }

  // ----- move -----

  /** `s.findIndex(x => x.id === id)`: the first position holding `id`, or
      -1. */
  function FindIndex(s: seq<Node>, id: string): (i: int)
    ensures -1 <= i < |s|
    ensures 0 <= i ==> s[i].id == id && forall j | 0 <= j < i :: s[j].id != id
    ensures i == -1 ==> forall j | 0 <= j < |s| :: s[j].id != id
  {
    if s == [] then -1
    else if s[0].id == id then 0
    else
      var k := FindIndex(s[1..], id);
      if k == -1 then -1 else k + 1
  }

  /** Gives the items with id `id1` the key `k1` and those with id `id2` the
      key `k2`. */
  function SetKeys(all: seq<Node>, id1: string, k1: int, id2: string, k2: int): (r: seq<Node>)
    ensures |r| == |all|
  {
    seq(|all|, i requires 0 <= i < |all| =>
      if all[i].id == id1 then all[i].(urutan := Some(k1))
      else if all[i].id == id2 then all[i].(urutan := Some(k2))
      else all[i])
  }

  /** The sibling at sorted position `idx + dir`, where `idx` is that of
      `n`, if there is one (`swapWith`). */
  function Neighbour(all: seq<Node>, n: Node, dir: int): (o: Option<Node>)
    ensures o.Some? ==> o.value in ChildrenOf(all, n.parentId)
  {
    var sibs := SortByKey(ChildrenOf(all, n.parentId));
    var idx := FindIndex(sibs, n.id);
    SortByKeySortedPermutation(ChildrenOf(all, n.parentId));
    if 0 <= idx + dir < |sibs| then Some(sibs[idx + dir]) else None
  }

  /** `move(dir)`: swaps keys with the neighbouring sibling in sorted order,
      if there is one. A missing key is replaced by the sorted position:
      `n` gets the neighbour's key or `idx + dir`, the neighbour gets `n`'s
      key or `idx`. */
  function Move(all: seq<Node>, n: Node, dir: int): seq<Node>
    requires dir == -1 || dir == 1
  {
    match Neighbour(all, n, dir)
    case None => all
    case Some(other) =>
      var idx := FindIndex(SortByKey(ChildrenOf(all, n.parentId)), n.id);
      var a := n.urutan.GetOr(idx);
      var b := other.urutan.GetOr(idx + dir);
      SetKeys(all, n.id, b, other.id, a)
  }

  /** Without a neighbour in that direction nothing changes; in any case
      the length, order, ids and parents stay, and only `urutan` may
      change. */
  lemma MoveChangesOnlyKeys(all: seq<Node>, n: Node, dir: int)
    requires dir == -1 || dir == 1
    ensures Neighbour(all, n, dir).None? ==> Move(all, n, dir) == all
    ensures SameShape(all, Move(all, n, dir))
    ensures forall i | 0 <= i < |all| :: Move(all, n, dir)[i] == all[i].(urutan := Move(all, n, dir)[i].urutan)
  {
    match Neighbour(all, n, dir)
    case None =>
    case Some(o) =>
      var idx := FindIndex(SortByKey(ChildrenOf(all, n.parentId)), n.id);
      SetKeysOnlyKeys(all, n.id, o.urutan.GetOr(idx + dir), o.id, n.urutan.GetOr(idx));
  }

  lemma SetKeysOnlyKeys(all: seq<Node>, id1: string, k1: int, id2: string, k2: int)
    ensures SameShape(all, SetKeys(all, id1, k1, id2, k2))
    ensures forall i | 0 <= i < |all| :: SetKeys(all, id1, k1, id2, k2)[i] == all[i].(urutan := SetKeys(all, id1, k1, id2, k2)[i].urutan)
  {
  }

  /** With a neighbour, a different sibling, `n` takes the neighbour's key
      (or the neighbour's sorted position) and the neighbour takes `n`'s key
      (or `n`'s sorted position); every other item keeps its key. */
  lemma MoveSwapsKeys(all: seq<Node>, n: Node, dir: int)
    requires dir == -1 || dir == 1
    requires Neighbour(all, n, dir).Some?
    ensures var idx := FindIndex(SortByKey(ChildrenOf(all, n.parentId)), n.id);
      var o := Neighbour(all, n, dir).value;
      && o.parentId == n.parentId
      && (UniqueIds(all) ==> o.id != n.id)
      && forall i | 0 <= i < |all| ::
        Move(all, n, dir)[i].urutan ==
          if all[i].id == n.id then Some(o.urutan.GetOr(idx + dir))
          else if all[i].id == o.id then Some(n.urutan.GetOr(idx))
          else all[i].urutan
  {
    var idx := FindIndex(SortByKey(ChildrenOf(all, n.parentId)), n.id);
    var o := Neighbour(all, n, dir).value;
    var a, b := n.urutan.GetOr(idx), o.urutan.GetOr(idx + dir);
    assert Move(all, n, dir) == SetKeys(all, n.id, b, o.id, a);
    SetKeysKeys(all, n.id, b, o.id, a);
    if UniqueIds(all) {
      NeighbourDistinct(all, n, dir);
    }
  }

  lemma SetKeysKeys(all: seq<Node>, id1: string, k1: int, id2: string, k2: int)
    ensures forall i | 0 <= i < |all| ::
      SetKeys(all, id1, k1, id2, k2)[i].urutan ==
        if all[i].id == id1 then Some(k1) else if all[i].id == id2 then Some(k2) else all[i].urutan
  {
  }

  /** With unique ids the neighbour is never `n` itself. */
  lemma NeighbourDistinct(all: seq<Node>, n: Node, dir: int)
    requires dir == -1 || dir == 1
    requires UniqueIds(all) && Neighbour(all, n, dir).Some?
    ensures Neighbour(all, n, dir).value.id != n.id
  {
    var sibs := SortByKey(ChildrenOf(all, n.parentId));
    var idx := FindIndex(sibs, n.id);
    assert sibs[idx + dir] == Neighbour(all, n, dir).value;
    if 0 <= idx {
      SortByKeySortedPermutation(ChildrenOf(all, n.parentId));
      PermutationUnique(ChildrenOf(all, n.parentId), sibs);
    }
  }

  /** Moving a row leaves every subtotal, and the well-formedness of the
      list, as they were. */
  lemma MoveKeepsSubtotals(all: seq<Node>, n: Node, dir: int, k: nat)
    requires dir == -1 || dir == 1
    requires UniqueIds(all) && Acyclic(all) && k < |all|
    ensures Acyclic(Move(all, n, dir))
    ensures Subtotal(Move(all, n, dir), Move(all, n, dir)[k]) == Subtotal(all, all[k])
  {
    MoveChangesOnlyKeys(all, n, dir);
    SameShapeWellFormed(all, Move(all, n, dir));
    SubtotalDependsOnlyOnSubtree(all, Move(all, n, dir), k);
  }

  /** Moving a row keeps the list well formed and the grand total as it
      was. */
  lemma MoveKeepsGrandTotal(all: seq<Node>, n: Node, dir: int)
    requires dir == -1 || dir == 1
    requires WellFormed(all)
    ensures WellFormed(Move(all, n, dir))
    ensures GrandTotal(Move(all, n, dir)) == GrandTotal(all)
  {
    var r := Move(all, n, dir);
    MoveChangesOnlyKeys(all, n, dir);
    SameShapeWellFormed(all, r);
    TotalLinesPointwise(all, r);
    GrandTotalIsSumOfLines(all);
    GrandTotalIsSumOfLines(r);
  }
}
