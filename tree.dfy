/** `toTree`: groups the flat list into top-level items and `children`
    lists, then sorts every level by `urutan ?? 0` (`sortDeep`). `TreeOf` is
    the value the builder produces; `ToTree` is the builder itself, filling
    a map of children lists in list order and then sorting each level in
    an array. */
module TreeBuilder {
  import opened RabTypes
  import opened Sorting
  import opened Subtree
  import opened Totals

  /** An item together with its sorted children. */
  datatype Tree = Tree(node: Node, children: seq<Tree>)

  /** The builder's `if (n.parentId)` is false for `null` and for the empty
      string: such items become top-level. */
  predicate IsTopLevel(x: Node) {
    x.parentId == None || x.parentId == Some("")
  }

  /** The top-level items, in list order. */
  function TreeRoots(all: seq<Node>): (r: seq<Node>)
    ensures forall x :: x in r <==> x in all && IsTopLevel(x)
  {
    Filter(all, IsTopLevel)
  }

  /** What the builder pushes into the `children` of the item with id `id`,
      in list order. Items naming the empty string as parent are top-level
      instead, so an item whose id is empty gets no children. */
  function TreeKids(all: seq<Node>, id: string): (r: seq<Node>)
    ensures forall x :: x in r <==> x in all && id != "" && x.parentId == Some(id)
    ensures UniqueIds(all) ==> UniqueIds(r)
  {
    if id == "" then [] else ChildrenOf(all, Some(id))
  }

  /** The items at the top of each tree in `ts`. */
  function Nodes(ts: seq<Tree>): seq<Node> {
    seq(|ts|, i requires 0 <= i < |ts| => ts[i].node)
  }

  /** Appending the tree of the last item to the forest of the others gives
      a forest whose roots are all the items. */
  lemma NodesSnoc(ts: seq<Tree>, t: Tree, ks: seq<Node>)
    requires ks != [] && Nodes(ts) == ks[..|ks| - 1] && t.node == ks[|ks| - 1]
    ensures Nodes(ts + [t]) == ks
  {
    assert Nodes(ts + [t]) == Nodes(ts) + [t.node];
  }

  /** The tree below `n`: its children are `TreeKids` sorted by key. */
  function BuildTree(all: seq<Node>, n: Node): (t: Tree)
    requires Acyclic(all) && n in all
    ensures t.node == n
    decreases RankOf(all, n.id) + 1, 0
  {
    var kids := SortByKey(TreeKids(all, n.id));
    SortByKeySortedPermutation(TreeKids(all, n.id));
    ChildrenBound(all, n.id, kids);
    Tree(n, Forest(all, kids))
  }

  /** The trees below each item of `ks`, in the order of `ks`. */
  function Forest(all: seq<Node>, ks: seq<Node>): (ts: seq<Tree>)
    requires Acyclic(all) && forall k | k in ks :: k in all
    ensures Nodes(ts) == ks
    decreases RankBound(all, ks), |ks| + 1
  {
    if ks == [] then []
    else
      assert ks[|ks| - 1] in ks;
      var ts0 := Forest(all, ks[..|ks| - 1]);
      var t := BuildTree(all, ks[|ks| - 1]);
      NodesSnoc(ts0, t, ks);
      ts0 + [t]
  }

  /** The trees below the items of `ks`, sorted by key. */
  function SortedForest(all: seq<Node>, ks: seq<Node>): seq<Tree>
    requires Acyclic(all) && forall k | k in ks :: k in all
  {
    SortByKeySortedPermutation(ks);
    Forest(all, SortByKey(ks))
  }

  /** The result of `toTree(list)`. */
  function TreeOf(all: seq<Node>): seq<Tree>
    requires Acyclic(all)
  {
    SortedForest(all, TreeRoots(all))
  }

  lemma {:induction false} ForestAt(all: seq<Node>, ks: seq<Node>, i: nat)
    requires Acyclic(all) && (forall k | k in ks :: k in all) && i < |ks|
    ensures ks[i] in all && |Forest(all, ks)| == |ks|
    ensures Forest(all, ks)[i] == BuildTree(all, ks[i])
    decreases |ks|
  {
    assert ks[i] in ks;
    assert |Nodes(Forest(all, ks))| == |ks|;
    if i < |ks| - 1 {
      var ks0 := ks[..|ks| - 1];
      assert ks0[i] == ks[i];
      assert forall k | k in ks0 :: k in ks;
      ForestAt(all, ks0, i);
    }
  }

  // ----- the builder -----

  lemma TreeKidsSnoc(all: seq<Node>, x: Node, id: string)
    ensures TreeKids(all + [x], id) == TreeKids(all, id) + (if id != "" && x.parentId == Some(id) then [x] else [])
  {
    if id != "" {
      ChildrenOfSnoc(all, x, Some(id));
    }
  }

  lemma TreeRootsSnoc(all: seq<Node>, x: Node)
    ensures TreeRoots(all + [x]) == TreeRoots(all) + (if IsTopLevel(x) then [x] else [])
  {
    FilterSnoc(all, x, IsTopLevel);
  }

  /** `toTree(list)`: one map entry with an empty `children` list per item;
      then, in list order, each item with a non-empty parent id is pushed
      onto its parent's list (and dropped when there is no such parent),
      every other item onto the list of top-level items; finally each level
      is sorted. */
  method ToTree(list: seq<Node>) returns (roots: seq<Tree>)
    requires UniqueIds(list) && Acyclic(list)
    ensures roots == TreeOf(list)
  {
    var index: map<string, seq<Node>> := map[];
    for i := 0 to |list|
      invariant index.Keys == Ids(list[..i])
      invariant forall id | id in index :: index[id] == []
    {
      assert list[..i + 1] == list[..i] + [list[i]];
      index := index[list[i].id := []];
    }
    assert list[..|list|] == list;
    var top;
    index, top := PushChildren(list, index);
    roots := SortDeep(list, index, top);
  }

  /** The `children` lists of the builder's index after the items of
      `prefix` have been pushed: one list per id in `keys`, extended by each
      item with a non-empty parent id among the keys. */
  function Grouping(prefix: seq<Node>, keys: set<string>): (m: map<string, seq<Node>>)
    ensures m.Keys == keys
  {
    if prefix == [] then map id | id in keys :: []
    else
      var g, n := Grouping(prefix[..|prefix| - 1], keys), prefix[|prefix| - 1];
      if n.parentId.Some? && n.parentId.value != "" && n.parentId.value in keys
      then g[n.parentId.value := g[n.parentId.value] + [n]]
      else g
  }

  lemma GroupingSnoc(prefix: seq<Node>, n: Node, keys: set<string>)
    ensures var g := Grouping(prefix, keys);
      Grouping(prefix + [n], keys) ==
        if n.parentId.Some? && n.parentId.value != "" && n.parentId.value in keys
        then g[n.parentId.value := g[n.parentId.value] + [n]]
        else g
  {
    assert (prefix + [n])[..|prefix|] == prefix;
  }

  /** One step of the pass: the item at `i` extends either its parent's
      list or the top-level list. */
  lemma PushStep(list: seq<Node>, i: nat, keys: set<string>)
    requires i < |list|
    ensures var g, n := Grouping(list[..i], keys), list[i];
      Grouping(list[..i + 1], keys) ==
        if n.parentId.Some? && n.parentId.value != "" && n.parentId.value in keys
        then g[n.parentId.value := g[n.parentId.value] + [n]]
        else g
    ensures TreeRoots(list[..i + 1]) == TreeRoots(list[..i]) + (if IsTopLevel(list[i]) then [list[i]] else [])
  {
    assert list[..i + 1] == list[..i] + [list[i]];
    TreeRootsSnoc(list[..i], list[i]);
    GroupingSnoc(list[..i], list[i], keys);
  }

  /** Each list of the index holds exactly the children of its id, in list
      order. */
  lemma {:induction false} GroupingLookup(prefix: seq<Node>, keys: set<string>, id: string)
    requires id in keys
    ensures Grouping(prefix, keys)[id] == TreeKids(prefix, id)
    decreases |prefix|
  {
    if prefix != [] {
      var p0, n := prefix[..|prefix| - 1], prefix[|prefix| - 1];
      assert prefix == p0 + [n];
      GroupingLookup(p0, keys, id);
      TreeKidsSnoc(p0, n, id);
    }
  }

  /** The `map.forEach` pass of `toTree`: in list order, pushes each item
      with a non-empty parent id onto its parent's `children` list when the
      parent exists, and every other item onto the top-level list. */
  method PushChildren(list: seq<Node>, index0: map<string, seq<Node>>) returns (index: map<string, seq<Node>>, top: seq<Node>)
    requires forall id | id in index0 :: index0[id] == []
    ensures index == Grouping(list, index0.Keys)
    ensures top == TreeRoots(list)
  {
    index, top := index0, [];
    assert index == Grouping(list[..0], index0.Keys) by {
      assert list[..0] == [];
    }
    for i := 0 to |list|
      invariant index == Grouping(list[..i], index0.Keys)
      invariant top == TreeRoots(list[..i])
    {
      var n := list[i];
      PushStep(list, i, index0.Keys);
      if n.parentId.Some? && n.parentId.value != "" {
        var p := n.parentId.value;
        if p in index {
          index := index[p := index[p] + [n]];
        }
      } else {
        top := top + [n];
      }
    }
    assert list[..|list|] == list;
  }

  /** `sortDeep(nodes)`: sorts the group in place, then each member's
      children, recursively; the result pairs every member with its sorted
      subtree. */
  method SortDeep(all: seq<Node>, index: map<string, seq<Node>>, group: seq<Node>) returns (ts: seq<Tree>)
    requires Acyclic(all) && forall k | k in group :: k in all
    requires index == Grouping(all, Ids(all))
    ensures ts == SortedForest(all, group)
    decreases RankBound(all, group), 1
  {
    var sorted := SortLevel(group);
    SortByKeySortedPermutation(group);
    RankBoundWithin(all, sorted, group);
    ts := DeepenLevel(all, index, sorted);
  }

  /** The loop of `sortDeep` over an already sorted level: each item's own
      `children` list is sorted deeply in turn. */
  method DeepenLevel(all: seq<Node>, index: map<string, seq<Node>>, sorted: seq<Node>) returns (ts: seq<Tree>)
    requires Acyclic(all) && forall k | k in sorted :: k in all
    requires index == Grouping(all, Ids(all))
    ensures ts == Forest(all, sorted)
    decreases RankBound(all, sorted), 0
  {
    ts := [];
    for i := 0 to |sorted|
      invariant ts == Forest(all, sorted[..i])
    {
      var c := sorted[i];
      LevelStep(all, index, sorted, i);
      var kids := SortDeep(all, index, index[c.id]);
      ts := ts + [Tree(c, kids)];
    }
    assert sorted[..|sorted|] == sorted;
  }

  /** Sorts one level in place: the `children` list (or the top-level list)
      is held in an array that `SortByUrutan` rearranges. */
  method SortLevel(group: seq<Node>) returns (sorted: seq<Node>)
    ensures sorted == SortByKey(group)
  {
    var a := new Node[|group|](i requires 0 <= i < |group| => group[i]);
    assert a[..] == group;
    SortByUrutan(a);
    sorted := a[..];
  }

  /** One more item extends the forest by that item's tree, built from the
      item's entry in the index, which ranks below the whole level. */
  lemma LevelStep(all: seq<Node>, index: map<string, seq<Node>>, ks: seq<Node>, i: nat)
    requires Acyclic(all) && (forall k | k in ks :: k in all) && i < |ks|
    requires index == Grouping(all, Ids(all))
    ensures ks[i] in all && ks[i].id in index
    ensures forall k | k in index[ks[i].id] :: k in all
    ensures RankBound(all, index[ks[i].id]) < RankBound(all, ks)
    ensures Forest(all, ks[..i + 1]) == Forest(all, ks[..i]) + [Tree(ks[i], SortedForest(all, index[ks[i].id]))]
  {
    var c := ks[i];
    assert c in ks;
    assert c.id in Ids(all);
    var kids := TreeKids(all, c.id);
    GroupingLookup(all, Ids(all), c.id);
    ChildrenBound(all, c.id, kids);
    assert ks[..i + 1][..i] == ks[..i];
    assert ks[..i + 1][i] == c;
  }

  // ----- grouping -----

  /** The top-level list is the stable sort of the items whose parent is
      `null` or empty; exactly those items are in it. */
  lemma TreeOfRoots(all: seq<Node>)
    requires Acyclic(all)
    ensures StableSortOf(Nodes(TreeOf(all)), TreeRoots(all))
    ensures forall x :: x in Nodes(TreeOf(all)) <==> x in all && IsTopLevel(x)
  {
    SortByKeyIsStableSort(TreeRoots(all));
    SortByKeySortedPermutation(TreeRoots(all));
  }

  /** The children of an item are the stable sort of the items naming it as
      parent (none if its id is empty). */
  lemma BuildTreeChildren(all: seq<Node>, n: Node)
    requires Acyclic(all) && n in all
    ensures StableSortOf(Nodes(BuildTree(all, n).children), TreeKids(all, n.id))
    ensures forall x :: x in Nodes(BuildTree(all, n).children) <==> x in all && n.id != "" && x.parentId == Some(n.id)
  {
    SortByKeyIsStableSort(TreeKids(all, n.id));
    SortByKeySortedPermutation(TreeKids(all, n.id));
  }

  /** Every item whose parent is the non-empty id of `q` occurs exactly once
      among `q`'s children; no other item occurs there. */
  lemma ChildrenExactlyOnce(all: seq<Node>, q: Node, x: Node)
    requires UniqueIds(all) && Acyclic(all) && q in all
    ensures multiset(Nodes(BuildTree(all, q).children))[x] ==
      if x in all && q.id != "" && x.parentId == Some(q.id) then 1 else 0
  {
    var kids := TreeKids(all, q.id);
    SortByKeySortedPermutation(kids);
    if x in kids {
      UniqueCount(kids, x);
    }
  }

  /** Every top-level item occurs exactly once in the top-level list. */
  lemma RootsExactlyOnce(all: seq<Node>, x: Node)
    requires UniqueIds(all) && Acyclic(all)
    ensures multiset(Nodes(TreeOf(all)))[x] == if x in all && IsTopLevel(x) then 1 else 0
  {
    var roots := TreeRoots(all);
    SortByKeySortedPermutation(roots);
    if x in roots {
      FilterUnique(all, IsTopLevel);
      UniqueCount(roots, x);
    }
  }

  /** `x` is the item at the top of `t` or somewhere below it. */
  ghost predicate Occurs(x: Node, t: Tree) {
    t.node == x || exists i :: 0 <= i < |t.children| && Occurs(x, t.children[i])
  }

  /** Everything in the tree below `n` is a descendant of `n`, and everything
      but `n` itself has a parent that exists. */
  lemma {:induction false} OccursInBuiltTree(all: seq<Node>, n: Node, x: Node)
    requires Acyclic(all) && n in all && Occurs(x, BuildTree(all, n))
    ensures x in all && x.id in Closure(all, n.id)
    ensures x == n || (x.parentId.Some? && x.parentId.value != "" && x.parentId.value in Ids(all))
    decreases RankOf(all, n.id)
  {
    var t := BuildTree(all, n);
    if t.node != x {
      var kids := SortByKey(TreeKids(all, n.id));
      SortByKeySortedPermutation(TreeKids(all, n.id));
      var i :| 0 <= i < |t.children| && Occurs(x, t.children[i]);
      ForestAt(all, kids, i);
      var k := kids[i];
      assert k in kids;
      ChildRankBelow(all, k, n.id);
      OccursInBuiltTree(all, k, x);
      ChildClosureWithin(all, n.id, k);
    }
  }

  /** An item whose non-empty parent id names no item appears nowhere in the
      result. */
  lemma OrphanAbsent(all: seq<Node>, x: Node)
    requires Acyclic(all) && x.parentId.Some? && x.parentId.value != "" && x.parentId.value !in Ids(all)
    ensures forall t | t in TreeOf(all) :: !Occurs(x, t)
  {
    var roots := SortByKey(TreeRoots(all));
    SortByKeySortedPermutation(TreeRoots(all));
    forall t | t in TreeOf(all) ensures !Occurs(x, t) {
      var i :| 0 <= i < |TreeOf(all)| && TreeOf(all)[i] == t;
      ForestAt(all, roots, i);
      assert roots[i] in roots;
      OrphanNotBelow(all, roots[i], x);
    }
  }

  lemma OrphanNotBelow(all: seq<Node>, n: Node, x: Node)
    requires Acyclic(all) && n in all && IsTopLevel(n)
    requires x.parentId.Some? && x.parentId.value != "" && x.parentId.value !in Ids(all)
    ensures !Occurs(x, BuildTree(all, n))
  {
    if Occurs(x, BuildTree(all, n)) {
      OccursInBuiltTree(all, n, x);
    }
  }

  /** The child `x` of an item `q` that occurs in a tree occurs in it too. */
  lemma {:induction false} OccursChild(all: seq<Node>, n: Node, q: Node, x: Node)
    requires Acyclic(all) && n in all && Occurs(q, BuildTree(all, n))
    requires x in all && q.id != "" && x.parentId == Some(q.id)
    ensures Occurs(x, BuildTree(all, n))
    decreases RankOf(all, n.id)
  {
    var t := BuildTree(all, n);
    var kids := SortByKey(TreeKids(all, n.id));
    SortByKeySortedPermutation(TreeKids(all, n.id));
    if t.node == q {
      assert x in kids;
      var i :| 0 <= i < |kids| && kids[i] == x;
      ForestAt(all, kids, i);
      assert Occurs(x, t.children[i]);
    } else {
      var i :| 0 <= i < |t.children| && Occurs(q, t.children[i]);
      ForestAt(all, kids, i);
      assert kids[i] in kids;
      ChildRankBelow(all, kids[i], n.id);
      OccursChild(all, kids[i], q, x);
      assert Occurs(x, t.children[i]);
    }
  }

  /** In a well-formed list every item appears in the result. */
  lemma {:induction false} EveryItemPlaced(all: seq<Node>, x: Node)
    requires WellFormed(all) && x in all
    ensures exists t :: t in TreeOf(all) && Occurs(x, t)
    decreases RankBound(all, all) - RankOf(all, x.id)
  {
    var roots := SortByKey(TreeRoots(all));
    SortByKeySortedPermutation(TreeRoots(all));
    if IsTopLevel(x) {
      var i :| 0 <= i < |roots| && roots[i] == x;
      ForestAt(all, roots, i);
      assert Occurs(x, TreeOf(all)[i]);
    } else {
      var p := x.parentId.value;
      var q :| q in all && q.id == p;
      ChildRankBelow(all, x, p);
      EveryItemPlaced(all, q);
      var t :| t in TreeOf(all) && Occurs(q, t);
      var i :| 0 <= i < |TreeOf(all)| && TreeOf(all)[i] == t;
      ForestAt(all, roots, i);
      OccursChild(all, roots[i], q, x);
    }
  }

  // ----- ordering -----

  /** At every depth of `t` the children are the stable sort by key of what
      the builder pushed for that item. */
  ghost predicate LevelsStable(all: seq<Node>, t: Tree) {
    && StableSortOf(Nodes(t.children), TreeKids(all, t.node.id))
    && forall i | 0 <= i < |t.children| :: LevelsStable(all, t.children[i])
  }

  lemma {:induction false} BuildTreeLevelsStable(all: seq<Node>, n: Node)
    requires Acyclic(all) && n in all
    ensures LevelsStable(all, BuildTree(all, n))
    decreases RankOf(all, n.id)
  {
    var t := BuildTree(all, n);
    var kids := SortByKey(TreeKids(all, n.id));
    BuildTreeChildren(all, n);
    SortByKeySortedPermutation(TreeKids(all, n.id));
    forall i | 0 <= i < |t.children| ensures LevelsStable(all, t.children[i]) {
      ForestAt(all, kids, i);
      assert kids[i] in kids;
      ChildRankBelow(all, kids[i], n.id);
      BuildTreeLevelsStable(all, kids[i]);
    }
  }

  /** The top level and every `children` list of the result are sorted by
      `urutan ?? 0`, equal keys keeping list order. */
  lemma TreeOfLevelsStable(all: seq<Node>)
    requires Acyclic(all)
    ensures StableSortOf(Nodes(TreeOf(all)), TreeRoots(all))
    ensures forall t | t in TreeOf(all) :: LevelsStable(all, t)
  {
    TreeOfRoots(all);
    var roots := SortByKey(TreeRoots(all));
    SortByKeySortedPermutation(TreeRoots(all));
    forall t | t in TreeOf(all) ensures LevelsStable(all, t) {
      var i :| 0 <= i < |TreeOf(all)| && TreeOf(all)[i] == t;
      ForestAt(all, roots, i);
      BuildTreeLevelsStable(all, roots[i]);
    }
  }

  // ----- the preview's amount column -----

  /** The amount column of a preview row: the own value if it is non-zero,
      otherwise the subtotal if the tree node has children, otherwise
      blank. */
  function PreviewDisplay(all: seq<Node>, t: Tree): Option<int>
    requires Acyclic(all) && t.node in all
  {
    var jumlah := LineValue(t.node);
    if jumlah != 0 then Some(jumlah)
    else if |t.children| > 0 then Some(Subtotal(all, t.node))
    else None
  }

  /** The preview shows the same amount as the editor row for every item
      whose id is not empty. */
  lemma PreviewMatchesEditor(all: seq<Node>, n: Node)
    requires Acyclic(all) && n in all && n.id != ""
    ensures PreviewDisplay(all, BuildTree(all, n)) == EditorDisplay(all, n)
  {
    var kids := TreeKids(all, n.id);
    assert |BuildTree(all, n).children| == |Nodes(BuildTree(all, n).children)| == |SortByKey(kids)|;
  }
}
