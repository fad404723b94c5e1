/** The flat budget list (RAB rows) and the facts every other module shares:
    items, optional fields, filtering by parent, identifiers and the
    absence of cycles in the parent relation. */
module RabTypes {

  datatype Option<T> = None | Some(value: T) {
    /** `x ?? d` in the editor's code. */
    function GetOr(d: T): T {
      match this
      case Some(v) => v
      case None => d
    }
  }

  /** One budget line item. `parentId == None` is the editor's `null`;
      `volume`, `hargaSatuan` (unit price) and `urutan` (sibling order key)
      are optional. Quantities are whole currency units. */
  datatype Node = Node(
    id: string,
    parentId: Option<string>,
    kode: Option<string>,
    uraian: string,
    satuan: Option<string>,
    volume: Option<int>,
    hargaSatuan: Option<int>,
    urutan: Option<int>)

  /** The sort key `urutan ?? 0`. */
  function Key(n: Node): int {
    n.urutan.GetOr(0)
  }

  /** The item's own value `(volume ?? 0) * (harga_satuan ?? 0)`. */
  function LineValue(n: Node): int {
    n.volume.GetOr(0) * n.hargaSatuan.GetOr(0)
  }

  /** `s.filter(p)`: the elements of `s` that satisfy `p`, in order. */
  function Filter(s: seq<Node>, p: Node -> bool): (r: seq<Node>)
    ensures |r| <= |s|
    ensures forall x :: x in r <==> x in s && p(x)
  {
    if s == [] then []
    else
      var r0 := Filter(s[..|s| - 1], p);
      assert s == s[..|s| - 1] + [s[|s| - 1]];
      if p(s[|s| - 1]) then r0 + [s[|s| - 1]] else r0
  }

  lemma FilterSnoc(s: seq<Node>, x: Node, p: Node -> bool)
    ensures Filter(s + [x], p) == if p(x) then Filter(s, p) + [x] else Filter(s, p)
  {
    assert (s + [x])[..|s|] == s;
  }

  function Ids(s: seq<Node>): set<string> {
    set x | x in s :: x.id
  }

  predicate UniqueIds(s: seq<Node>) {
    forall i, j | 0 <= i < |s| && 0 <= j < |s| && i != j :: s[i].id != s[j].id
  }

  /** `all.filter(x => x.parentId === parent)`. */
  function ChildrenOf(all: seq<Node>, parent: Option<string>): (r: seq<Node>)
    ensures forall x :: x in r <==> x in all && x.parentId == parent
    ensures UniqueIds(all) ==> UniqueIds(r)
  {
    var p := (x: Node) => x.parentId == parent;
    if UniqueIds(all) then FilterUnique(all, p); Filter(all, p) else Filter(all, p)
  }

  lemma ChildrenOfSnoc(all: seq<Node>, x: Node, parent: Option<string>)
    ensures ChildrenOf(all + [x], parent) == ChildrenOf(all, parent) + (if x.parentId == parent then [x] else [])
  {
    FilterSnoc(all, x, (y: Node) => y.parentId == parent);
  }

  /** A map that ranks every item strictly below the item it names as parent. */
  ghost predicate Ranked(all: seq<Node>, rank: map<string, nat>) {
    && (forall x | x in all :: x.id in rank)
    && (forall x | x in all && x.parentId.Some? && x.parentId.value in rank ::
          rank[x.id] < rank[x.parentId.value])
  }

  /** No item is its own ancestor: the parent links admit a ranking. */
  ghost predicate Acyclic(all: seq<Node>) {
    exists rank :: Ranked(all, rank)
  }

  /** Every named parent exists. */
  ghost predicate NoDangling(all: seq<Node>) {
    forall x | x in all && x.parentId.Some? :: x.parentId.value in Ids(all)
  }

  /** The invariant the editor keeps: unique ids, a forest, no orphans. */
  ghost predicate WellFormed(all: seq<Node>) {
    UniqueIds(all) && Acyclic(all) && NoDangling(all)
  }

  ghost function RankMap(all: seq<Node>): (rank: map<string, nat>)
    requires Acyclic(all)
    ensures Ranked(all, rank)
  {
    var rank :| Ranked(all, rank); rank
  }

  ghost function RankOf(all: seq<Node>, id: string): nat
    requires Acyclic(all)
  {
    if id in RankMap(all) then RankMap(all)[id] else 0
  }

  lemma ChildRankBelow(all: seq<Node>, k: Node, p: string)
    requires Acyclic(all) && k in all && p in Ids(all) && k.parentId == Some(p)
    ensures RankOf(all, k.id) < RankOf(all, p)
  {
  }

  /** One more than the largest rank among `ks` (0 for no items): the
      termination measure of a walk over a list of siblings. */
  ghost function RankBound(all: seq<Node>, ks: seq<Node>): (b: nat)
    requires Acyclic(all)
    ensures forall k | k in ks :: RankOf(all, k.id) < b
    ensures b == 0 || exists k :: k in ks && b == RankOf(all, k.id) + 1
  {
    if ks == [] then 0
    else
      var b0 := RankBound(all, ks[..|ks| - 1]);
      var last := ks[|ks| - 1];
      assert ks == ks[..|ks| - 1] + [last];
      if b0 <= RankOf(all, last.id) then RankOf(all, last.id) + 1 else b0
  }

  /** A list drawn from another has no larger rank bound. */
  lemma RankBoundWithin(all: seq<Node>, ks: seq<Node>, ls: seq<Node>)
    requires Acyclic(all) && forall k | k in ks :: k in ls
    ensures RankBound(all, ks) <= RankBound(all, ls)
  {
    if RankBound(all, ks) > 0 {
      var k :| k in ks && RankBound(all, ks) == RankOf(all, k.id) + 1;
    }
  }

  /** The children of `p` all rank below it, so their bound does not exceed
      its rank. */
  lemma ChildrenBound(all: seq<Node>, p: string, ks: seq<Node>)
    requires Acyclic(all) && p in Ids(all)
    requires forall k | k in ks :: k in all && k.parentId == Some(p)
    ensures RankBound(all, ks) <= RankOf(all, p)
  {
  }

  /** Same length, and the same id and parent at every position. */
  predicate SameShape(a: seq<Node>, b: seq<Node>) {
    |a| == |b| && forall i | 0 <= i < |a| :: a[i].id == b[i].id && a[i].parentId == b[i].parentId
  }

  lemma SameShapeIds(a: seq<Node>, b: seq<Node>)
    requires SameShape(a, b)
    ensures Ids(a) == Ids(b)
    ensures UniqueIds(a) ==> UniqueIds(b)
  {
    forall id | id in Ids(a) ensures id in Ids(b) {
      var x :| x in a && x.id == id;
      var i :| 0 <= i < |a| && a[i] == x;
      assert b[i] in b;
    }
    forall id | id in Ids(b) ensures id in Ids(a) {
      var x :| x in b && x.id == id;
      var i :| 0 <= i < |b| && b[i] == x;
      assert a[i] in a;
    }
  }

  /** Changing anything but ids and parents keeps a list a forest and keeps
      parents present. */
  lemma SameShapeWellFormed(a: seq<Node>, b: seq<Node>)
    requires SameShape(a, b)
    ensures Acyclic(a) ==> Acyclic(b)
    ensures WellFormed(a) ==> WellFormed(b)
  {
    SameShapeIds(a, b);
    if Acyclic(a) {
      var rank := RankMap(a);
      forall y | y in b ensures y.id in rank && (y.parentId.Some? && y.parentId.value in rank ==> rank[y.id] < rank[y.parentId.value]) {
        var i :| 0 <= i < |b| && b[i] == y;
        assert a[i] in a;
      }
      assert Ranked(b, rank);
    }
    if NoDangling(a) {
      forall y | y in b && y.parentId.Some? ensures y.parentId.value in Ids(b) {
        var i :| 0 <= i < |b| && b[i] == y;
        assert a[i] in a;
      }
    }
  }

  /** Filtering a list with unique ids keeps them unique. */
  lemma {:induction false} FilterUnique(s: seq<Node>, p: Node -> bool)
    requires UniqueIds(s)
    ensures UniqueIds(Filter(s, p))
    decreases |s|
  {
    if s != [] {
      var s0, x := s[..|s| - 1], s[|s| - 1];
      assert s == s0 + [x];
      FilterUnique(s0, p);
      FilterSnoc(s0, x, p);
      if p(x) {
        forall y | y in Filter(s0, p) ensures y.id != x.id {
          var j :| 0 <= j < |s0| && s0[j] == y;
        }
        UniqueSnoc(Filter(s0, p), x);
      }
    }
  }

  lemma UniqueSnoc(r: seq<Node>, x: Node)
    requires UniqueIds(r) && forall y | y in r :: y.id != x.id
    ensures UniqueIds(r + [x])
  {
    var t := r + [x];
    forall i, j | 0 <= i < |t| && 0 <= j < |t| && i != j ensures t[i].id != t[j].id {
      if i == |r| {
        assert t[j] in r;
      } else if j == |r| {
        assert t[i] in r;
      }
    }
  }

  /** With unique ids an item is determined by its id. */
  lemma UniqueIdsSameItem(s: seq<Node>, x: Node, y: Node)
    requires UniqueIds(s) && x in s && y in s && x.id == y.id
    ensures x == y
  {
    var i :| 0 <= i < |s| && s[i] == x;
    var j :| 0 <= j < |s| && s[j] == y;
  }

  /** In a list with unique ids each member occurs once. */
  lemma {:induction false} UniqueCount(s: seq<Node>, x: Node)
    requires UniqueIds(s) && x in s
    ensures multiset(s)[x] == 1
    decreases |s|
  {
    var s0, y := s[..|s| - 1], s[|s| - 1];
    assert s == s0 + [y];
    if y != x {
      assert UniqueIds(s0) by {
        forall i, j | 0 <= i < |s0| && 0 <= j < |s0| && i != j ensures s0[i].id != s0[j].id {
          assert s0[i] == s[i] && s0[j] == s[j];
        }
      }
      UniqueCount(s0, x);
    }
  }

  /** A permutation of a list with unique ids has unique ids. */
  lemma PermutationUnique(s: seq<Node>, t: seq<Node>)
    requires UniqueIds(s) && multiset(s) == multiset(t)
    ensures UniqueIds(t)
  {
    forall i, j | 0 <= i < |t| && 0 <= j < |t| && i != j ensures t[i].id != t[j].id {
      assert t[i] in multiset(s) && t[j] in multiset(s);
      if t[i].id == t[j].id {
        UniqueIdsSameItem(s, t[i], t[j]);
        if i < j { CountedTwice(t, i, j); } else { CountedTwice(t, j, i); }
        UniqueCount(s, t[i]);
        assert false;
      }
    }
  }

  /** An element at two positions is counted at least twice. */
  lemma CountedTwice(t: seq<Node>, i: nat, j: nat)
    requires i < j < |t| && t[i] == t[j]
    ensures multiset(t)[t[i]] >= 2
  {
    assert t == t[..j] + [t[j]] + t[j + 1..];
    assert t[i] in t[..j];
  }
}
