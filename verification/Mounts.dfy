/**
  * The forest of layers in memory as trees of indices, so that what a checkpoint writes of the layers and a mount
  * rebuilds (lcfs/super.c, lcfs/fs.c) is stated of the pointers that the layers really have.
  */
module Mounts {
  import opened Layers
  import S = Supers

  /** Pointers, indices and the forest they stand for; no layer is deeper than `top`. */
  datatype World = World(m: Links, ids: map<Layer, Id>, kids: Kids, rank: map<Layer, nat>, top: nat)

  ghost predicate Good(w: World) {
    && Linked(w.m, w.kids) && Attached(w.m, w.kids) && Ranked(w.m, w.rank) && w.ids.Keys == w.m.Keys == w.rank.Keys
    && (forall x {:trigger w.ids[x]} :: x in w.m ==> w.ids[x].gindex >= 0)
    && (forall x {:trigger w.rank[x]} :: x in w.m ==> w.rank[x] <= w.top)
    && (forall x, y {:trigger w.ids[x], w.ids[y]} :: x in w.m && y in w.m && w.ids[x].gindex == w.ids[y].gindex ==>
            x == y)
    && (forall p: Layer?, i {:trigger w.kids[p][i]} :: p in w.kids && 0 <= i < |w.kids[p]| ==>
          w.kids[p][i] in w.m && w.m[w.kids[p][i]].parent == p && (p != null ==> w.rank[p] < w.rank[w.kids[p][i]]))
  }

  ghost function Index(w: World, x: Layer?): int {
    if x == null || x !in w.ids then S.NONE else w.ids[x].gindex
  }

  /** The tree below a layer. */
  ghost function TreeOf(w: World, x: Layer): S.Tree
    requires Good(w) && x in w.m
    decreases w.top - w.rank[x]
  {
    var k := w.kids[x];
    S.Tree(w.ids[x].gindex, w.ids[x].root, seq(|k|, i requires 0 <= i < |k| => TreeOf(w, w.kids[x][i])))
  }

  /** The trees of the children of a layer, or of the layers without a parent. */
  ghost function TreesOf(w: World, p: Layer?): seq<S.Tree>
    requires Good(w) && p in w.kids
  {
    seq(|w.kids[p]|, i requires 0 <= i < |w.kids[p]| => TreeOf(w, w.kids[p][i]))
  }

  lemma TreesAt(w: World, p: Layer?, i: nat)
    requires Good(w) && p in w.kids && i < |w.kids[p]|
    ensures |TreesOf(w, p)| == |w.kids[p]| && TreesOf(w, p)[i] == TreeOf(w, w.kids[p][i])
    ensures TreesOf(w, p)[i].index == w.ids[w.kids[p][i]].gindex && TreesOf(w, p)[i].kids == TreesOf(w, w.kids[p][i])
  {
    var x := w.kids[p][i];
    assert TreeOf(w, x).kids == TreesOf(w, x);
  }

  // ----- The pointers -----

  /** The table of the layers, with indices for pointers. */
  ghost predicate IsTable(w: World, t: S.Table)
    requires Good(w)
  {
    forall x {:trigger w.ids[x]} :: x in w.m ==> w.ids[x].gindex in t && t[w.ids[x].gindex] == NodeOf(w, x)
  }

  ghost function NodeOf(w: World, x: Layer): S.Node
    requires x in w.m && x in w.ids
  {
    S.Node(w.ids[x].root, Index(w, w.m[x].parent), Index(w, w.m[x].child), Index(w, w.m[x].next), Index(w, w.m[x].prev))
  }

  ghost function Depth(w: World, p: Layer?): int {
    if p == null || p !in w.rank then w.top + 1 else w.top - w.rank[p]
  }

  lemma {:induction false} HoldsTrees(w: World, t: S.Table, p: Layer?)
    requires Good(w) && IsTable(w, t) && p in w.kids
    ensures S.Holds(t, TreesOf(w, p), Index(w, p), S.NONE)
    decreases Depth(w, p)
  {
    var ts := TreesOf(w, p);
    forall i: nat | i < |ts|
      ensures S.HoldsAt(t, ts, Index(w, p), S.NONE, i) && S.Holds(t, ts[i].kids, ts[i].index, S.NONE)
    {
      var x := w.kids[p][i];
      TreesAt(w, p, i);
      HoldsTrees(w, t, x);
      HoldsOne(w, t, p, i);
    }
  }

  lemma HoldsOne(w: World, t: S.Table, p: Layer?, i: nat)
    requires Good(w) && IsTable(w, t) && p in w.kids && i < |w.kids[p]|
    ensures i < |TreesOf(w, p)| && S.HoldsAt(t, TreesOf(w, p), Index(w, p), S.NONE, i)
  {
    var k, x := w.kids[p], w.kids[p][i];
    TreesAt(w, p, i);
    assert FamilyOf(w.m, w.kids, p) && LinkedAt(w.m, p, k, i) && FamilyOf(w.m, w.kids, x);
    assert w.m[x].child == At(w.kids[x], 0);
    IndexOf(w, x, 0);
    IndexOf(w, p, i + 1);
    if i > 0 {
      IndexOf(w, p, i - 1);
    }
  }

  /** The index of a child is that of its tree. */
  lemma IndexOf(w: World, p: Layer?, i: nat)
    requires Good(w) && p in w.kids
    ensures Index(w, At(w.kids[p], i)) == S.IndexAt(TreesOf(w, p), i)
  {
    if i < |w.kids[p]| {
      TreesAt(w, p, i);
    }
  }

  // ----- No layer is in two trees -----

  lemma {:induction false} AncestorAdd(m: Links, x: Layer?, a: nat, b: nat)
    ensures Ancestor(m, x, a + b) == Ancestor(m, Ancestor(m, x, a), b)
    decreases a
  {
    if a > 0 && x != null && x in m {
      AncestorAdd(m, m[x].parent, a - 1, b);
    } else if a > 0 {
      assert Ancestor(m, x, a + b) == x;
    }
  }

  /** An index in the tree of a layer is that of a layer below it. */
  lemma {:induction false} BelowTree(w: World, x: Layer, i: nat) returns (y: Layer, n: nat)
    requires Good(w) && x in w.m && i in S.Span(TreeOf(w, x))
    ensures y in w.m && w.ids[y].gindex == i && Ancestor(w.m, y, n) == x && (n == 0 ==> y == x)
    ensures i != w.ids[x].gindex ==> n > 0
    decreases w.top - w.rank[x]
  {
    if i == w.ids[x].gindex {
      y, n := x, 0;
    } else {
      assert TreeOf(w, x).kids == TreesOf(w, x);
      var j := S.IndexWithin(TreesOf(w, x), i);
      TreesAt(w, x, j);
      var c := w.kids[x][j];
      y, n := BelowTree(w, c, i);
      AncestorAdd(w.m, y, n, 1);
      n := n + 1;
    }
  }

  lemma ParentsIn(w: World)
    requires Good(w)
    ensures forall y {:trigger w.m[y]} :: y in w.m ==> w.m[y].parent == null || w.m[y].parent in w.m
  {
    forall y | y in w.m ensures w.m[y].parent == null || w.m[y].parent in w.m {
      assert AttachedAt(w.m, w.kids, y);
    }
  }

  /** Of two children of a layer neither is above the other. */
  lemma NotAbove(w: World, p: Layer?, x: Layer, y: Layer, n: nat)
    requires Good(w) && x in w.m && y in w.m && w.m[x].parent == p == w.m[y].parent && n > 0
    ensures Ancestor(w.m, x, n) != y
  {
    ParentsIn(w);
    AncestorAdd(w.m, x, 1, n - 1);
    if p != null && Ancestor(w.m, p, n - 1) == y {
      assert RankedAt(w.m, w.rank, y);
      if n > 1 {
        NoCycle(w.m, w.rank, p, n - 1);
      }
      assert false;
    }
  }

  lemma OneTree(w: World, p: Layer?, i: nat, j: nat, b: nat)
    requires Good(w) && p in w.kids && i < j < |w.kids[p]|
    ensures !(b in S.Span(TreeOf(w, w.kids[p][i])) && b in S.Span(TreeOf(w, w.kids[p][j])))
  {
    var x, y := w.kids[p][i], w.kids[p][j];
    if b in S.Span(TreeOf(w, x)) && b in S.Span(TreeOf(w, y)) {
      var z, n := BelowTree(w, x, b);
      var z', n' := BelowTree(w, y, b);
      assert z == z' && FamilyOf(w.m, w.kids, p) && x != y;
      if n < n' {
        AncestorAdd(w.m, z, n, n' - n);
        NotAbove(w, p, x, y, n' - n);
      } else if n' < n {
        AncestorAdd(w.m, z, n', n - n');
        NotAbove(w, p, y, x, n - n');
      }
      assert false;
    }
  }

  lemma {:induction false} DistinctTrees(w: World, p: Layer?)
    requires Good(w) && p in w.kids
    ensures S.Distinct(TreesOf(w, p))
    decreases Depth(w, p)
  {
    var ts := TreesOf(w, p);
    forall i, j | 0 <= i < j < |ts| ensures S.Span(ts[i]) !! S.Span(ts[j]) {
      TreesAt(w, p, i);
      TreesAt(w, p, j);
      forall b: nat ensures !(b in S.Span(ts[i]) && b in S.Span(ts[j])) {
        OneTree(w, p, i, j, b);
      }
    }
    forall i | 0 <= i < |ts| ensures ts[i].index !in S.Indices(ts[i].kids) && S.Distinct(ts[i].kids) {
      TreesAt(w, p, i);
      DistinctTrees(w, w.kids[p][i]);
      NotBelowItself(w, w.kids[p][i]);
    }
  }

  lemma NotBelowItself(w: World, x: Layer)
    requires Good(w) && x in w.m
    ensures w.ids[x].gindex !in S.Indices(TreesOf(w, x))
  {
    var b := w.ids[x].gindex;
    if b in S.Indices(TreesOf(w, x)) {
      var j := S.IndexWithin(TreesOf(w, x), b);
      TreesAt(w, x, j);
      var y, n := BelowTree(w, w.kids[x][j], b);
      assert y == x;
      AncestorAdd(w.m, x, n, 1);
      ParentsIn(w);
      NoCycle(w.m, w.rank, x, n + 1);
      assert false;
    }
  }

  // ----- Every layer is in a tree -----

  lemma {:induction false} InForest(w: World, x: Layer)
    requires Good(w) && x in w.m
    ensures S.Span(TreeOf(w, x)) <= S.Indices(TreesOf(w, null))
    decreases w.rank[x]
  {
    assert AttachedAt(w.m, w.kids, x);
    var p := w.m[x].parent;
    var i :| 0 <= i < |w.kids[p]| && w.kids[p][i] == x;
    TreesAt(w, p, i);
    S.SpanWithin(TreesOf(w, p), i);
    if p != null {
      assert RankedAt(w.m, w.rank, x);
      InForest(w, p);
      assert TreeOf(w, p).kids == TreesOf(w, p);
    }
  }

  /** The pointers of the layers are those of a forest of trees. */
  lemma TableOfTrees(w: World, t: S.Table, global: Layer)
    requires Good(w) && IsTable(w, t) && Headed(w.kids, global) && global in w.ids && w.ids[global].gindex == 0
    requires forall i {:trigger i in t} :: i in t ==> exists x :: x in w.m && w.ids[x].gindex == i
    ensures S.TableOf(t, TreesOf(w, null))
  {
    var ts := TreesOf(w, null);
    TreesAt(w, null, 0);
    DistinctTrees(w, null);
    HoldsTrees(w, t, null);
    forall i: nat ensures i in t <==> i in S.Indices(ts) {
      if i in t {
        var x :| x in w.m && w.ids[x].gindex == i;
        InForest(w, x);
      }
      if i in S.Indices(ts) {
        var j := S.IndexWithin(ts, i);
        TreesAt(w, null, j);
        var y, n := BelowTree(w, w.kids[null][j], i);
      }
    }
  }

  // ----- The layers of a file system -----

  lemma {:induction false} Highest(rank: map<Layer, nat>, s: set<Layer>) returns (top: nat)
    requires s <= rank.Keys
    ensures forall x {:trigger rank[x]} :: x in s ==> rank[x] <= top
    decreases s
  {
    if s == {} {
      top := 0;
    } else {
      var x :| x in s;
      top := Highest(rank, s - {x});
      top := if rank[x] > top then rank[x] else top;
    }
  }

  /** The world of a valid file system. */
  lemma SoundWorld(fs: seq<Layer?>, roots: seq<nat>, scount: nat, m: Links, ids: map<Layer, Id>, kids: Kids,
                   rank: map<Layer, nat>)
    returns (w: World)
    requires Sound(fs, roots, scount, m, ids, kids, rank) && ids.Keys == m.Keys
    ensures Good(w) && w.m == m && w.ids == ids && w.kids == kids
  {
    assert m.Keys <= rank.Keys by {
      forall x | x in m ensures x in rank {
        assert RankedAt(m, rank, x);
      }
    }
    var own := map x | x in m :: rank[x];
    var top := Highest(own, m.Keys);
    w := World(m, ids, kids, own, top);
    ParentsListed(m, kids);
    forall x | x in m ensures RankedAt(m, own, x) && ids[x].gindex >= 0 {
      assert RankedAt(m, rank, x) && InTable(fs, ids, x);
    }
    forall x, y | x in m && y in m && ids[x].gindex == ids[y].gindex ensures x == y {
      assert InTable(fs, ids, x) && InTable(fs, ids, y);
    }
    forall p: Layer?, i | p in kids && 0 <= i < |kids[p]|
      ensures kids[p][i] in m && m[kids[p][i]].parent == p && (p != null ==> own[p] < own[kids[p][i]])
    {
      assert FamilyOf(m, kids, p) && LinkedAt(m, p, kids[p], i);
      assert RankedAt(m, rank, kids[p][i]);
    }
  }

  lemma ParentsListed(m: Links, kids: Kids)
    requires Linked(m, kids) && Attached(m, kids)
    ensures forall x {:trigger m[x]} :: x in m ==> m[x].parent == null || m[x].parent in m
  {
    forall x | x in m ensures m[x].parent == null || m[x].parent in m {
      assert AttachedAt(m, kids, x);
    }
  }

  /** The index by which a superblock would name a layer. */
  function GIndex(x: Layer?): int
    reads if x == null then {} else {x}
  {
    if x == null then S.NONE else x.gindex
  }

  function Some(x: Layer?): set<Layer> {
    if x == null then {} else {x}
  }

  /** The pointers of a layer, with indices for layers. */
  function Pointers(x: Layer): S.Node
    reads x, Some(x.parent), Some(x.child), Some(x.next), Some(x.prev)
  {
    S.Node(x.root, GIndex(x.parent), GIndex(x.child), GIndex(x.next), GIndex(x.prev))
  }

  /** The table of a file system: its layers by index, with indices for pointers. */
  method TableOfLayers(forest: Forest) returns (t: S.Table)
    requires forest.Valid()
    ensures forall i {:trigger i in t} :: i in t <==> 0 <= i < |forest.fs| && forest.fs[i] != null
    ensures forall x {:trigger x in forest.all} :: x in forest.all ==> x.gindex in t && t[x.gindex] == Pointers(x)
  {
    t := map[];
    for i := 0 to |forest.fs|
      invariant forall j {:trigger j in t} :: j in t <==> 0 <= j < i && forest.fs[j] != null
      invariant forall j {:trigger t[j]} :: j in t ==> var x := forest.fs[j];
                  x != null && t[j] == Pointers(x)
    {
      var x := forest.fs[i];
      if x != null {
        assert EntryAt(forest.fs, forest.roots, Ids(forest.all), i);
        t := t[i := Pointers(x)];
      }
    }
    forall x | x in forest.all
      ensures x.gindex in t && t[x.gindex] == Pointers(x)
    {
      assert InTable(forest.fs, Ids(forest.all), x);
    }
  }

  /** A checkpoint of any valid forest of layers, whatever was added, removed and committed before, and the mount after
      it give back every layer with its index, root and all its pointers. */
  method RemountLayers(forest: Forest, disk: S.Disk, was: map<nat, nat>, block: nat) returns (t: S.Table, t': S.Table)
    requires forest.Valid() && block > 0
    requires forall b: nat {:trigger b in disk} :: block <= b < block + forest.scount ==> b !in disk
    ensures t' == t
    ensures forall i {:trigger i in t} :: i in t <==> 0 <= i < |forest.fs| && forest.fs[i] != null
    ensures forall x {:trigger x in forest.all} :: x in forest.all ==> x.gindex in t && t[x.gindex] == Pointers(x)
  {
    t := TableOfLayers(forest);
    ghost var w := SoundWorld(forest.fs, forest.roots, forest.scount, Snap(forest.all), Ids(forest.all), forest.kids,
      forest.rank);
    TableIs(forest, w, t);
    t' := S.Remount(disk, was, t, forest.scount, block, true, TreesOf(w, null));
  }

  lemma TableIs(forest: Forest, w: World, t: S.Table)
    requires forest.Valid() && Good(w) && w.m == Snap(forest.all) && w.ids == Ids(forest.all) && w.kids == forest.kids
    requires forall i {:trigger i in t} :: i in t <==> 0 <= i < |forest.fs| && forest.fs[i] != null
    requires forall x {:trigger x in forest.all} :: x in forest.all ==> x.gindex in t && t[x.gindex] == Pointers(x)
    ensures S.TableOf(t, TreesOf(w, null)) && forall i {:trigger i in t} :: i in t ==> i <= forest.scount
  {
    forall x | x in w.m ensures w.ids[x].gindex in t && t[w.ids[x].gindex] == NodeOf(w, x) {
      SameIndices(forest, w, x);
    }
    forall i | i in t ensures i <= forest.scount && exists x :: x in w.m && w.ids[x].gindex == i {
      assert EntryAt(forest.fs, forest.roots, w.ids, i);
      var x := forest.fs[i];
      assert x in w.m && w.ids[x].gindex == i;
    }
    assert EntryAt(forest.fs, forest.roots, w.ids, 0);
    TableOfTrees(w, t, forest.fs[0]);
  }

  lemma SameIndices(forest: Forest, w: World, x: Layer)
    requires Good(w) && w.m == Snap(forest.all) && w.ids == Ids(forest.all) && x in w.m
    ensures NodeOf(w, x) == Pointers(x)
  {
    assert AttachedAt(w.m, w.kids, x);
    var p := w.m[x].parent;
    var i :| 0 <= i < |w.kids[p]| && w.kids[p][i] == x;
    assert FamilyOf(w.m, w.kids, p) && FamilyOf(w.m, w.kids, x);
    assert LinkedAt(w.m, p, w.kids[p], i) && LinkedAt(w.m, p, w.kids[p], i + 1) && LinkedAt(w.m, p, w.kids[p], i - 1);
    assert LinkedAt(w.m, x, w.kids[x], 0);
  }
}
