/**
  * Superblocks of layers (lcfs/super.c:81-139, lcfs/fs.c:514-608). A checkpoint gives every layer a block for its
  * superblock and links the superblocks the way the layers are linked; a mount rebuilds the layers by following the
  * links. Layers are named by their indices.
  */
module Supers {
  const NONE: int := -1

  /** A layer and the layers below it. */
  datatype Tree = Tree(index: nat, root: nat, kids: seq<Tree>)

  /** `struct fs` with its pointers as indices. */
  datatype Node = Node(root: nat, parent: int, child: int, next: int, prev: int)

  /** `struct super`: sb_index, sb_root, sb_nextLayer and sb_childLayer. */
  datatype Super = Super(index: nat, root: nat, next: nat, child: nat)

  type Table = map<nat, Node>

  type Disk = map<nat, Super>

  /** The indices of the layers of a tree, and of a list of trees. */
  function Span(t: Tree): set<nat> {
    {t.index} + Indices(t.kids)
  }

  function Indices(ts: seq<Tree>): set<nat> {
    if ts == [] then {} else Span(ts[0]) + Indices(ts[1..])
  }

  function IndexAt(ts: seq<Tree>, i: int): int {
    if 0 <= i < |ts| then ts[i].index else NONE
  }

  /** No two layers have the same index. */
  ghost predicate Distinct(ts: seq<Tree>) {
    && (forall i, j {:trigger Span(ts[i]), Span(ts[j])} :: 0 <= i < j < |ts| ==> Span(ts[i]) !! Span(ts[j]))
    && (forall i {:trigger ts[i].kids} :: 0 <= i < |ts| ==> ts[i].index !in Indices(ts[i].kids) && Distinct(ts[i].kids))
  }

  /** The pointers of the layer at index `i` of a list of siblings, without those below it. */
  function NodeAt(ts: seq<Tree>, i: nat, parent: int, prev: int): Node
    requires i < |ts|
  {
    Node(ts[i].root, parent, IndexAt(ts[i].kids, 0), IndexAt(ts, i + 1), if i == 0 then prev else ts[i - 1].index)
  }

  /** The table has the layer at index `i` of a list of siblings. */
  ghost predicate HoldsAt(t: Table, ts: seq<Tree>, parent: int, prev: int, i: nat)
    requires i < |ts|
  {
    ts[i].index in t && t[ts[i].index] == NodeAt(ts, i, parent, prev)
  }

  /** The table has the layers of the trees with the right pointers. */
  ghost predicate Holds(t: Table, ts: seq<Tree>, parent: int, prev: int) {
    forall i: nat {:trigger HoldsAt(t, ts, parent, prev, i)} :: i < |ts| ==>
      HoldsAt(t, ts, parent, prev, i) && Holds(t, ts[i].kids, ts[i].index, NONE)
  }

  /** The block of a layer; superblocks say zero where there is none. */
  function BlockOf(at: map<nat, nat>, i: int): nat {
    if i >= 0 && i in at then at[i] else 0
  }

  /** The superblock of the layer at index `i` of a list of siblings. */
  function SuperAt(at: map<nat, nat>, ts: seq<Tree>, i: nat): Super
    requires i < |ts|
  {
    Super(ts[i].index, ts[i].root, BlockOf(at, IndexAt(ts, i + 1)), BlockOf(at, IndexAt(ts[i].kids, 0)))
  }

  /** The superblock of the layer at index `i` of a list of siblings is where `at` says; those of layers other than the
      first sibling are not at block zero. */
  ghost predicate WrittenAt(disk: Disk, at: map<nat, nat>, ts: seq<Tree>, i: nat)
    requires i < |ts|
  {
    && ts[i].index in at && at[ts[i].index] in disk && disk[at[ts[i].index]] == SuperAt(at, ts, i)
    && (i > 0 ==> at[ts[i].index] > 0) && (ts[i].kids != [] ==> BlockOf(at, ts[i].kids[0].index) > 0)
  }

  /** The superblocks of the layers of the trees are on disk. */
  ghost predicate Written(disk: Disk, at: map<nat, nat>, ts: seq<Tree>) {
    forall i: nat {:trigger WrittenAt(disk, at, ts, i)} ::
      i < |ts| ==> WrittenAt(disk, at, ts, i) && Written(disk, at, ts[i].kids)
  }

  // ----- Sets of indices -----

  lemma {:induction false} SpanWithin(ts: seq<Tree>, i: nat)
    requires i < |ts|
    ensures Span(ts[i]) <= Indices(ts) && ts[i].index in Indices(ts)
  {
    if i > 0 {
      SpanWithin(ts[1..], i - 1);
      assert ts[1..][i - 1] == ts[i];
    }
  }

  lemma {:induction false} IndexWithin(ts: seq<Tree>, x: nat) returns (i: nat)
    requires x in Indices(ts)
    ensures i < |ts| && x in Span(ts[i])
  {
    if x in Span(ts[0]) {
      i := 0;
    } else {
      i := IndexWithin(ts[1..], x);
      i := i + 1;
    }
  }

  ghost predicate Agree(t: Table, t': Table, s: set<nat>) {
    forall x {:trigger x in s} :: x in s && x in t ==> x in t' && t'[x] == t[x]
  }

  /** Tables that agree on the layers of the trees hold the same of them. */
  lemma {:induction false} HoldsSame(t: Table, t': Table, ts: seq<Tree>, parent: int, prev: int)
    requires Holds(t, ts, parent, prev) && Agree(t, t', Indices(ts))
    ensures Holds(t', ts, parent, prev)
    decreases ts
  {
    forall i: nat | i < |ts| ensures HoldsAt(t', ts, parent, prev, i) && Holds(t', ts[i].kids, ts[i].index, NONE) {
      SpanWithin(ts, i);
      assert HoldsAt(t, ts, parent, prev, i);
      assert Agree(t, t', Indices(ts[i].kids));
      HoldsSame(t, t', ts[i].kids, ts[i].index, NONE);
    }
  }

  // ----- Mounting -----

  /** `lc_initLayer`: adds the layer whose superblock is at `block`, as the first child or the next sibling of `pfs`. */
  method InitLayer(disk: Disk, t: Table, supers: map<nat, Super>, pfs: nat, block: nat, child: bool)
    returns (t': Table, supers': map<nat, Super>, i: nat)
    requires pfs in t && block in disk && disk[block].index !in t
    requires if child then t[pfs].child == NONE else t[pfs].next == NONE
    ensures i == disk[block].index && supers' == supers[i := disk[block]]
    ensures t'.Keys == t.Keys + {i}
    ensures t'[i] == if child then Node(disk[block].root, pfs, NONE, NONE, NONE)
              else Node(disk[block].root, t[pfs].parent, NONE, NONE, pfs)
    ensures t'[pfs] == if child then t[pfs].(child := i) else t[pfs].(next := i)
    ensures forall x {:trigger t'[x]} :: x in t && x != pfs ==> t'[x] == t[x]
  {
    var super := disk[block];
    i := super.index;
    supers' := supers[i := super];
    if child {
      t' := t[pfs := t[pfs].(child := i)][i := Node(super.root, pfs, NONE, NONE, NONE)];
    } else {
      t' := t[pfs := t[pfs].(next := i)][i := Node(super.root, t[pfs].parent, NONE, NONE, pfs)];
    }
  }

  /** The sibling at index `i` is in the table, when `n` siblings have been read and the children of the first `d`:
      linked to the next sibling if that has been read, and to its first child likewise. */
  ghost predicate ReadAt(t: Table, ts: seq<Tree>, parent: int, prev: int, n: nat, d: nat, i: nat)
    requires i < |ts|
  {
    && ts[i].index in t
    && var x := NodeAt(ts, i, parent, prev);
       t[ts[i].index] == x.(next := if i + 1 < n then x.next else NONE, child := if i < d then x.child else NONE)
  }

  ghost predicate Read(t: Table, ts: seq<Tree>, parent: int, prev: int, n: nat, d: nat)
    requires n <= |ts|
  {
    forall i: nat {:trigger ReadAt(t, ts, parent, prev, n, d, i)} :: i < n ==> ReadAt(t, ts, parent, prev, n, d, i)
  }

  /** The superblocks in memory are those on disk. */
  ghost predicate Loaded(disk: Disk, at: map<nat, nat>, t: Table, supers: map<nat, Super>) {
    t.Keys <= supers.Keys && forall x {:trigger supers[x]} ::
      x in supers ==> x in at && at[x] in disk && supers[x] == disk[at[x]]
  }

  /** Siblings have different indices. */
  ghost predicate Apart(ts: seq<Tree>) {
    forall i: nat, j: nat {:trigger ts[i], ts[j]} :: i < j < |ts| ==> ts[i].index != ts[j].index
  }

  lemma DistinctApart(ts: seq<Tree>)
    requires Distinct(ts)
    ensures Apart(ts)
  {
    forall i: nat, j: nat | i < j < |ts| ensures ts[i].index != ts[j].index {
      assert Span(ts[i]) !! Span(ts[j]);
      assert ts[i].index in Span(ts[i]) && ts[j].index in Span(ts[j]);
    }
  }

  /** The next sibling is read. */
  lemma ReadNext(t: Table, ts: seq<Tree>, parent: int, prev: int, n: nat, t': Table)
    requires 0 < n < |ts| && Read(t, ts, parent, prev, n, 0) && Apart(ts) && ts[n - 1].index in t
    requires ts[n].index !in t && t'.Keys == t.Keys + {ts[n].index}
    requires t'[ts[n].index] == Node(ts[n].root, t[ts[n - 1].index].parent, NONE, NONE, ts[n - 1].index)
    requires t'[ts[n - 1].index] == t[ts[n - 1].index].(next := ts[n].index)
    requires forall x {:trigger t'[x]} :: x in t && x != ts[n - 1].index ==> t'[x] == t[x]
    ensures Read(t', ts, parent, prev, n + 1, 0)
  {
    assert ReadAt(t, ts, parent, prev, n, 0, n - 1);
    var n' := n + 1;
    forall i: nat | i < n' ensures ReadAt(t', ts, parent, prev, n', 0, i) {
      if i < n {
        assert ReadAt(t, ts, parent, prev, n, 0, i);
      }
    }
  }

  /** The indices of the first `n` siblings. */
  ghost function Own(ts: seq<Tree>, n: nat): set<nat>
    requires n <= |ts|
  {
    if n == 0 then {} else Own(ts, n - 1) + {ts[n - 1].index}
  }

  /** `t` is `t0` with the layers of `s`, some of which may have been there; the others are as before. */
  ghost predicate Grown(t0: Table, t: Table, s: set<nat>) {
    t.Keys == t0.Keys + s && forall x {:trigger t[x]} :: x in t0 && x !in s ==> t[x] == t0[x]
  }

  /** The first loop of `lc_initLayers`: the siblings of `p`. */
  method InitSiblings(disk: Disk, t0: Table, supers0: map<nat, Super>, p: nat, ghost at: map<nat, nat>,
                      ghost ts: seq<Tree>, ghost parent: int, ghost prev: int)
    returns (t: Table, supers: map<nat, Super>)
    requires ts != [] && ts[0].index == p && Written(disk, at, ts) && Apart(ts) && Loaded(disk, at, t0, supers0)
    requires Read(t0, ts, parent, prev, 1, 0)
    requires forall i: nat {:trigger ts[i]} :: 0 < i < |ts| ==> ts[i].index !in t0
    ensures Read(t, ts, parent, prev, |ts|, 0) && Loaded(disk, at, t, supers) && Grown(t0, t, Own(ts, |ts|))
  {
    t, supers := t0, supers0;
    var nfs := p;
    ghost var j := 0;
    assert ReadAt(t, ts, parent, prev, 1, 0, 0) && WrittenAt(disk, at, ts, 0);
    var block := supers[p].next;
    if 1 < |ts| {
      assert WrittenAt(disk, at, ts, 1);
    }
    while block != 0
      invariant block == 0 ==> j + 1 == |ts|
      invariant j < |ts| && nfs == ts[j].index && nfs in t && block == BlockOf(at, IndexAt(ts, j + 1))
      invariant Read(t, ts, parent, prev, j + 1, 0) && Loaded(disk, at, t, supers) && Grown(t0, t, Own(ts, j + 1))
      decreases |ts| - j
    {
      assert j + 1 < |ts|;
      assert WrittenAt(disk, at, ts, j + 1) && ReadAt(t, ts, parent, prev, j + 1, 0, j);
      OwnLater(ts, j + 1);
      var t', supers', i := InitLayer(disk, t, supers, nfs, block, false);
      ReadNext(t, ts, parent, prev, j + 1, t');
      t, supers, nfs, j := t', supers', i, j + 1;
      block := supers[nfs].next;
      if j + 1 < |ts| {
        assert WrittenAt(disk, at, ts, j + 1);
      }
    }
  }

  lemma {:induction false} OwnLater(ts: seq<Tree>, n: nat)
    requires n < |ts| && Apart(ts)
    ensures ts[n].index !in Own(ts, n)
    ensures forall i: nat {:trigger ts[i]} :: i < n ==> ts[i].index in Own(ts, n)
  {
    OwnIs(ts, n, ts[n].index);
    forall i: nat | i < n ensures ts[i].index in Own(ts, n) {
      OwnIs(ts, n, ts[i].index);
    }
  }

  lemma {:induction false} OwnIs(ts: seq<Tree>, n: nat, x: nat)
    requires n <= |ts|
    ensures x in Own(ts, n) <==> exists i: nat {:trigger ts[i]} :: i < n && ts[i].index == x
  {
    if n > 0 {
      OwnIs(ts, n - 1, x);
    }
  }

  // ----- Children -----

  /** The indices below the first `n` siblings. */
  ghost function BelowOf(ts: seq<Tree>, n: nat): set<nat>
    requires n <= |ts|
  {
    if n == 0 then {} else BelowOf(ts, n - 1) + Indices(ts[n - 1].kids)
  }

  lemma {:induction false} OwnAndBelow(ts: seq<Tree>, n: nat)
    requires n <= |ts|
    ensures Own(ts, n) + BelowOf(ts, n) == Indices(ts[..n])
  {
    if n > 0 {
      OwnAndBelow(ts, n - 1);
      assert ts[..n] == ts[..n - 1] + [ts[n - 1]];
      IndicesConcat(ts[..n - 1], [ts[n - 1]]);
    }
  }

  lemma {:induction false} IndicesConcat(a: seq<Tree>, b: seq<Tree>)
    ensures Indices(a + b) == Indices(a) + Indices(b)
  {
    if a == [] {
      assert a + b == b;
    } else {
      IndicesConcat(a[1..], b);
      assert (a + b)[1..] == a[1..] + b;
    }
  }

  /** The layers below a sibling are apart from all siblings and from the layers below the others. */
  lemma {:induction false} KidsApart(ts: seq<Tree>, j: nat, n: nat)
    requires Distinct(ts) && j < |ts| && n <= |ts|
    ensures Indices(ts[j].kids) !! Own(ts, n) && (n <= j ==> Indices(ts[j].kids) !! BelowOf(ts, n))
  {
    if n > 0 {
      KidsApart(ts, j, n - 1);
      assert ts[n - 1].index in Span(ts[n - 1]) && Indices(ts[n - 1].kids) <= Span(ts[n - 1]);
      assert Indices(ts[j].kids) <= Span(ts[j]);
      if j == n - 1 {
        assert ts[j].index !in Indices(ts[j].kids);
      } else if j < n - 1 {
        assert Span(ts[j]) !! Span(ts[n - 1]);
      } else {
        assert Span(ts[n - 1]) !! Span(ts[j]);
      }
    }
  }

  /** The children of the first `n` siblings are complete. */
  ghost predicate KidsHold(t: Table, ts: seq<Tree>, n: nat)
    requires n <= |ts|
  {
    n == 0 || (KidsHold(t, ts, n - 1) && Holds(t, ts[n - 1].kids, ts[n - 1].index, NONE))
  }

  lemma {:induction false} KidsHoldSame(t: Table, t': Table, ts: seq<Tree>, n: nat)
    requires n <= |ts| && KidsHold(t, ts, n) && Agree(t, t', BelowOf(ts, n))
    ensures KidsHold(t', ts, n)
  {
    if n > 0 {
      KidsHoldSame(t, t', ts, n - 1);
      HoldsSame(t, t', ts[n - 1].kids, ts[n - 1].index, NONE);
    }
  }

  lemma {:induction false} AllHold(t: Table, ts: seq<Tree>, parent: int, prev: int)
    requires Read(t, ts, parent, prev, |ts|, |ts|) && KidsHold(t, ts, |ts|)
    ensures Holds(t, ts, parent, prev)
  {
    forall i: nat | i < |ts| ensures HoldsAt(t, ts, parent, prev, i) && Holds(t, ts[i].kids, ts[i].index, NONE) {
      assert ReadAt(t, ts, parent, prev, |ts|, |ts|, i);
      KidsHoldAt(t, ts, |ts|, i);
    }
  }

  lemma {:induction false} KidsHoldAt(t: Table, ts: seq<Tree>, n: nat, i: nat)
    requires i < n <= |ts| && KidsHold(t, ts, n)
    ensures Holds(t, ts[i].kids, ts[i].index, NONE)
  {
    if i < n - 1 {
      KidsHoldAt(t, ts, n - 1, i);
    }
  }

  /** The table when the first child of sibling `j` has been read. */
  lemma ReadChild(t: Table, ts: seq<Tree>, parent: int, prev: int, j: nat, t': Table)
    requires j < |ts| && Apart(ts) && Read(t, ts, parent, prev, |ts|, j)
    requires forall i: nat {:trigger ts[i]} :: i < |ts| && i != j ==>
              ts[i].index in t' && (ts[i].index in t ==> t'[ts[i].index] == t[ts[i].index])
    requires ts[j].index in t && ts[j].index in t'
    requires t'[ts[j].index] == t[ts[j].index].(child := IndexAt(ts[j].kids, 0))
    ensures Read(t', ts, parent, prev, |ts|, j + 1)
  {
    var n, j' := |ts|, j + 1;
    forall i: nat | i < n ensures ReadAt(t', ts, parent, prev, n, j', i) {
      assert ReadAt(t, ts, parent, prev, n, j, i);
    }
  }

  lemma ReadIn(t: Table, ts: seq<Tree>, parent: int, prev: int, n: nat, d: nat, i: nat)
    requires i < n <= |ts| && Read(t, ts, parent, prev, n, d)
    ensures ts[i].index in t
  {
    assert ReadAt(t, ts, parent, prev, n, d, i);
  }

  /** The children of one sibling. */
  method InitKids(disk: Disk, t: Table, supers: map<nat, Super>, nfs: nat, ghost at: map<nat, nat>, ghost ts: seq<Tree>,
                  ghost parent: int, ghost prev: int, ghost j: nat)
    returns (t': Table, supers': map<nat, Super>)
    requires j < |ts| && nfs == ts[j].index && Written(disk, at, ts) && Distinct(ts) && Loaded(disk, at, t, supers)
    requires nfs in t && t[nfs].child == NONE && Indices(ts[j].kids) !! t.Keys
    ensures Loaded(disk, at, t', supers') && t'.Keys == t.Keys + Indices(ts[j].kids)
    ensures Holds(t', ts[j].kids, nfs, NONE) && t'[nfs] == t[nfs].(child := IndexAt(ts[j].kids, 0))
    ensures forall x {:trigger t'[x]} :: x in t && x != nfs ==> t'[x] == t[x]
    decreases ts, 0
  {
    assert WrittenAt(disk, at, ts, j) && ts[j].kids == ts[j].kids;
    ghost var kids := ts[j].kids;
    t', supers' := t, supers;
    var block := supers[nfs].child;
    if block != 0 {
      assert kids != [] && WrittenAt(disk, at, kids, 0);
      SpanWithin(kids, 0);
      var c;
      t', supers', c := InitLayer(disk, t, supers, nfs, block, true);
      ghost var t1 := t';
      FirstRead(kids, nfs, t');
      t', supers' := InitLayers(disk, t', supers', c, at, kids, nfs, NONE);
      assert t'[nfs] == t1[nfs];
    }
  }

  lemma FirstRead(ts: seq<Tree>, parent: int, t: Table)
    requires ts != [] && ts[0].index in t && t[ts[0].index] == Node(ts[0].root, parent, NONE, NONE, NONE)
    ensures Read(t, ts, parent, NONE, 1, 0)
  {
  }

  /** `lc_initLayers`: rebuilds a list of siblings, of which the first is there, and all layers below them. */
  method InitLayers(disk: Disk, t0: Table, supers0: map<nat, Super>, p: nat, ghost at: map<nat, nat>,
                    ghost ts: seq<Tree>, ghost parent: int, ghost prev: int)
    returns (t: Table, supers: map<nat, Super>)
    requires ts != [] && ts[0].index == p && Written(disk, at, ts) && Distinct(ts) && Loaded(disk, at, t0, supers0)
    requires Read(t0, ts, parent, prev, 1, 0)
    requires forall x {:trigger x in t0} :: x in t0 && x != p ==> x !in Indices(ts)
    ensures Holds(t, ts, parent, prev) && Loaded(disk, at, t, supers) && t.Keys == t0.Keys + Indices(ts)
    ensures forall x {:trigger t[x]} :: x in t0 && x != p ==> t[x] == t0[x]
    decreases ts, 2
  {
    StartApart(t0, ts);
    t, supers := InitSiblings(disk, t0, supers0, p, at, ts, parent, prev);
    StartBuilding(disk, at, t0, t, supers, ts, parent, prev);
    var nfs: int := p;
    ghost var j := 0;
    while nfs != NONE
      invariant j <= |ts| && nfs == IndexAt(ts, j) && Building(disk, at, t0, t, supers, ts, parent, prev, j)
      decreases |ts| - j
    {
      ReadIn(t, ts, parent, prev, |ts|, j, j);
      NextIs(t, ts, parent, prev, j);
      t, supers := BuildNext(disk, t, supers, nfs, at, t0, ts, parent, prev, j);
      nfs := t[nfs].next;
      j := j + 1;
    }
    EndBuilding(disk, at, t0, t, supers, ts, parent, prev);
  }

  /** The second loop of `lc_initLayers` has come to sibling `j`. */
  ghost predicate Building(disk: Disk, at: map<nat, nat>, t0: Table, t: Table, supers: map<nat, Super>, ts: seq<Tree>,
                           parent: int, prev: int, j: nat)
    requires j <= |ts|
  {
    && Read(t, ts, parent, prev, |ts|, j) && KidsHold(t, ts, j) && Loaded(disk, at, t, supers)
    && t.Keys == t0.Keys + Own(ts, |ts|) + BelowOf(ts, j)
    && forall x {:trigger t[x]} :: x in t0 && x !in Own(ts, |ts|) ==> t[x] == t0[x]
  }

  lemma StartApart(t0: Table, ts: seq<Tree>)
    requires ts != [] && Distinct(ts)
    requires forall x {:trigger x in t0} :: x in t0 && x != ts[0].index ==> x !in Indices(ts)
    ensures Apart(ts) && forall i: nat {:trigger ts[i]} :: 0 < i < |ts| ==> ts[i].index !in t0
  {
    DistinctApart(ts);
    forall i: nat | 0 < i < |ts| ensures ts[i].index !in t0 {
      SpanWithin(ts, i);
    }
  }

  lemma StartBuilding(disk: Disk, at: map<nat, nat>, t0: Table, t: Table, supers: map<nat, Super>, ts: seq<Tree>,
                      parent: int, prev: int)
    requires Read(t, ts, parent, prev, |ts|, 0) && Loaded(disk, at, t, supers) && Grown(t0, t, Own(ts, |ts|))
    ensures Building(disk, at, t0, t, supers, ts, parent, prev, 0)
  {
  }

  lemma NextIs(t: Table, ts: seq<Tree>, parent: int, prev: int, j: nat)
    requires j < |ts| && Read(t, ts, parent, prev, |ts|, j) && ts[j].index in t
    ensures t[ts[j].index].next == IndexAt(ts, j + 1) && t[ts[j].index].child == NONE
  {
    assert ReadAt(t, ts, parent, prev, |ts|, j, j);
  }

  lemma {:induction false} EndBuilding(disk: Disk, at: map<nat, nat>, t0: Table, t: Table, supers: map<nat, Super>,
                                       ts: seq<Tree>, parent: int, prev: int)
    requires Building(disk, at, t0, t, supers, ts, parent, prev, |ts|)
    requires ts != [] && forall x {:trigger x in t0} :: x in t0 && x != ts[0].index ==> x !in Indices(ts)
    ensures Holds(t, ts, parent, prev) && t.Keys == t0.Keys + Indices(ts)
    ensures forall x {:trigger t[x]} :: x in t0 && x != ts[0].index ==> t[x] == t0[x]
  {
    AllHold(t, ts, parent, prev);
    OwnAndBelow(ts, |ts|);
    assert ts[..|ts|] == ts;
  }

  /** The children of sibling `j` join the table. */
  method BuildNext(disk: Disk, t: Table, supers: map<nat, Super>, nfs: nat, ghost at: map<nat, nat>, ghost t0: Table,
                   ghost ts: seq<Tree>, ghost parent: int, ghost prev: int, ghost j: nat)
    returns (t': Table, supers': map<nat, Super>)
    requires j < |ts| && nfs == ts[j].index && Written(disk, at, ts) && Distinct(ts) && Apart(ts)
    requires Building(disk, at, t0, t, supers, ts, parent, prev, j) && nfs in t && t[nfs].child == NONE
    requires forall x {:trigger x in t0} :: x in t0 && x != ts[0].index ==> x !in Indices(ts)
    ensures Building(disk, at, t0, t', supers', ts, parent, prev, j + 1) && nfs in t' && t'[nfs].next == t[nfs].next
    decreases ts, 1
  {
    KidsNew(t0, t, ts, j);
    t', supers' := InitKids(disk, t, supers, nfs, at, ts, parent, prev, j);
    BuiltNext(t, t', ts, parent, prev, j);
    OwnHas(ts, |ts|, j);
  }

  lemma {:induction false} OwnHas(ts: seq<Tree>, n: nat, i: nat)
    requires i < n <= |ts|
    ensures ts[i].index in Own(ts, n)
  {
    OwnIs(ts, n, ts[i].index);
  }

  /** The layers below sibling `j` are not in the table yet. */
  lemma {:induction false} KidsNew(t0: Table, t: Table, ts: seq<Tree>, j: nat)
    requires j < |ts| && Distinct(ts) && t.Keys == t0.Keys + Own(ts, |ts|) + BelowOf(ts, j)
    requires forall x {:trigger x in t0} :: x in t0 && x != ts[0].index ==> x !in Indices(ts)
    ensures Indices(ts[j].kids) !! t.Keys
  {
    KidsApart(ts, j, |ts|);
    KidsApart(ts, j, j);
    SpanWithin(ts, j);
    OwnHas(ts, |ts|, 0);
  }

  lemma {:induction false} BuiltNext(t: Table, t': Table, ts: seq<Tree>, parent: int, prev: int, j: nat)
    requires j < |ts| && Distinct(ts) && Apart(ts) && Read(t, ts, parent, prev, |ts|, j) && KidsHold(t, ts, j)
    requires ts[j].index in t
    requires Holds(t', ts[j].kids, ts[j].index, NONE) && t.Keys <= t'.Keys
    requires t'[ts[j].index] == t[ts[j].index].(child := IndexAt(ts[j].kids, 0))
    requires forall x {:trigger t'[x]} :: x in t && x != ts[j].index ==> t'[x] == t[x]
    ensures Read(t', ts, parent, prev, |ts|, j + 1) && KidsHold(t', ts, j + 1)
  {
    forall i: nat | i < |ts| ensures ts[i].index in t {
      ReadIn(t, ts, parent, prev, |ts|, j, i);
    }
    ReadChild(t, ts, parent, prev, j, t');
    BelowApart(ts, j, j);
    KidsHoldSame(t, t', ts, j);
  }

  lemma {:induction false} BelowApart(ts: seq<Tree>, j: nat, n: nat)
    requires Distinct(ts) && n <= j < |ts|
    ensures ts[j].index !in BelowOf(ts, n)
  {
    if n > 0 {
      BelowApart(ts, j, n - 1);
      KidsApart(ts, n - 1, j + 1);
      OwnHas(ts, j + 1, j);
    }
  }

  // ----- Checkpoint and mount -----

  /** The superblock of layer `i`. */
  function SuperOf(t: Table, at: map<nat, nat>, i: nat): Super
    requires i in t
  {
    Super(i, t[i].root, BlockOf(at, t[i].next), BlockOf(at, t[i].child))
  }

  /** Each layer has a block of its own; the root layer has block zero. */
  ghost predicate Placed(t: Table, at: map<nat, nat>, n: nat, block: nat, next: nat) {
    && 0 in at && at[0] == 0 && 0 < block <= next
    && (forall i {:trigger i in at} :: i in at <==> i in t && i < n)
    && (forall i {:trigger at[i]} :: i in at && i > 0 ==> block <= at[i] < next)
    && Apiece(at)
  }

  /** `b` is the superblock a layer other than the root had among those before index `n`. */
  ghost predicate Old(t: Table, was: map<nat, nat>, n: nat, b: nat) {
    exists i: nat :: 0 < i < n && i in t && i in was && was[i] == b
  }

  /** No two layers have the same block. */
  ghost predicate Apiece(at: map<nat, nat>) {
    forall i, j {:trigger at[i], at[j]} :: i in at && j in at && i != j ==> at[i] != at[j]
  }

  /** No block is there twice. */
  ghost predicate Once(blocks: seq<nat>) {
    forall i, j :: 0 <= i < j < |blocks| ==> blocks[i] != blocks[j]
  }

  /** The first loop of `lc_allocateSuperBlocks`: consecutive new blocks, in the order of the indices; the blocks the
      superblocks had are to be freed. */
  method PlaceSupers(t: Table, was: map<nat, nat>, scount: nat, block: nat)
      returns (at: map<nat, nat>, ghost next: nat, freed: seq<nat>)
    requires 0 in t && block > 0
    ensures Placed(t, at, scount + 1, block, next) && next <= block + scount
    ensures forall b {:trigger b in freed} :: b in freed <==> Old(t, was, scount + 1, b)
    ensures Apiece(was) ==> Once(freed)
  {
    var n: nat := block;
    at, freed := map[0 := 0], [];
    var i := 1;
    while i <= scount
      invariant 1 <= i <= scount + 1 && n <= block + i - 1 && Placed(t, at, i, block, n)
      invariant forall b {:trigger b in freed} :: b in freed <==> Old(t, was, i, b)
      invariant Apiece(was) ==> Once(freed)
    {
      OldNext(t, was, i);
      if i in t {
        if i in was {
          assert Apiece(was) ==> was[i] !in freed;
          freed := freed + [was[i]];
        }
        at, n := at[i := n], n + 1;
      }
      i := i + 1;
    }
    next := n;
  }

  lemma OldNext(t: Table, was: map<nat, nat>, n: nat)
    requires n > 0
    ensures forall b {:trigger Old(t, was, n + 1, b)} ::
              Old(t, was, n + 1, b) <==> Old(t, was, n, b) || (n in t && n in was && was[n] == b)
  {
  }

  /** The second loop of `lc_allocateSuperBlocks`: the superblocks, linked as the layers are. That of the root layer is
      not written yet. */
  method WriteSupers(disk0: Disk, t: Table, scount: nat, at: map<nat, nat>, ghost block: nat, ghost next: nat)
      returns (disk: Disk)
    requires Placed(t, at, scount + 1, block, next)
    requires forall b: nat {:trigger b in disk0} :: block <= b < next ==> b !in disk0
    requires forall i {:trigger i in t} :: i in t ==> i <= scount
    ensures forall i {:trigger i in t} :: i in t && i > 0 ==>
              i in at && at[i] in disk && disk[at[i]] == SuperOf(t, at, i)
    ensures Extends(disk0, disk)
  {
    disk := disk0;
    var i := 1;
    while i <= scount
      invariant 1 <= i <= scount + 1 && Extends(disk0, disk)
      invariant forall j {:trigger j in t} :: j in t && 0 < j < i ==>
                j in at && at[j] in disk && disk[at[j]] == SuperOf(t, at, j)
    {
      if i in t {
        assert i in at && block <= at[i] < next && at[i] !in disk0;
        disk := disk[at[i] := SuperOf(t, at, i)];
      }
      i := i + 1;
    }
  }

  /** What was on disk is still there. */
  ghost predicate Extends(disk0: Disk, disk: Disk) {
    forall b: nat {:trigger b in disk0} :: b in disk0 ==> b in disk && disk[b] == disk0[b]
  }

  lemma {:induction false} WrittenStays(disk0: Disk, disk: Disk, at: map<nat, nat>, ts: seq<Tree>)
    requires Written(disk0, at, ts) && Extends(disk0, disk)
    ensures Written(disk, at, ts)
    decreases ts
  {
    forall i: nat | i < |ts| ensures WrittenAt(disk, at, ts, i) && Written(disk, at, ts[i].kids) {
      assert WrittenAt(disk0, at, ts, i);
      WrittenStays(disk0, disk, at, ts[i].kids);
    }
  }

  /** What a checkpoint writes of a forest is its superblocks. */
  lemma {:induction false} WrittenFrom(t: Table, at: map<nat, nat>, disk: Disk, ts: seq<Tree>, parent: int, prev: int)
    requires Holds(t, ts, parent, prev) && (forall i: nat {:trigger ts[i]} :: 0 < i < |ts| ==> ts[i].index > 0)
    requires forall i {:trigger at[i]} :: i in at && i > 0 ==> at[i] > 0
    requires forall i {:trigger i in t} :: i in t ==> i in at && at[i] in disk && disk[at[i]] == SuperOf(t, at, i)
    requires forall i: nat {:trigger ts[i]} :: i < |ts| ==> 0 !in Indices(ts[i].kids)
    ensures Written(disk, at, ts)
    decreases ts
  {
    forall i: nat | i < |ts| ensures WrittenAt(disk, at, ts, i) && Written(disk, at, ts[i].kids) {
      var kids := ts[i].kids;
      assert HoldsAt(t, ts, parent, prev, i);
      forall j: nat | j < |kids| ensures kids[j].index > 0 && 0 !in Indices(kids[j].kids) {
        SpanWithin(kids, j);
      }
      if kids != [] {
        assert HoldsAt(t, kids, ts[i].index, NONE, 0);
      }
      WrittenFrom(t, at, disk, kids, ts[i].index, NONE);
    }
  }

  /** A table that holds exactly the layers of a forest is determined by it. */
  lemma {:induction false} HoldsUnique(t: Table, t': Table, ts: seq<Tree>, parent: int, prev: int, x: nat)
    requires Holds(t, ts, parent, prev) && Holds(t', ts, parent, prev) && x in Indices(ts)
    ensures x in t && x in t' && t[x] == t'[x]
    decreases ts
  {
    var i := IndexWithin(ts, x);
    assert HoldsAt(t, ts, parent, prev, i) && HoldsAt(t', ts, parent, prev, i);
    if x != ts[i].index {
      HoldsUnique(t, t', ts[i].kids, ts[i].index, NONE, x);
    }
  }

  /** `t` is the table of the forest whose layers without a parent are those of `ts`, the root layer first. */
  ghost predicate TableOf(t: Table, ts: seq<Tree>) {
    ts != [] && ts[0].index == 0 && Distinct(ts) && Holds(t, ts, NONE, NONE) && t.Keys == Indices(ts)
  }

  /** The superblocks of the layers are at new blocks, or where they were if nothing `changed`; `root` is that of the
      root layer, which is written last. */
  ghost predicate Prepared(disk0: Disk, was: map<nat, nat>, t: Table, scount: nat, changed: bool, ts: seq<Tree>,
                           disk: Disk, at: map<nat, nat>, root: Super, freed: seq<nat>)
  {
    && Extends(disk0, disk) && 0 in at && at[0] == 0 && Written(disk[0 := root], at, ts)
    && (!changed ==> disk == disk0 && at == was && freed == [])
    && (changed ==> forall b {:trigger b in freed} :: b in freed <==> Old(t, was, scount + 1, b))
    && (Apiece(was) ==> Once(freed) && Apiece(at))
  }

  /** `lc_allocateSuperBlocks`, for a file system whose superblocks on disk are those at `was`; `block` is the first of
      the new blocks. */
  method AllocateSuperBlocks(disk0: Disk, was: map<nat, nat>, t: Table, scount: nat, block: nat, changed: bool,
                             ghost ts: seq<Tree>)
      returns (disk: Disk, at: map<nat, nat>, root: Super, freed: seq<nat>)
    requires TableOf(t, ts) && block > 0 && forall i {:trigger i in t} :: i in t ==> i <= scount
    requires forall b: nat {:trigger b in disk0} :: block <= b < block + scount ==> b !in disk0
    requires !changed ==> Written(disk0, was, ts) && 0 in was && was[0] == 0
    ensures Prepared(disk0, was, t, scount, changed, ts, disk, at, root, freed)
  {
    SpanWithin(ts, 0);
    if !changed {
      assert WrittenAt(disk0, was, ts, 0);
      assert disk0[0 := disk0[0]] == disk0;
      return disk0, was, disk0[0], [];
    }
    ghost var next;
    at, next, freed := PlaceSupers(t, was, scount, block);
    disk := WriteSupers(disk0, t, scount, at, block, next);
    root := SuperOf(t, at, 0);
    RootOnly(ts);
    WrittenFrom(t, at, disk[0 := root], ts, NONE, NONE);
  }

  /** The part of `lc_mount` that finds the layers: the superblock of the root layer is at block zero. */
  method Mount(disk: Disk, ghost at: map<nat, nat>, ghost ts: seq<Tree>) returns (t: Table)
    requires ts != [] && ts[0].index == 0 && Distinct(ts) && Written(disk, at, ts) && 0 in at && at[0] == 0
    ensures TableOf(t, ts)
  {
    assert WrittenAt(disk, at, ts, 0);
    SpanWithin(ts, 0);
    var t0 := map[0 := Node(disk[0].root, NONE, NONE, NONE, NONE)];
    FirstRead(ts, NONE, t0);
    var supers;
    t, supers := InitLayers(disk, t0, map[0 := disk[0]], 0, at, ts, NONE, NONE);
  }

  /** A mount after a checkpoint finds the same layers, under the same indices, linked the same way. */
  method Remount(disk0: Disk, was: map<nat, nat>, t: Table, scount: nat, block: nat, changed: bool,
                 ghost ts: seq<Tree>) returns (t': Table)
    requires TableOf(t, ts) && block > 0 && forall i {:trigger i in t} :: i in t ==> i <= scount
    requires forall b: nat {:trigger b in disk0} :: block <= b < block + scount ==> b !in disk0
    requires !changed ==> Written(disk0, was, ts) && 0 in was && was[0] == 0
    ensures t' == t
  {
    var disk, at, root, freed := AllocateSuperBlocks(disk0, was, t, scount, block, changed, ts);
    t' := Mount(disk[0 := root], at, ts);
    SameTable(t, t', ts);
  }

  lemma SameTable(t: Table, t': Table, ts: seq<Tree>)
    requires TableOf(t, ts) && TableOf(t', ts)
    ensures t' == t
  {
    forall x | x in t ensures t'[x] == t[x] {
      HoldsUnique(t, t', ts, NONE, NONE, x);
    }
  }

  /** The checkpoint of the layers is atomic: until the superblock of the root layer is written, a mount still finds the
      layers `t0` of the checkpoint before, whatever has become of them since. */
  method CrashedMount(disk0: Disk, was: map<nat, nat>, t0: Table, ghost ts0: seq<Tree>, t: Table, scount: nat,
                      block: nat, ghost ts: seq<Tree>) returns (t': Table)
    requires TableOf(t0, ts0) && Written(disk0, was, ts0) && 0 in was && was[0] == 0
    requires TableOf(t, ts) && block > 0 && forall i {:trigger i in t} :: i in t ==> i <= scount
    requires forall b: nat {:trigger b in disk0} :: block <= b < block + scount ==> b !in disk0
    ensures t' == t0
  {
    var disk, at, root, freed := AllocateSuperBlocks(disk0, was, t, scount, block, true, ts);
    WrittenStays(disk0, disk, was, ts0);
    t' := Mount(disk, was, ts0);
    SameTable(t0, t', ts0);
  }

  lemma RootOnly(ts: seq<Tree>)
    requires ts != [] && ts[0].index == 0 && Distinct(ts)
    ensures forall i: nat {:trigger ts[i]} :: 0 < i < |ts| ==> ts[i].index > 0
    ensures forall i: nat {:trigger ts[i]} :: i < |ts| ==> 0 !in Indices(ts[i].kids)
  {
    DistinctApart(ts);
    forall i: nat | i < |ts| ensures 0 !in Indices(ts[i].kids) {
      KidsApart(ts, i, 1);
      OwnHas(ts, 1, 0);
    }
  }
}
