/**
  * The forest of layers (lcfs/fs.c, lcfs/layer.c). Every layer points to its parent, its first child and its
  * siblings; the layers without a parent form a list that the global root layer heads.
  */
module Layers {
  /** `struct fs`, as far as the tree of layers is concerned. */
  class Layer {
    var gindex: int      // fs_gindex
    var root: nat        // fs_root
    var parent: Layer?   // fs_parent
    var child: Layer?    // fs_child
    var next: Layer?     // fs_next
    var prev: Layer?     // fs_prev

    constructor (root: nat, parent: Layer?)
      ensures this.root == root && this.parent == parent && child == null && next == null && prev == null
      ensures gindex == -1
    {
      this.root, this.parent, gindex := root, parent, -1;
      child, next, prev := null, null, null;
    }
  }

  // ----- Pointers and the forest they stand for -----

  datatype Ptrs = Ptrs(parent: Layer?, child: Layer?, next: Layer?, prev: Layer?)

  type Links = map<Layer, Ptrs>

  /** The children of each layer, in order; those of null are the layers without a parent. */
  type Kids = map<Layer?, seq<Layer>>

  /** The pointers of a set of layers. */
  ghost function Snap(all: set<Layer>): Links
    reads all
  {
    map x | x in all :: Ptrs(x.parent, x.child, x.next, x.prev)
  }

  function At(k: seq<Layer>, i: int): Layer? {
    if 0 <= i < |k| then k[i] else null
  }

  /** The pointers of the layer at index `i` of the children of `p`. */
  ghost predicate LinkedAt(m: Links, p: Layer?, k: seq<Layer>, i: int) {
    0 <= i < |k| ==> k[i] in m && m[k[i]].parent == p && m[k[i]].next == At(k, i + 1) && m[k[i]].prev == At(k, i - 1)
  }

  ghost predicate Distinct(k: seq<Layer>) {
    forall i, j {:trigger k[i], k[j]} :: 0 <= i < j < |k| ==> k[i] != k[j]
  }

  /** `k` are, in this order, the children of `p`, linked both ways. */
  ghost predicate Family(m: Links, p: Layer?, k: seq<Layer>) {
    && (forall i {:trigger LinkedAt(m, p, k, i)} :: LinkedAt(m, p, k, i))
    && Distinct(k) && (p != null ==> p in m && m[p].child == At(k, 0))
  }

  /** The pointers are those of the forest in which layer `p` has the children kids[p]. */
  ghost predicate Linked(m: Links, kids: Kids) {
    && kids.Keys == m.Keys + {null}
    && (forall p {:trigger FamilyOf(m, kids, p)} :: p in kids ==> FamilyOf(m, kids, p))
  }

  ghost predicate FamilyOf(m: Links, kids: Kids, p: Layer?) {
    p in kids ==> Family(m, p, kids[p])
  }

  // ----- Taking a layer out of its list -----

  function Without(k: seq<Layer>, i: nat): seq<Layer>
    requires i < |k|
  {
    k[..i] + k[i + 1..]
  }

  /** Only the neighbours of index `i` and the parent changed, as if the layer were taken out. */
  ghost predicate Unlinked(m: Links, p: Layer?, k: seq<Layer>, i: nat, r: Links) {
    && r.Keys == m.Keys
    && forall x {:trigger r[x]} :: x in m ==> r[x] == Ptrs(
         m[x].parent,
         if x == p && i == 0 then At(k, 1) else m[x].child,
         if i > 0 && x == At(k, i - 1) then At(k, i + 1) else m[x].next,
         if x == At(k, i + 1) then At(k, i - 1) else m[x].prev)
  }

  lemma FamilyWithout(m: Links, p: Layer?, k: seq<Layer>, i: nat, r: Links)
    requires Family(m, p, k) && i < |k| && Unlinked(m, p, k, i, r)
    ensures Family(r, p, Without(k, i))
  {
    var w := Without(k, i);
    forall j ensures LinkedAt(r, p, w, j) {
      assert LinkedAt(m, p, k, j) && LinkedAt(m, p, k, j + 1);
    }
  }

  lemma FamilyOther(m: Links, p: Layer?, k: seq<Layer>, q: Layer?, o: seq<Layer>, i: nat, r: Links)
    requires Family(m, p, k) && Family(m, q, o) && p != q && i < |k| && Unlinked(m, p, k, i, r)
    ensures Family(r, q, o)
  {
    assert LinkedAt(m, p, k, i - 1) && LinkedAt(m, p, k, i + 1);
    forall j ensures LinkedAt(r, q, o, j) {
      assert LinkedAt(m, q, o, j);
    }
  }

  lemma LinkedWithout(m: Links, kids: Kids, p: Layer?, i: nat, r: Links)
    requires Linked(m, kids) && p in kids && i < |kids[p]| && Unlinked(m, p, kids[p], i, r)
    ensures Linked(r, kids[p := Without(kids[p], i)])
  {
    var kids' := kids[p := Without(kids[p], i)];
    assert FamilyOf(m, kids, p);
    FamilyWithout(m, p, kids[p], i, r);
    forall q | q in kids' ensures FamilyOf(r, kids', q) {
      assert FamilyOf(m, kids, q);
      if q != p {
        FamilyOther(m, p, kids[p], q, kids[q], i, r);
      }
    }
  }

  /** The pointer changes of `lc_removeChild`. */
  method Unlink(fs: Layer, ghost all: set<Layer>, ghost k: seq<Layer>, ghost i: nat)
    requires fs in all && Family(Snap(all), fs.parent, k)
    requires i < |k| && k[i] == fs && (fs.parent == null ==> i > 0)
    modifies all`child, all`next, all`prev
    ensures Unlinked(old(Snap(all)), fs.parent, k, i, Snap(all))
  {
    var p := fs.parent;
    ghost var m := Snap(all);
    assert LinkedAt(m, p, k, i) && LinkedAt(m, p, k, i + 1) && LinkedAt(m, p, k, i - 1);
    if p != null && p.child == fs {
      assert i == 0;
      p.child := fs.next;
      if fs.next != null {
        fs.next.prev := null;
      }
    } else {
      assert i > 0;
      fs.prev.next := fs.next;
      if fs.next != null {
        fs.next.prev := fs.prev;
      }
    }
  }

  /** `lc_removeChild`: takes a layer out of the list of its siblings. */
  method RemoveChild(fs: Layer, ghost all: set<Layer>, ghost kids: Kids, ghost i: nat)
    requires fs in all && Linked(Snap(all), kids) && fs.parent in kids
    requires i < |kids[fs.parent]| && kids[fs.parent][i] == fs && (fs.parent == null ==> i > 0)
    modifies all`child, all`next, all`prev
    ensures Linked(Snap(all), kids[fs.parent := Without(kids[fs.parent], i)])
    ensures fs.parent != fs ==> fs.child == old(fs.child)
  {
    ghost var m := Snap(all);
    assert FamilyOf(m, kids, fs.parent);
    Unlink(fs, all, kids[fs.parent], i);
    LinkedWithout(m, kids, fs.parent, i, Snap(all));
    assert Snap(all)[fs].child == fs.child && m[fs].child == old(fs.child);
  }

  // ----- Putting a layer into a list -----

  /** A new layer goes after the first child. */
  function With(k: seq<Layer>, x: Layer): seq<Layer> {
    if k == [] then [x] else [k[0], x] + k[1..]
  }

  /** `x` is in no list. */
  ghost predicate Free(kids: Kids, x: Layer) {
    forall p {:trigger kids[p]} :: p in kids ==> x !in kids[p]
  }

  ghost predicate Inserted(m: Links, p: Layer?, k: seq<Layer>, x: Layer, r: Links) {
    && r.Keys == m.Keys
    && forall y {:trigger r[y]} :: y in m ==> r[y] == Ptrs(
         m[y].parent,
         if y == p && k == [] then x else m[y].child,
         if y == x then At(k, 1) else if y == At(k, 0) then x else m[y].next,
         if y == x then At(k, 0) else if y == At(k, 1) then x else m[y].prev)
  }

  lemma FamilyWith(m: Links, p: Layer?, k: seq<Layer>, x: Layer, r: Links)
    requires Family(m, p, k) && x in m && m[x].parent == p && x !in k && x != p && Inserted(m, p, k, x, r)
    ensures Family(r, p, With(k, x))
  {
    var w := With(k, x);
    forall j ensures LinkedAt(r, p, w, j) {
      assert LinkedAt(m, p, k, j) && LinkedAt(m, p, k, j - 1);
    }
  }

  lemma FamilyOtherWith(m: Links, p: Layer?, k: seq<Layer>, q: Layer?, o: seq<Layer>, x: Layer, r: Links)
    requires Family(m, p, k) && Family(m, q, o) && p != q && x !in o && Inserted(m, p, k, x, r)
    ensures Family(r, q, o)
  {
    assert LinkedAt(m, p, k, 0) && LinkedAt(m, p, k, 1);
    forall j ensures LinkedAt(r, q, o, j) {
      assert LinkedAt(m, q, o, j);
    }
  }

  lemma LinkedWith(m: Links, kids: Kids, p: Layer?, x: Layer, r: Links)
    requires Linked(m, kids) && p in kids && x in m && m[x].parent == p && x != p && Free(kids, x)
    requires Inserted(m, p, kids[p], x, r)
    ensures Linked(r, kids[p := With(kids[p], x)])
  {
    var kids' := kids[p := With(kids[p], x)];
    assert FamilyOf(m, kids, p);
    FamilyWith(m, p, kids[p], x, r);
    forall q | q in kids' ensures FamilyOf(r, kids', q) {
      assert FamilyOf(m, kids, q);
      if q != p {
        FamilyOtherWith(m, p, kids[p], q, kids[q], x, r);
      }
    }
  }

  /** The pointer changes of `lc_addChild`; `global` is the global root layer. */
  method Link(pfs: Layer?, fs: Layer, global: Layer, ghost all: set<Layer>, ghost k: seq<Layer>)
    requires fs in all && Family(Snap(all), pfs, k) && fs !in k && fs != pfs && fs.next == null && fs.prev == null
    requires pfs == null ==> k != [] && k[0] == global
    modifies all`child, all`next, all`prev
    ensures Inserted(old(Snap(all)), pfs, k, fs, Snap(all))
  {
    ghost var m := Snap(all);
    assert LinkedAt(m, pfs, k, 0) && LinkedAt(m, pfs, k, 1);
    var child := if pfs != null then pfs.child else global;
    if child != null {
      assert child == k[0];
      fs.prev := child;
      if child.next != null {
        child.next.prev := fs;
      }
      fs.next := child.next;
      child.next := fs;
    } else if pfs != null {
      pfs.child := fs;
    }
  }

  /** `lc_addChild`. */
  method AddChild(pfs: Layer?, fs: Layer, global: Layer, ghost all: set<Layer>, ghost kids: Kids)
    requires fs in all && Linked(Snap(all), kids) && pfs in kids && Free(kids, fs)
    requires fs.parent == pfs && fs != pfs && fs.next == null && fs.prev == null
    requires pfs == null ==> kids[null] != [] && kids[null][0] == global
    modifies all`child, all`next, all`prev
    ensures Linked(Snap(all), kids[pfs := With(kids[pfs], fs)])
  {
    ghost var m := Snap(all);
    assert FamilyOf(m, kids, pfs);
    Link(pfs, fs, global, all, kids[pfs]);
    LinkedWith(m, kids, pfs, fs, Snap(all));
  }

  // ----- Moving layers -----

  /** A list without the layers of `s`. */
  function Filter(k: seq<Layer>, s: set<Layer>): seq<Layer> {
    if k == [] then [] else if k[0] in s then Filter(k[1..], s) else [k[0]] + Filter(k[1..], s)
  }

  lemma {:induction false} FilterNone(k: seq<Layer>, s: set<Layer>)
    requires forall i :: 0 <= i < |k| ==> k[i] !in s
    ensures Filter(k, s) == k
  {
    if k != [] {
      FilterNone(k[1..], s);
    }
  }

  lemma {:induction false} FilterTwice(k: seq<Layer>, s: set<Layer>, t: set<Layer>)
    ensures Filter(Filter(k, s), t) == Filter(k, s + t)
  {
    if k != [] {
      FilterTwice(k[1..], s, t);
    }
  }

  lemma {:induction false} FilterMember(k: seq<Layer>, s: set<Layer>, x: Layer)
    ensures x in Filter(k, s) <==> x in k && x !in s
  {
    if k != [] {
      FilterMember(k[1..], s, x);
      assert k == [k[0]] + k[1..];
    }
  }

  lemma {:induction false} FilterOne(k: seq<Layer>, i: nat)
    requires i < |k| && Distinct(k)
    ensures Filter(k, {k[i]}) == Without(k, i)
  {
    if i == 0 {
      FilterNone(k[1..], {k[0]});
      assert Without(k, 0) == k[1..];
    } else {
      FilterOne(k[1..], i - 1);
      assert k[1..][i - 1] == k[i] && k[0] != k[i];
      assert Without(k, i) == [k[0]] + Without(k[1..], i - 1);
    }
  }

  /** `r` is the forest `kids` with layer `x` taken out of the list it is in. */
  ghost predicate TakenOut(kids: Kids, x: Layer, r: Kids) {
    r.Keys == kids.Keys && forall p {:trigger r[p]} :: p in kids ==> r[p] == Filter(kids[p], {x})
  }

  /** No list has a layer twice, and no layer is in two lists. */
  lemma ListedOnce(m: Links, kids: Kids, p: Layer?, i: nat, q: Layer?)
    requires Linked(m, kids) && p in kids && i < |kids[p]| && q in kids && q != p
    ensures kids[p][i] !in kids[q]
  {
    assert FamilyOf(m, kids, p) && FamilyOf(m, kids, q);
    assert LinkedAt(m, p, kids[p], i);
    forall j | 0 <= j < |kids[q]| ensures kids[q][j] != kids[p][i] {
      assert LinkedAt(m, q, kids[q], j);
    }
  }

  lemma TakeOut(m: Links, kids: Kids, p: Layer?, i: nat)
    requires Linked(m, kids) && p in kids && i < |kids[p]|
    ensures TakenOut(kids, kids[p][i], kids[p := Without(kids[p], i)])
    ensures Free(kids[p := Without(kids[p], i)], kids[p][i])
  {
    var x, r := kids[p][i], kids[p := Without(kids[p], i)];
    forall q | q in kids ensures r[q] == Filter(kids[q], {x}) && x !in r[q] {
      if q == p {
        assert FamilyOf(m, kids, p);
        FilterOne(kids[p], i);
      } else {
        ListedOnce(m, kids, p, i, q);
        FilterNone(kids[q], {x});
      }
      FilterMember(kids[q], {x}, x);
    }
  }

  /** A layer in no list can point anywhere. */
  lemma FreePointers(m: Links, kids: Kids, x: Layer, r: Links)
    requires Linked(m, kids) && Free(kids, x) && x in m && r.Keys == m.Keys && r[x].child == m[x].child
    requires forall y {:trigger r[y]} :: y in m && y != x ==> r[y] == m[y]
    ensures Linked(r, kids)
  {
    forall p | p in kids ensures FamilyOf(r, kids, p) {
      assert FamilyOf(m, kids, p);
      forall i ensures LinkedAt(r, p, kids[p], i) {
        assert LinkedAt(m, p, kids[p], i);
      }
    }
  }

  /** Takes a layer out of the forest and clears its sibling pointers. */
  method Detach(fs: Layer, global: Layer, ghost all: set<Layer>, ghost kids: Kids) returns (ghost kids': Kids)
    requires fs in all && Linked(Snap(all), kids) && fs.parent in kids && fs in kids[fs.parent] && fs != global
    requires null in kids && kids[null] != [] && kids[null][0] == global
    modifies all`child, all`next, all`prev
    ensures Linked(Snap(all), kids') && TakenOut(kids, fs, kids') && Free(kids', fs)
    ensures fs.next == null && fs.prev == null
  {
    ghost var i :| 0 <= i < |kids[fs.parent]| && kids[fs.parent][i] == fs;
    TakeOut(Snap(all), kids, fs.parent, i);
    RemoveChild(fs, all, kids, i);
    kids' := kids[fs.parent := Without(kids[fs.parent], i)];
    ghost var m := Snap(all);
    fs.prev := null;
    fs.next := null;
    FreePointers(m, kids', fs, Snap(all));
  }

  /** Puts a layer in no list among the children of `p`. */
  method Attach(p: Layer?, fs: Layer, global: Layer, ghost all: set<Layer>, ghost kids: Kids)
      returns (ghost kids': Kids)
    requires fs in all && Linked(Snap(all), kids) && p in kids && Free(kids, fs) && fs != p && fs.next == null
    requires fs.prev == null
    requires null in kids && kids[null] != [] && kids[null][0] == global
    modifies all`child, all`next, all`prev, fs`parent
    ensures fs.parent == p && kids' == kids[p := With(kids[p], fs)] && Linked(Snap(all), kids')
  {
    ghost var m := Snap(all);
    fs.parent := p;
    FreePointers(m, kids, fs, Snap(all));
    AddChild(p, fs, global, all, kids);
    kids' := kids[p := With(kids[p], fs)];
  }

  /** A layer without children that is in no list leaves the forest. */
  lemma LinkedDrop(m: Links, kids: Kids, x: Layer)
    requires Linked(m, kids) && Free(kids, x) && x in m && kids[x] == []
    ensures Linked(m - {x}, kids - {x})
  {
    var r := kids - {x};
    var m' := m - {x};
    forall p | p in r ensures FamilyOf(m', r, p) {
      assert FamilyOf(m, kids, p);
      forall i ensures LinkedAt(m', p, r[p], i) {
        assert LinkedAt(m, p, kids[p], i);
      }
    }
  }

  lemma SnapDrop(all: set<Layer>, x: Layer)
    requires x in all
    ensures Snap(all) - {x} == Snap(all - {x})
  {
  }

  /** `r` is the forest `kids` with layer `x` moved to the children of `p`. */
  ghost predicate Moved(kids: Kids, x: Layer, p: Layer?, r: Kids) {
    && r.Keys == kids.Keys
    && forall q {:trigger r[q]} :: q in kids ==>
         r[q] == if q == p then With(Filter(kids[q], {x}), x) else Filter(kids[q], {x})
  }

  /** Every layer is in the list of its parent. */
  ghost predicate Attached(m: Links, kids: Kids) {
    forall x {:trigger AttachedAt(m, kids, x)} :: x in m ==> AttachedAt(m, kids, x)
  }

  ghost predicate AttachedAt(m: Links, kids: Kids, x: Layer) {
    x in m ==> m[x].parent in kids && x in kids[m[x].parent]
  }

  lemma {:induction false} WithMember(k: seq<Layer>, x: Layer, y: Layer)
    ensures y in With(k, x) <==> y == x || y in k
  {
    if k != [] {
      assert k == [k[0]] + k[1..];
    }
  }

  lemma AttachedMoved(m: Links, kids: Kids, x: Layer, p: Layer?, r: Kids, m': Links)
    requires Attached(m, kids) && Moved(kids, x, p, r) && p in kids && m'.Keys == m.Keys
    requires forall y {:trigger m'[y]} :: y in m ==> m'[y].parent == if y == x then p else m[y].parent
    ensures Attached(m', r)
  {
    forall y | y in m' ensures AttachedAt(m', r, y) {
      var q := m'[y].parent;
      assert AttachedAt(m, kids, y);
      FilterMember(kids[q], {x}, y);
      WithMember(Filter(kids[q], {x}), x, y);
    }
  }

  /** The global root layer heads the list of layers without a parent. */
  ghost predicate Headed(kids: Kids, global: Layer) {
    null in kids && kids[null] != [] && kids[null][0] == global
  }

  lemma HeadStays(kids: Kids, x: Layer, global: Layer, r: Kids)
    requires Headed(kids, global) && x != global && TakenOut(kids, x, r)
    ensures Headed(r, global)
  {
    assert r[null] == Filter(kids[null], {x});
  }

  lemma MoveIs(kids: Kids, x: Layer, p: Layer?, k1: Kids, r: Kids)
    requires p in kids && TakenOut(kids, x, k1) && r == k1[p := With(k1[p], x)]
    ensures Moved(kids, x, p, r)
  {
  }

  /** Takes a layer out of its list, clears its sibling pointers and adds it to the children of `p`. */
  method Move(x: Layer, p: Layer?, global: Layer, ghost all: set<Layer>, ghost kids: Kids) returns (ghost kids': Kids)
    requires x in all && Linked(Snap(all), kids) && Attached(Snap(all), kids)
    requires x != global && x != p && p in kids && Headed(kids, global)
    modifies all`child, all`next, all`prev, x`parent
    ensures Linked(Snap(all), kids') && Attached(Snap(all), kids') && Headed(kids', global)
    ensures Moved(kids, x, p, kids') && x.parent == p
  {
    ghost var m := Snap(all);
    assert AttachedAt(m, kids, x);
    ghost var k1 := Detach(x, global, all, kids);
    HeadStays(kids, x, global, k1);
    kids' := Attach(p, x, global, all, k1);
    MoveIs(kids, x, p, k1, kids');
    AttachedMoved(m, kids, x, p, kids', Snap(all));
  }

  /** `r` is the forest `kids` without the layers of `gone`. */
  ghost predicate Dropped(kids: Kids, gone: set<Layer>, r: Kids) {
    r.Keys == kids.Keys - gone && forall q {:trigger r[q]} :: q in kids && q !in gone ==> r[q] == Filter(kids[q], gone)
  }

  lemma AttachedDropped(m: Links, kids: Kids, x: Layer, r: Kids, m': Links)
    requires Attached(m, kids) && x in m && x in kids && kids[x] == [] && Dropped(kids, {x}, r)
    requires m'.Keys == m.Keys - {x}
    requires forall y {:trigger m'[y]} :: y in m && y != x ==> m'[y].parent == m[y].parent
    ensures Attached(m', r)
  {
    forall y | y in m' ensures AttachedAt(m', r, y) {
      var q := m'[y].parent;
      assert AttachedAt(m, kids, y);
      FilterMember(kids[q], {x}, y);
    }
  }

  /** A layer without children leaves the forest. */
  method Drop(x: Layer, global: Layer, ghost all: set<Layer>, ghost kids: Kids) returns (ghost kids': Kids)
    requires x in all && Linked(Snap(all), kids) && Attached(Snap(all), kids)
    requires x != global && Headed(kids, global) && kids[x] == []
    modifies all`child, all`next, all`prev
    ensures Linked(Snap(all - {x}), kids') && Attached(Snap(all - {x}), kids') && Headed(kids', global)
    ensures Dropped(kids, {x}, kids')
  {
    ghost var m := Snap(all);
    assert AttachedAt(m, kids, x);
    ghost var k1 := Detach(x, global, all, kids);
    kids' := k1 - {x};
    DropForest(m, kids, x, global, k1, Snap(all));
    SnapDrop(all, x);
  }

  lemma DropForest(m: Links, kids: Kids, x: Layer, global: Layer, k1: Kids, m1: Links)
    requires Linked(m, kids) && Attached(m, kids) && x in m && kids[x] == [] && Headed(kids, global) && x != global
    requires Linked(m1, k1) && TakenOut(kids, x, k1) && Free(k1, x) && m1.Keys == m.Keys
    requires forall y {:trigger m1[y]} :: y in m ==> m1[y].parent == m[y].parent
    ensures Linked(m1 - {x}, k1 - {x}) && Attached(m1 - {x}, k1 - {x}) && Headed(k1 - {x}, global)
    ensures Dropped(kids, {x}, k1 - {x})
  {
    HeadStays(kids, x, global, k1);
    DropIs(kids, x, k1);
    assert k1[x] == Filter(kids[x], {x});
    LinkedDrop(m1, k1, x);
    AttachedDropped(m, kids, x, k1 - {x}, m1 - {x});
  }

  lemma DropIs(kids: Kids, x: Layer, k1: Kids)
    requires TakenOut(kids, x, k1)
    ensures Dropped(kids, {x}, k1 - {x})
  {
  }

  // ----- The rotation of lc_commitLayer -----

  /** The layers a commit moves: `cfs` is the only child of `pfs`, and neither `cfs` nor `fs` has children. */
  ghost predicate CanRotate(kids: Kids, par: Layer?, fs: Layer, cfs: Layer, pfs: Layer) {
    && {fs, cfs, pfs} <= kids.Keys && par in kids && fs in kids[par] && fs != cfs
    && kids[pfs] == [cfs] && kids[cfs] == [] && kids[fs] == []
  }

  lemma RotateFacts(m: Links, kids: Kids, par: Layer?, fs: Layer, cfs: Layer, pfs: Layer)
    requires Linked(m, kids) && CanRotate(kids, par, fs, cfs, pfs)
    ensures fs != pfs && par != pfs && par != cfs && par != fs && cfs != pfs
    ensures m[cfs].parent == pfs && m[fs].parent == par
    ensures forall p {:trigger kids[p]} :: p in kids && p != pfs ==> cfs !in kids[p]
    ensures forall p {:trigger kids[p]} :: p in kids && p != par ==> fs !in kids[p]
  {
    assert FamilyOf(m, kids, pfs) && FamilyOf(m, kids, par);
    assert LinkedAt(m, pfs, kids[pfs], 0);
    var i :| 0 <= i < |kids[par]| && kids[par][i] == fs;
    assert LinkedAt(m, par, kids[par], i);
    forall p | p in kids && p != pfs ensures cfs !in kids[p] {
      ListedOnce(m, kids, pfs, 0, p);
    }
    forall p | p in kids && p != par ensures fs !in kids[p] {
      ListedOnce(m, kids, par, i, p);
    }
  }

  /** What a commit makes of the children of `p`: the committed layer `cfs` joins those of `par` and gets `pfs` as its
      only child, which gets `fs` as its only child; the layers of `gone` leave. */
  ghost function Rotated(kids: Kids, par: Layer?, fs: Layer, cfs: Layer, pfs: Layer, gone: set<Layer>,
                         p: Layer?): seq<Layer>
    requires p in kids
  {
    if p == cfs then [pfs] else if p == pfs then [fs]
    else Filter(if p == par then With(kids[p], cfs) else kids[p], {pfs} + gone + {fs})
  }

  lemma RotateOne(m: Links, kids: Kids, par: Layer?, fs: Layer, cfs: Layer, pfs: Layer, gone: set<Layer>, k1: Kids,
                  k2: Kids, k3: Kids, k4: Kids, p: Layer?)
    requires Linked(m, kids) && CanRotate(kids, par, fs, cfs, pfs) && {fs, cfs, pfs} !! gone
    requires Moved(kids, cfs, par, k1) && Moved(k1, pfs, cfs, k2) && Dropped(k2, gone, k3) && Moved(k3, fs, pfs, k4)
    requires p in kids && p !in gone
    ensures p in k4 && k4[p] == Rotated(kids, par, fs, cfs, pfs, gone, p)
  {
    RotateFacts(m, kids, par, fs, cfs, pfs);
    assert p in k1 && p in k2 && p in k3 && p in k4;
    if p == pfs {
      assert [cfs][1..] == [];
      assert k1[p] == [] && k2[p] == [] && k3[p] == [];
    } else {
      FilterNone(kids[p], {cfs});
      var a := if p == par then With(kids[p], cfs) else kids[p];
      assert k1[p] == a;
      if p == cfs {
        assert k2[p] == [pfs];
        FilterNone([pfs], gone);
        FilterNone([pfs], {fs});
      } else {
        FilterTwice(a, {pfs}, gone);
        FilterTwice(a, {pfs} + gone, {fs});
      }
    }
  }

  /** The zombie a commit removes: the old parent of `pfs`, which had no other child. */
  ghost predicate CanGo(kids: Kids, pfs: Layer, zombie: Layer?, global: Layer) {
    zombie != null ==> zombie in kids && zombie != global && kids[zombie] == [pfs]
  }

  ghost function Gone(zombie: Layer?): set<Layer> {
    if zombie == null then {} else {zombie}
  }

  /** The lists of children after the rotation. */
  ghost predicate Turned(kids: Kids, par: Layer?, fs: Layer, cfs: Layer, pfs: Layer, gone: set<Layer>, kids': Kids) {
    && kids'.Keys == kids.Keys - gone
    && forall p {:trigger kids'[p]} :: p in kids' ==> kids'[p] == Rotated(kids, par, fs, cfs, pfs, gone, p)
  }

  lemma EmptyFilter(x: Layer)
    ensures Filter([x], {x}) == []
  {
    assert [x][1..] == [];
  }

  lemma ZombieChildless(m: Links, kids: Kids, par: Layer?, fs: Layer, cfs: Layer, pfs: Layer, zombie: Layer?,
                        global: Layer, k1: Kids, k2: Kids)
    requires Linked(m, kids) && CanRotate(kids, par, fs, cfs, pfs) && CanGo(kids, pfs, zombie, global)
    requires Moved(kids, cfs, par, k1) && Moved(k1, pfs, cfs, k2)
    ensures {fs, cfs, pfs} !! Gone(zombie) && (zombie != null ==> zombie != par && k2[zombie] == [])
  {
    RotateFacts(m, kids, par, fs, cfs, pfs);
    if zombie != null {
      assert kids[zombie] == [pfs] && fs !in kids[zombie] ==> zombie != par;
      FilterNone(kids[zombie], {cfs});
      assert k1[zombie] == [pfs];
      EmptyFilter(pfs);
      assert k2[zombie] == [];
    }
  }

  lemma DroppedMore(k: Kids, s: set<Layer>, r: Kids, t: set<Layer>, u: Kids)
    requires Dropped(k, s, r) && Dropped(r, t, u)
    ensures Dropped(k, s + t, u)
  {
    forall q | q in k && q !in s + t ensures u[q] == Filter(k[q], s + t) {
      assert r[q] == Filter(k[q], s);
      FilterTwice(k[q], s, t);
    }
  }

  lemma NothingDropped(kids: Kids)
    ensures Dropped(kids, {}, kids)
  {
    forall q | q in kids ensures Filter(kids[q], {}) == kids[q] {
      FilterNone(kids[q], {});
    }
  }

  /** The committed layer takes the place of `fs`, and its parent becomes its child. */
  method RotateUp(fs: Layer, cfs: Layer, pfs: Layer, global: Layer, ghost all: set<Layer>, ghost kids: Kids)
    returns (ghost k1: Kids, ghost k2: Kids)
    requires {fs, cfs, pfs} <= all && global !in {fs, cfs, pfs} && Headed(kids, global)
    requires Linked(Snap(all), kids) && Attached(Snap(all), kids) && CanRotate(kids, fs.parent, fs, cfs, pfs)
    modifies all`child, all`next, all`prev, cfs`parent, pfs`parent
    ensures Linked(Snap(all), k2) && Attached(Snap(all), k2) && Headed(k2, global)
    ensures Moved(kids, cfs, fs.parent, k1) && Moved(k1, pfs, cfs, k2) && cfs.parent == fs.parent && pfs.parent == cfs
    ensures fs != cfs && fs != pfs && cfs != pfs
  {
    RotateFacts(Snap(all), kids, fs.parent, fs, cfs, pfs);
    k1 := Move(cfs, fs.parent, global, all, kids);
    k2 := Move(pfs, cfs, global, all, k1);
  }

  /** The pointer changes of `lc_commitLayer`, in which `fs` is committed by way of `cfs`, a child of `pfs`. */
  method Rotate(fs: Layer, cfs: Layer, pfs: Layer, zombie: Layer?, global: Layer, ghost all: set<Layer>,
                ghost kids: Kids)
    returns (ghost kids': Kids)
    requires {fs, cfs, pfs} <= all && global !in {fs, cfs, pfs} && Headed(kids, global)
    requires (zombie != null ==> zombie in all)
    requires Linked(Snap(all), kids) && Attached(Snap(all), kids)
    requires CanRotate(kids, fs.parent, fs, cfs, pfs) && CanGo(kids, pfs, zombie, global)
    modifies all`child, all`next, all`prev, fs`parent, cfs`parent, pfs`parent
    ensures Linked(Snap(all - Gone(zombie)), kids') && Attached(Snap(all - Gone(zombie)), kids')
    ensures Headed(kids', global)
    ensures Turned(kids, old(fs.parent), fs, cfs, pfs, Gone(zombie), kids')
    ensures cfs.parent == old(fs.parent) && pfs.parent == cfs && fs.parent == pfs
  {
    ghost var m, par := Snap(all), fs.parent;
    ghost var k1, k2 := RotateUp(fs, cfs, pfs, global, all, kids);
    ZombieChildless(m, kids, par, fs, cfs, pfs, zombie, global, k1, k2);
    ghost var k3 := DropZombie(zombie, global, all, k2);
    kids' := Move(fs, pfs, global, all - Gone(zombie), k3);
    RotateAll(m, kids, par, fs, cfs, pfs, Gone(zombie), k1, k2, k3, kids');
  }

  method DropZombie(zombie: Layer?, global: Layer, ghost all: set<Layer>, ghost kids: Kids) returns (ghost kids': Kids)
    requires Linked(Snap(all), kids) && Attached(Snap(all), kids) && Headed(kids, global)
    requires zombie != null ==> zombie in all && zombie != global && kids[zombie] == []
    modifies all`child, all`next, all`prev
    ensures Linked(Snap(all - Gone(zombie)), kids') && Attached(Snap(all - Gone(zombie)), kids')
    ensures Headed(kids', global)
    ensures Dropped(kids, Gone(zombie), kids')
  {
    if zombie != null {
      kids' := Drop(zombie, global, all, kids);
    } else {
      kids' := kids;
      NothingDropped(kids);
      assert all - Gone(zombie) == all;
    }
  }

  lemma RotateAll(m: Links, kids: Kids, par: Layer?, fs: Layer, cfs: Layer, pfs: Layer, gone: set<Layer>, k1: Kids,
                  k2: Kids, k3: Kids, k4: Kids)
    requires Linked(m, kids) && CanRotate(kids, par, fs, cfs, pfs) && {fs, cfs, pfs} !! gone
    requires Moved(kids, cfs, par, k1) && Moved(k1, pfs, cfs, k2) && Dropped(k2, gone, k3) && Moved(k3, fs, pfs, k4)
    ensures Turned(kids, par, fs, cfs, pfs, gone, k4)
  {
    forall p | p in k4 ensures k4[p] == Rotated(kids, par, fs, cfs, pfs, gone, p) {
      RotateOne(m, kids, par, fs, cfs, pfs, gone, k1, k2, k3, k4, p);
    }
  }

  // ----- The table of layers -----

  datatype Id = Id(gindex: int, root: nat)

  /** The indices and roots of a set of layers. */
  ghost function Ids(all: set<Layer>): map<Layer, Id>
    reads all
  {
    map x | x in all :: Id(x.gindex, x.root)
  }

  lemma SnapAdd(all: set<Layer>, x: Layer)
    requires x !in all
    ensures Ids(all + {x}) == Ids(all)[x := Id(x.gindex, x.root)]
    ensures Snap(all + {x}) == Snap(all)[x := Ptrs(x.parent, x.child, x.next, x.prev)]
  {
  }

  lemma IdsDrop(all: set<Layer>, x: Layer)
    requires x in all
    ensures Ids(all) - {x} == Ids(all - {x})
  {
  }

  /** The entry of `gfs_fs` and `gfs_roots` at index `i`. */
  ghost predicate EntryAt(fs: seq<Layer?>, roots: seq<nat>, ids: map<Layer, Id>, i: nat)
    requires i < |fs| == |roots|
  {
    if fs[i] == null then roots[i] == 0 else fs[i] in ids && ids[fs[i]] == Id(i, roots[i])
  }

  /** A layer is in the table at its index. */
  ghost predicate InTable(fs: seq<Layer?>, ids: map<Layer, Id>, x: Layer)
    requires x in ids
  {
    0 <= ids[x].gindex < |fs| && fs[ids[x].gindex] == x
  }

  /** `gfs_fs` and `gfs_roots` against the index and the root each layer has. */
  ghost predicate Indexed(fs: seq<Layer?>, roots: seq<nat>, ids: map<Layer, Id>) {
    && |roots| == |fs|
    && (forall i: nat {:trigger EntryAt(fs, roots, ids, i)} :: i < |fs| ==> EntryAt(fs, roots, ids, i))
    && (forall x: Layer {:trigger InTable(fs, ids, x)} :: x in ids ==> InTable(fs, ids, x))
  }

  /** Two layers exchange their indices and roots. */
  ghost function Swapped(ids: map<Layer, Id>, a: Layer, b: Layer): map<Layer, Id>
    requires a in ids && b in ids
  {
    ids[a := ids[b]][b := ids[a]]
  }

  lemma IndexedSwap(fs: seq<Layer?>, roots: seq<nat>, ids: map<Layer, Id>, a: Layer, b: Layer)
    requires Indexed(fs, roots, ids) && a in ids && b in ids && a != b
    ensures InTable(fs, ids, a) && InTable(fs, ids, b)
    ensures Indexed(fs[ids[b].gindex := a][ids[a].gindex := b], roots, Swapped(ids, a, b))
  {
    assert InTable(fs, ids, a) && InTable(fs, ids, b);
    assert EntryAt(fs, roots, ids, ids[a].gindex) && EntryAt(fs, roots, ids, ids[b].gindex);
    var fs', ids' := fs[ids[b].gindex := a][ids[a].gindex := b], Swapped(ids, a, b);
    forall i: nat | i < |fs'| ensures EntryAt(fs', roots, ids', i) {
      assert EntryAt(fs, roots, ids, i);
    }
    forall x: Layer | x in ids' ensures InTable(fs', ids', x) {
      assert InTable(fs, ids, x);
    }
  }

  lemma IndexedForget(fs: seq<Layer?>, roots: seq<nat>, ids: map<Layer, Id>, a: Layer)
    requires Indexed(fs, roots, ids) && a in ids
    ensures InTable(fs, ids, a)
    ensures Indexed(fs[ids[a].gindex := null], roots[ids[a].gindex := 0], ids - {a})
  {
    assert InTable(fs, ids, a);
    var fs', roots', ids' := fs[ids[a].gindex := null], roots[ids[a].gindex := 0], ids - {a};
    forall i: nat | i < |fs'| ensures EntryAt(fs', roots', ids', i) {
      assert EntryAt(fs, roots, ids, i);
    }
    forall x: Layer | x in ids' ensures InTable(fs', ids', x) {
      assert InTable(fs, ids, x);
    }
  }

  lemma IndexedAdd(fs: seq<Layer?>, roots: seq<nat>, ids: map<Layer, Id>, a: Layer, i: nat, root: nat)
    requires Indexed(fs, roots, ids) && a !in ids && i < |fs| && fs[i] == null
    ensures Indexed(fs[i := a], roots[i := root], ids[a := Id(i, root)])
  {
    var fs', roots', ids' := fs[i := a], roots[i := root], ids[a := Id(i, root)];
    forall j: nat | j < |fs'| ensures EntryAt(fs', roots', ids', j) {
      assert EntryAt(fs, roots, ids, j);
    }
    forall x: Layer | x in ids' ensures InTable(fs', ids', x) {
      if x != a {
        assert InTable(fs, ids, x);
      }
    }
  }

  /** Parents come before their children in some order, so no layer is its own ancestor. */
  ghost predicate Ranked(m: Links, rank: map<Layer, nat>) {
    forall x {:trigger RankedAt(m, rank, x)} :: x in m ==> RankedAt(m, rank, x)
  }

  ghost predicate RankedAt(m: Links, rank: map<Layer, nat>, x: Layer)
    requires x in m
  {
    x in rank && (m[x].parent != null ==> m[x].parent in rank && rank[m[x].parent] < rank[x])
  }

  /** The layer `n` steps up from `x`. */
  ghost function Ancestor(m: Links, x: Layer?, n: nat): Layer? {
    if n == 0 || x == null || x !in m then x else Ancestor(m, m[x].parent, n - 1)
  }

  /** Ranked pointers have no cycle: every walk up the tree ends. */
  lemma {:induction false} NoCycle(m: Links, rank: map<Layer, nat>, x: Layer, n: nat)
    requires Ranked(m, rank) && x in m && n > 0
    requires (forall y {:trigger m[y]} :: y in m ==> m[y].parent == null || m[y].parent in m)
    ensures Ancestor(m, x, n) != x
    ensures Ancestor(m, x, n) != null ==> Ancestor(m, x, n) in m && Ancestor(m, x, n) in rank && x in rank
    ensures Ancestor(m, x, n) != null ==> rank[Ancestor(m, x, n)] < rank[x]
  {
    var p := m[x].parent;
    assert RankedAt(m, rank, x);
    if p != null && n > 1 {
      NoCycle(m, rank, p, n - 1);
    }
  }

  /** The layers a commit moves have no other children. */
  lemma NoOtherChildren(m: Links, kids: Kids, par: Layer?, fs: Layer, cfs: Layer, pfs: Layer, x: Layer)
    requires Attached(m, kids) && CanRotate(kids, par, fs, cfs, pfs) && x in m && x != cfs
    ensures m[x].parent != fs && m[x].parent != cfs && m[x].parent != pfs
  {
    assert AttachedAt(m, kids, x);
  }

  /** A commit leaves the layers ranked. */
  /** What a commit means: the committed layer is a child of the parent of `fs`, the layer it was made from is its only
      child, and `fs` the only child of that. Every other layer that is not gone keeps its parent. */
  lemma TurnedLaw(m: Links, kids: Kids, par: Layer?, fs: Layer, cfs: Layer, pfs: Layer, gone: set<Layer>, kids': Kids,
                  p: Layer?, x: Layer)
    requires Linked(m, kids) && CanRotate(kids, par, fs, cfs, pfs) && Turned(kids, par, fs, cfs, pfs, gone, kids')
    requires p in kids'
    ensures (p == cfs ==> kids'[p] == [pfs]) && (p == pfs ==> kids'[p] == [fs]) && (p == fs ==> kids'[p] == [])
    ensures p != cfs && p != pfs && x !in gone ==>
              (x in kids'[p] <==> if x == cfs then p == par else x in kids[p] && x != fs && x != pfs)
    ensures x in kids'[p] && p != cfs && p != pfs ==> x !in gone
  {
    RotateFacts(m, kids, par, fs, cfs, pfs);
    var k := if p == par then With(kids[p], cfs) else kids[p];
    FilterMember(k, {pfs} + gone + {fs}, x);
  }

  lemma RankRotated(m: Links, rank: map<Layer, nat>, par: Layer?, fs: Layer, cfs: Layer, pfs: Layer, r: Links)
    requires Ranked(m, rank) && (par != null ==> par in rank) && fs != cfs && fs != pfs && cfs != pfs
    requires par !in {fs, cfs, pfs}
    requires Reparented(m, par, fs, cfs, pfs, r)
    requires forall x {:trigger m[x]} :: x in m && x != cfs ==>
              m[x].parent != fs && m[x].parent != cfs && m[x].parent != pfs
    ensures var base := if par == null then 0 else rank[par];
            Ranked(r, rank[cfs := base + 1][pfs := base + 2][fs := base + 3])
  {
    var base := if par == null then 0 else rank[par];
    var rank' := rank[cfs := base + 1][pfs := base + 2][fs := base + 3];
    forall x | x in r ensures RankedAt(r, rank', x) {
      assert RankedAt(m, rank, x);
    }
  }

  ghost function NewRank(rank: map<Layer, nat>, par: Layer?, fs: Layer, cfs: Layer, pfs: Layer): map<Layer, nat> {
    var base := if par != null && par in rank then rank[par] else 0;
    rank[cfs := base + 1][pfs := base + 2][fs := base + 3]
  }

  lemma RankCommit(m: Links, kids: Kids, rank: map<Layer, nat>, par: Layer?, fs: Layer, cfs: Layer, pfs: Layer,
                   r: Links)
    requires Linked(m, kids) && Attached(m, kids) && Ranked(m, rank) && CanRotate(kids, par, fs, cfs, pfs)
    requires Reparented(m, par, fs, cfs, pfs, r)
    ensures Ranked(r, NewRank(rank, par, fs, cfs, pfs))
  {
    RotateFacts(m, kids, par, fs, cfs, pfs);
    forall x | x in m && x != cfs ensures m[x].parent != fs && m[x].parent != cfs && m[x].parent != pfs {
      NoOtherChildren(m, kids, par, fs, cfs, pfs, x);
    }
    assert RankedAt(m, rank, fs);
    RankRotated(m, rank, par, fs, cfs, pfs, r);
  }

  /** A new layer, with no children and in no list, comes into the forest. */
  lemma LinkedGrow(m: Links, kids: Kids, x: Layer, r: Links)
    requires Linked(m, kids) && x !in m && r.Keys == m.Keys + {x} && r[x].child == null
    requires forall y {:trigger r[y]} :: y in m ==> r[y] == m[y]
    ensures Linked(r, kids[x := []]) && Free(kids[x := []], x)
  {
    var kids' := kids[x := []];
    forall p | p in kids' ensures FamilyOf(r, kids', p) {
      if p != x {
        assert FamilyOf(m, kids, p);
        forall i ensures LinkedAt(r, p, kids'[p], i) {
          assert LinkedAt(m, p, kids[p], i);
        }
      }
    }
    forall p | p in kids' ensures x !in kids'[p] {
      if p != x {
        assert FamilyOf(m, kids, p);
        forall i | 0 <= i < |kids[p]| ensures kids[p][i] != x {
          assert LinkedAt(m, p, kids[p], i);
        }
      }
    }
  }

  lemma AttachedGrow(m: Links, kids: Kids, x: Layer, p: Layer?, r: Links)
    requires Attached(m, kids) && x !in m && p in kids && p != x && x !in kids && r.Keys == m.Keys + {x}
    requires forall y {:trigger r[y]} :: y in r ==> r[y].parent == if y == x then p else m[y].parent
    ensures Attached(r, kids[x := []][p := With(kids[p], x)])
  {
    var kids' := kids[x := []][p := With(kids[p], x)];
    forall y | y in r ensures AttachedAt(r, kids', y) {
      if y != x {
        assert AttachedAt(m, kids, y);
      }
      WithMember(kids[p], x, y);
    }
  }

  /** The parents after the rotation. */
  ghost predicate Reparented(m: Links, par: Layer?, fs: Layer, cfs: Layer, pfs: Layer, r: Links) {
    r.Keys <= m.Keys && forall x {:trigger r[x]} :: x in r ==>
      r[x].parent == if x == cfs then par else if x == pfs then cfs else if x == fs then pfs else m[x].parent
  }

  /** The rotation, and that it leaves indices and the parents of other layers alone. */
  method RotateOnly(fs: Layer, cfs: Layer, pfs: Layer, zombie: Layer?, global: Layer, ghost all: set<Layer>,
                    ghost kids: Kids)
    returns (ghost kids': Kids)
    requires {fs, cfs, pfs} <= all && global !in {fs, cfs, pfs} && Headed(kids, global)
    requires (zombie != null ==> zombie in all)
    requires Linked(Snap(all), kids) && Attached(Snap(all), kids)
    requires CanRotate(kids, fs.parent, fs, cfs, pfs) && CanGo(kids, pfs, zombie, global)
    modifies all`child, all`next, all`prev, fs`parent, cfs`parent, pfs`parent
    ensures Linked(Snap(all - Gone(zombie)), kids') && Attached(Snap(all - Gone(zombie)), kids')
    ensures Headed(kids', global)
    ensures Turned(kids, old(fs.parent), fs, cfs, pfs, Gone(zombie), kids') && Ids(all) == old(Ids(all))
    ensures cfs.parent == old(fs.parent) && pfs.parent == cfs && fs.parent == pfs
    ensures Reparented(old(Snap(all)), old(fs.parent), fs, cfs, pfs, Snap(all - Gone(zombie)))
  {
    kids' := Rotate(fs, cfs, pfs, zombie, global, all, kids);
  }

  /** The rotation, with a new order of the layers to show that it makes no cycle. */
  method RotateRanked(fs: Layer, cfs: Layer, pfs: Layer, zombie: Layer?, global: Layer, ghost all: set<Layer>,
                      ghost kids: Kids, ghost rank: map<Layer, nat>)
    returns (ghost kids': Kids, ghost rank': map<Layer, nat>)
    requires {fs, cfs, pfs} <= all && global !in {fs, cfs, pfs} && Headed(kids, global)
    requires (zombie != null ==> zombie in all)
    requires Linked(Snap(all), kids) && Attached(Snap(all), kids) && Ranked(Snap(all), rank)
    requires CanRotate(kids, fs.parent, fs, cfs, pfs) && CanGo(kids, pfs, zombie, global)
    modifies all`child, all`next, all`prev, fs`parent, cfs`parent, pfs`parent
    ensures Linked(Snap(all) - Gone(zombie), kids') && Attached(Snap(all) - Gone(zombie), kids')
    ensures Headed(kids', global)
    ensures Ranked(Snap(all) - Gone(zombie), rank') && Ids(all) == old(Ids(all))
    ensures Turned(kids, old(fs.parent), fs, cfs, pfs, Gone(zombie), kids')
    ensures cfs.parent == old(fs.parent) && pfs.parent == cfs && fs.parent == pfs
  {
    ghost var m, par := Snap(all), fs.parent;
    kids' := RotateOnly(fs, cfs, pfs, zombie, global, all, kids);
    RankCommit(m, kids, rank, par, fs, cfs, pfs, Snap(all - Gone(zombie)));
    rank' := NewRank(rank, par, fs, cfs, pfs);
    SnapWithout(all, Gone(zombie));
  }

  lemma SnapWithout(all: set<Layer>, gone: set<Layer>)
    ensures Snap(all - gone) == Snap(all) - gone
  {
  }

  /** No layer has an index above `scount`. */
  ghost predicate EmptyAbove(fs: seq<Layer?>, scount: nat) {
    forall i {:trigger fs[i]} :: scount < i < |fs| ==> fs[i] == null
  }

  /** The table of layers is right and the pointers of the layers form a forest. */
  ghost predicate Sound(fs: seq<Layer?>, roots: seq<nat>, scount: nat, m: Links, ids: map<Layer, Id>, kids: Kids,
                        rank: map<Layer, nat>)
  {
    && scount < |fs| && fs[0] != null && Indexed(fs, roots, ids) && EmptyAbove(fs, scount)
    && Linked(m, kids) && Attached(m, kids) && Headed(kids, fs[0]) && Ranked(m, rank)
  }

  lemma OneLayer(global: Layer, m: Links, kids: Kids)
    requires m == map[global := Ptrs(null, null, null, null)] && kids == map[null := [global], global := []]
    ensures Linked(m, kids) && Attached(m, kids)
  {
    forall p | p in kids ensures FamilyOf(m, kids, p) {
    }
  }

  /** The layers of `gone` are gone, and the others keep their indices, roots and children. */
  ghost predicate Removed(ids0: map<Layer, Id>, kids0: Kids, gone: set<Layer>, ids: map<Layer, Id>, kids: Kids) {
    ids == ids0 - gone && Dropped(kids0, gone, kids)
  }

  lemma RemovedMore(ids0: map<Layer, Id>, kids0: Kids, s: set<Layer>, ids: map<Layer, Id>, kids: Kids, t: set<Layer>,
                    ids': map<Layer, Id>, kids': Kids)
    requires Removed(ids0, kids0, s, ids, kids) && Removed(ids, kids, t, ids', kids')
    ensures Removed(ids0, kids0, s + t, ids', kids')
  {
    DroppedMore(kids0, s, kids, t, kids');
  }

  lemma RemovedNext(ids0: map<Layer, Id>, kids0: Kids, zombies: seq<Layer>, i: nat, ids: map<Layer, Id>, kids: Kids,
                    ids': map<Layer, Id>, kids': Kids)
    requires i < |zombies| && Removed(ids0, kids0, Members(zombies[..i]), ids, kids)
    requires Removed(ids, kids, {zombies[i]}, ids', kids')
    ensures Removed(ids0, kids0, Members(zombies[..i + 1]), ids', kids')
  {
    RemovedMore(ids0, kids0, Members(zombies[..i]), ids, kids, {zombies[i]}, ids', kids');
    MembersNext({}, zombies, i);
  }

  lemma NothingRemoved(ids: map<Layer, Id>, kids: Kids)
    ensures Removed(ids, kids, {}, ids, kids) && Members([]) == {}
  {
    NothingDropped(kids);
    assert ids - {} == ids;
  }

  /** `struct gfs`, as far as the tree of layers is concerned. */
  class Forest {
    var fs: seq<Layer?>   // gfs_fs
    var roots: seq<nat>   // gfs_roots
    var scount: nat       // gfs_scount

    ghost var all: set<Layer>
    ghost var kids: Kids
    ghost var rank: map<Layer, nat>

    ghost predicate Valid()
      reads this, all
    {
      Sound(fs, roots, scount, Snap(all), Ids(all), kids, rank)
    }

    /** A file system with the root layer only, and room for `max` layers. */
    constructor (root: nat, max: nat)
      requires max > 0
      ensures Valid() && |fs| == max && scount == 0 && fresh(all) && all == {fs[0]} && fs[0].root == root
      ensures kids == map[null := [fs[0]], fs[0] := []]
    {
      var global := new Layer(root, null);
      global.gindex := 0;
      fs, roots, scount := [global] + seq(max - 1, _ => null), [root] + seq(max - 1, _ => 0), 0;
      all, kids, rank := {global}, map[null := [global], global := []], map[global := 0];
      new;
      OneLayer(global, Snap(all), kids);
    }

    /** The part of `lc_commitLayer` that exchanges the roots and indices of two layers. */
    method Swap(layer: Layer, committed: Layer)
      requires scount < |fs| && Indexed(fs, roots, Ids(all)) && layer in all && committed in all && layer != committed
      requires fs[0] !in {layer, committed} && EmptyAbove(fs, scount)
      modifies this`fs, layer`root, layer`gindex, committed`root, committed`gindex
      ensures |fs| == |old(fs)| && fs[0] == old(fs[0]) && Indexed(fs, roots, Ids(all)) && EmptyAbove(fs, scount)
      ensures Ids(all) == Swapped(old(Ids(all)), layer, committed)
      ensures Snap(all) == old(Snap(all))
      ensures layer.gindex == old(committed.gindex) && layer.root == old(committed.root)
      ensures committed.gindex == old(layer.gindex) && committed.root == old(layer.root)
    {
      ghost var ids: map<Layer, Id> := Ids(all);
      IndexedSwap(fs, roots, ids, layer, committed);
      var gindex, newgindex, root := layer.gindex, committed.gindex, layer.root;
      layer.root := committed.root;
      committed.root := root;
      layer.gindex := newgindex;
      committed.gindex := gindex;
      fs := fs[newgindex := layer][gindex := committed];
      assert Ids(all) == Swapped(ids, layer, committed);
    }

    /** The part of `lc_removeLayer` that takes a layer, if there is one, out of the table. */
    method Forget(layer: Layer?)
      requires scount < |fs| && Indexed(fs, roots, Ids(all)) && EmptyAbove(fs, scount)
      requires layer != null ==> layer in all && layer != fs[0]
      modifies this`fs, this`roots, this`all, Gone(layer)`gindex
      ensures |fs| == |old(fs)| && fs[0] == old(fs[0]) && all == old(all) - Gone(layer)
      ensures Indexed(fs, roots, Ids(all)) && EmptyAbove(fs, scount)
      ensures Ids(all) == old(Ids(all)) - Gone(layer) && Snap(all) == old(Snap(all)) - Gone(layer)
    {
      if layer != null {
        ghost var ids: map<Layer, Id> := Ids(all);
        IndexedForget(fs, roots, ids, layer);
        IdsDrop(all, layer);
        SnapDrop(all, layer);
        fs, roots, all := fs[layer.gindex := null], roots[layer.gindex := 0], all - {layer};
        layer.gindex := -1;
      }
    }

    /** The forest the pointers now stand for. */
    ghost method Regard(k: Kids, r: map<Layer, nat>)
      modifies this`kids, this`rank
      ensures kids == k && rank == r && Snap(all) == old(Snap(all)) && Ids(all) == old(Ids(all))
    {
      kids, rank := k, r;
    }

    /** `lc_commitLayer`: `layer` and `committed` exchange roots and indices; the committed layer takes the place of
        `layer` under its parent, its own parent becomes its child, and `layer` the child of that. */
    method CommitLayer(layer: Layer, committed: Layer, pfs: Layer, zombie: Layer?)
      requires Valid() && {layer, committed, pfs} <= all && committed.parent == pfs && fs[0] !in {layer, committed, pfs}
      requires CanRotate(kids, layer.parent, layer, committed, pfs)
      requires CanGo(kids, pfs, zombie, fs[0]) && (zombie != null ==> zombie in all)
      modifies this, all
      ensures Valid() && all == old(all) - Gone(zombie)
      ensures Turned(old(kids), old(layer.parent), layer, committed, pfs, Gone(zombie), kids)
      ensures Ids(all) == Swapped(old(Ids(all)), layer, committed) - Gone(zombie)
    {
      ghost var k, r := SwapAndRotate(layer, committed, pfs, zombie);
      Forget(zombie);
      Regard(k, r);
    }

    method SwapAndRotate(layer: Layer, committed: Layer, pfs: Layer, zombie: Layer?)
        returns (ghost k: Kids, ghost r: map<Layer, nat>)
      requires Valid() && {layer, committed, pfs} <= all && fs[0] !in {layer, committed, pfs}
      requires CanRotate(kids, layer.parent, layer, committed, pfs)
      requires CanGo(kids, pfs, zombie, fs[0]) && (zombie != null ==> zombie in all)
      modifies this`fs, all
      ensures |fs| == |old(fs)| && fs[0] == old(fs[0]) && Indexed(fs, roots, Ids(all)) && EmptyAbove(fs, scount)
      ensures Linked(Snap(all) - Gone(zombie), k) && Attached(Snap(all) - Gone(zombie), k) && Headed(k, fs[0])
      ensures Ranked(Snap(all) - Gone(zombie), r) && Ids(all) == Swapped(old(Ids(all)), layer, committed)
      ensures Turned(kids, old(layer.parent), layer, committed, pfs, Gone(zombie), k)
    {
      Swap(layer, committed);
      k, r := RotateRanked(layer, committed, pfs, zombie, fs[0], all, kids, rank);
    }

    /** The loop of `lc_addLayer`: the first free index above `after`, the highest one ever used in the tree. */
    method FreeIndex(after: nat) returns (i: nat)
      ensures after < i && (forall j {:trigger fs[j]} :: after < j < i && j < |fs| ==> fs[j] != null)
      ensures i < |fs| ==> fs[i] == null
    {
      i := after + 1;
      while i < |fs| && fs[i] != null
        invariant after < i && (forall j {:trigger fs[j]} :: after < j < i && j < |fs| ==> fs[j] != null)
      {
        i := i + 1;
      }
    }

    /** A layer gets its index and joins the layers of the forest. */
    method Number(layer: Layer, i: nat)
      requires layer !in all
      modifies this`all, layer`gindex
      ensures all == old(all) + {layer} && layer.gindex == i
      ensures Ids(all) == old(Ids(all))[layer := Id(i, layer.root)]
      ensures Snap(all) == old(Snap(all))[layer := Ptrs(layer.parent, layer.child, layer.next, layer.prev)]
    {
      layer.gindex := i;
      SnapAdd(all, layer);
      all := all + {layer};
    }

    /** The part of `lc_addLayer` that enters a layer in the table. */
    method Enter(layer: Layer, i: nat)
      requires scount < |fs| && fs[0] != null && Indexed(fs, roots, Ids(all)) && EmptyAbove(fs, scount)
      requires layer !in all && i < |fs| && fs[i] == null
      modifies this`fs, this`roots, this`scount, this`all, layer`gindex
      ensures fs == old(fs)[i := layer] && all == old(all) + {layer} && layer.gindex == i
      ensures scount < |fs| && Indexed(fs, roots, Ids(all)) && EmptyAbove(fs, scount)
      ensures Ids(all) == old(Ids(all))[layer := Id(i, layer.root)]
      ensures Snap(all) == old(Snap(all))[layer := Ptrs(layer.parent, layer.child, layer.next, layer.prev)]
    {
      ghost var ids: map<Layer, Id> := Ids(all);
      IndexedAdd(fs, roots, ids, layer, i, layer.root);
      fs, roots, scount := fs[i := layer], roots[i := layer.root], if i > scount then i else scount;
      assert Ids(all) == ids;
      Number(layer, i);
    }

    /** `lc_addLayer`. Fails only if every index above those used in the tree is taken. */
    method AddLayer(layer: Layer, parent: Layer?, after: nat) returns (ok: bool)
      requires Valid() && layer !in all && (parent == null || parent in all)
      requires layer.parent == parent && layer.child == null && layer.next == null && layer.prev == null
      modifies this, all, layer
      ensures Valid()
      ensures !ok ==>
                fs == old(fs) && all == old(all) && kids == old(kids) && forall j {:trigger fs[j]} ::
                  after < j < |fs| ==> fs[j] != null
      ensures ok ==>
                all == old(all) + {layer} && after < layer.gindex < |old(fs)| && fs == old(fs)[layer.gindex := layer]
      ensures ok ==> old(fs)[layer.gindex] == null && forall j {:trigger old(fs)[j]} :: after < j < layer.gindex ==>
                old(fs)[j] != null
      ensures ok ==> kids == old(kids)[layer := []][parent := With(old(kids)[parent], layer)]
    {
      var i := FreeIndex(after);
      ok := i < |fs|;
      if ok {
        ghost var m: Links := Snap(all);
        Enter(layer, i);
        ghost var k := LinkNew(layer, parent, fs[0], all, m, kids, rank);
        Regard(k, GrownRank(rank, parent, layer));
      }
    }

    /** `lc_removeLayer`: a layer without children leaves the table and the forest. */
    method RemoveLayer(layer: Layer)
      requires Valid() && layer in all && layer != fs[0] && kids[layer] == []
      modifies this, all
      ensures Valid() && all == old(all) - {layer} && fs[0] == old(fs[0]) && Dropped(old(kids), {layer}, kids)
      ensures Ids(all) == old(Ids(all)) - {layer} && scount == old(scount)
    {
      ghost var k := Unhook(layer, fs[0], all, kids, rank);
      Forget(layer);
      Regard(k, rank);
    }

    /** `lc_removeLayers`: removes a layer and then, one after the other, the zombie parents that had no other child;
        then lowers the highest index in use. */
    method RemoveLayers(layer: Layer, zombies: seq<Layer>)
      requires Valid() && layer in all && layer != fs[0] && kids[layer] == [] && ZombieChain(kids, layer, zombies)
      requires fs[0] !in zombies
      modifies this, all
      ensures Valid() && all == old(all) - {layer} - Members(zombies) && fs[0] == old(fs[0])
      ensures Ids(all) == old(Ids(all)) - ({layer} + Members(zombies))
      ensures Dropped(old(kids), {layer} + Members(zombies), kids)
      ensures scount <= old(scount) && fs[scount] != null
    {
      ghost var ids: map<Layer, Id>, k := Ids(all), kids;
      RemoveLayer(layer);
      ChainNext(k, kids, layer, zombies);
      ghost var ids1: map<Layer, Id>, k1 := Ids(all), kids;
      RemoveZombies(zombies);
      RemovedMore(ids, k, {layer}, ids1, k1, Members(zombies), Ids(all), kids);
      LowerCount();
    }

    method RemoveZombie(zombies: seq<Layer>)
      requires Valid() && zombies != [] && ZombieChainEmpty(kids, zombies) && zombies[0] != fs[0]
      modifies this, all
      ensures Valid() && fs[0] == old(fs[0]) && all == old(all) - {zombies[0]} && ZombieChainEmpty(kids, zombies[1..])
      ensures Removed(old(Ids(all)), old(kids), {zombies[0]}, Ids(all), kids) && scount == old(scount)
    {
      ghost var k := kids;
      RemoveLayer(zombies[0]);
      ChainNext(k, kids, zombies[0], zombies[1..]);
    }

    /** The loop over the zombies. */
    method RemoveZombies(zombies: seq<Layer>)
      requires Valid() && ZombieChainEmpty(kids, zombies) && fs[0] !in zombies
      modifies this, all
      ensures Valid() && all == old(all) - Members(zombies) && fs[0] == old(fs[0]) && scount == old(scount)
      ensures Removed(old(Ids(all)), old(kids), Members(zombies), Ids(all), kids)
    {
      ghost var all0, fs0, ids0: map<Layer, Id>, kids0 := all, fs[0], Ids(all), kids;
      NothingRemoved(ids0, kids0);
      assert zombies[..0] == [];
      var i := 0;
      while i < |zombies|
        invariant i <= |zombies| && Valid() && fs[0] == fs0 && all <= all0 && all == all0 - Members(zombies[..i])
        invariant ZombieChainEmpty(kids, zombies[i..]) && scount == old(scount)
        invariant Removed(ids0, kids0, Members(zombies[..i]), Ids(all), kids)
      {
        ghost var ids: map<Layer, Id>, k := Ids(all), kids;
        RemoveZombie(zombies[i..]);
        RemovedNext(ids0, kids0, zombies, i, ids, k, Ids(all), kids);
        assert zombies[i..][1..] == zombies[i + 1..];
        MembersNext(all0, zombies, i);
        i := i + 1;
      }
      assert zombies[..i] == zombies;
    }

    /** The last loop of `lc_removeLayers`. */
    method LowerCount()
      requires Valid()
      modifies this`scount
      ensures Valid() && fs[scount] != null && scount <= old(scount)
    {
      while fs[scount] == null
        invariant Valid() && scount <= old(scount)
        decreases scount
      {
        scount := scount - 1;
      }
    }
  }

  ghost function Members(k: seq<Layer>): set<Layer> {
    set x | x in k
  }

  lemma MembersNext(all: set<Layer>, k: seq<Layer>, i: nat)
    requires i < |k|
    ensures all - Members(k[..i + 1]) == all - Members(k[..i]) - {k[i]}
    ensures Members(k[..i + 1]) == Members(k[..i]) + {k[i]}
  {
    assert k[..i + 1] == k[..i] + [k[i]];
  }

  /** Each zombie is the parent of the one before it, or of `layer`, and of no other layer. */
  ghost predicate ZombieChain(kids: Kids, layer: Layer, zombies: seq<Layer>) {
    zombies == [] || (zombies[0] in kids && kids[zombies[0]] == [layer] && ZombieChain(kids, zombies[0], zombies[1..]))
  }

  /** The same when the layer below the first zombie is gone. */
  ghost predicate ZombieChainEmpty(kids: Kids, zombies: seq<Layer>) {
    zombies == [] || (zombies[0] in kids && kids[zombies[0]] == [] && ZombieChain(kids, zombies[0], zombies[1..]))
  }

  lemma {:induction false} ChainDropped(k: Kids, r: Kids, x: Layer, layer: Layer, zombies: seq<Layer>)
    requires ZombieChain(k, layer, zombies) && Dropped(k, {x}, r) && x in k && k[x] == [] && x != layer
    ensures ZombieChain(r, layer, zombies)
  {
    if zombies != [] {
      assert [layer][1..] == [] && zombies[0] != x;
      assert r[zombies[0]] == Filter(k[zombies[0]], {x});
      ChainDropped(k, r, x, zombies[0], zombies[1..]);
    }
  }

  lemma ChainNext(k: Kids, r: Kids, layer: Layer, zombies: seq<Layer>)
    requires ZombieChain(k, layer, zombies) && Dropped(k, {layer}, r) && layer in k && k[layer] == []
    ensures ZombieChainEmpty(r, zombies)
  {
    if zombies != [] {
      assert [layer][1..] == [] && zombies[0] != layer;
      assert Filter([layer], {layer}) == [];
      assert r[zombies[0]] == Filter(k[zombies[0]], {layer});
      ChainDropped(k, r, layer, zombies[0], zombies[1..]);
    }
  }

  /** The pointer changes of `lc_removeLayer`. */
  method Unhook(layer: Layer, global: Layer, ghost all: set<Layer>, ghost kids: Kids, ghost rank: map<Layer, nat>)
    returns (ghost kids': Kids)
    requires layer in all && Linked(Snap(all), kids) && Attached(Snap(all), kids) && Ranked(Snap(all), rank)
    requires layer != global && Headed(kids, global) && kids[layer] == []
    modifies all`child, all`next, all`prev
    ensures Linked(Snap(all) - {layer}, kids') && Attached(Snap(all) - {layer}, kids') && Headed(kids', global)
    ensures Ranked(Snap(all) - {layer}, rank) && Ids(all) == old(Ids(all)) && Dropped(kids, {layer}, kids')
  {
    ghost var m: Links := Snap(all);
    kids' := Drop(layer, global, all, kids);
    SnapDrop(all, layer);
    ghost var r: Links := Snap(all) - {layer};
    forall x | x in r ensures RankedAt(r, rank, x) {
      assert RankedAt(m, rank, x);
    }
  }

  /** The part of `lc_addLayer` that links a new layer to the others. */
  method LinkNew(layer: Layer, parent: Layer?, global: Layer, ghost all: set<Layer>, ghost m: Links, ghost kids: Kids,
                 ghost rank: map<Layer, nat>)
    returns (ghost kids': Kids)
    requires Linked(m, kids) && Attached(m, kids) && Headed(kids, global) && Ranked(m, rank)
    requires layer in all && layer !in m && Snap(all) == m[layer := Ptrs(parent, null, null, null)] && parent in kids
    modifies all`child, all`next, all`prev
    ensures kids' == kids[layer := []][parent := With(kids[parent], layer)] && Ids(all) == old(Ids(all))
    ensures Linked(Snap(all), kids') && Attached(Snap(all), kids') && Headed(kids', global)
    ensures Ranked(Snap(all), GrownRank(rank, parent, layer))
  {
    ghost var m1: Links := Snap(all);
    assert m1[layer] == Ptrs(layer.parent, layer.child, layer.next, layer.prev);
    LinkedGrow(m, kids, layer, m1);
    AddChild(parent, layer, global, all, kids[layer := []]);
    AddedSound(m, kids, rank, layer, parent, global, Snap(all));
    kids' := kids[layer := []][parent := With(kids[parent], layer)];
  }

  ghost function GrownRank(rank: map<Layer, nat>, p: Layer?, x: Layer): map<Layer, nat> {
    rank[x := if p != null && p in rank then rank[p] + 1 else 0]
  }

  lemma AddedSound(m: Links, kids: Kids, rank: map<Layer, nat>, x: Layer, p: Layer?, global: Layer, r: Links)
    requires Linked(m, kids) && Attached(m, kids) && Headed(kids, global) && Ranked(m, rank)
    requires x !in m && p in kids && r.Keys == m.Keys + {x}
    requires forall y {:trigger r[y]} :: y in r ==> r[y].parent == if y == x then p else m[y].parent
    ensures Attached(r, kids[x := []][p := With(kids[p], x)]) && Headed(kids[x := []][p := With(kids[p], x)], global)
    ensures Ranked(r, GrownRank(rank, p, x))
  {
    AttachedGrow(m, kids, x, p, r);
    forall y | y in r ensures RankedAt(r, GrownRank(rank, p, x), y) {
      if y != x {
        assert RankedAt(m, rank, y) && AttachedAt(m, kids, y);
      } else if p != null {
        assert RankedAt(m, rank, p);
      }
    }
  }
}
