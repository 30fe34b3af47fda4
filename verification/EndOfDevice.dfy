/**
  * The last block of the device (lcfs/block.c): the free lists have it, and the assert of `lc_blockAlloc` excludes it.
  */
module EndOfDevice {
  import opened Extents
  import opened Checkpoint
  import opened Blocks
  import opened Allocator
  import opened Overflow

  /** A sorted list of one or two runs is given by its blocks. */
  lemma OneRunList(list: seq<Extent>, a: nat, n: nat)
    requires Canonical(list) && Keys(list) == Range(a, n) && n > 0
    ensures list == [Extent(a, 0, n)]
  {
    var l := [Extent(a, 0, n)];
    assert l[1..] == [];
    One(l[0]);
    CanonicalUnique(list, l);
  }

  lemma TwoRunList(list: seq<Extent>, a: nat, n: nat, b: nat, m: nat)
    requires Canonical(list) && Keys(list) == Range(a, n) + Range(b, m) && n > 0 && m > 0 && a + n < b
    ensures list == [Extent(a, 0, n), Extent(b, 0, m)]
  {
    var l := [Extent(a, 0, n), Extent(b, 0, m)];
    assert l[1..] == [Extent(b, 0, m)] && l[1..][1..] == [] && l == [l[0]] + [l[1]];
    KeysConcat([l[0]], [l[1]]);
    One(l[0]);
    One(l[1]);
    CanonicalUnique(list, l);
  }

  lemma NoKeys(list: seq<Extent>)
    requires Loose(list)
    ensures Keys(list) == {} ==> list == []
  {
    if list != [] {
      assert list[0].start in Keys(list);
    }
  }

  /** What the lists are when the given blocks are free and pending and the others are the root layer's. */
  lemma ListsAt(g: Lists, owner: map<nat, Owner>, free: set<nat>, pending: set<nat>)
    requires Agree(g, owner, |g.layers|) && free + pending <= Device(TOTAL) && free !! pending
    requires owner == At(free, pending, {}, {}).owner
    ensures Canonical(g.extents) && Keys(g.extents) == free && Canonical(g.fextents) && Keys(g.fextents) == pending
    ensures IsLayer(g, ROOT) && g.layers[ROOT].value.extents == []
  {
    AgreeIs(g, owner, |g.layers|);
    AtHolds(free, pending, {}, {});
    assert LayerOk(owner, ROOT, g.layers[ROOT].value);
    NoKeys(g.layers[ROOT].value.extents);
  }

  lemma Formatted()
    ensures Format(TOTAL).owner == At(Range(1, 9999), {}, {}, {}).owner && Range(1, 9999) == Device(TOTAL)
  {
  }

  /** The owners after the steps of `HalfEmpty`. */
  lemma Taken(s: State)
    requires s.total == TOTAL && s.layers == {ROOT} && s.owner == At(Range(1, 9999), {}, {}, {}).owner
    ensures Enabled(s, TakePool(ROOT, 1, 9000, 9000))
    ensures Apply(s, TakePool(ROOT, 1, 9000, 9000)).owner == At(Range(9001, 999), {}, {}, {}).owner
  {
    AtHolds(Range(1, 9999), {}, {}, {});
    assert Apply(s, TakePool(ROOT, 1, 9000, 9000)).owner == At(Range(9001, 999), {}, {}, {}).owner;
  }

  lemma GivenBack(s: State)
    requires s.layers == {ROOT} && s.owner == At(Range(9001, 999), {}, {}, {}).owner
    ensures Holds(s.owner, Range(10, 900), Alloc(ROOT)) && Enabled(s, FreeOwned(ROOT, Range(10, 900)))
    ensures Apply(s, FreeOwned(ROOT, Range(10, 900))).owner == At(Range(9001, 999), Range(10, 900), {}, {}).owner
  {
    AtHolds(Range(9001, 999), {}, {}, {});
    assert Apply(s, FreeOwned(ROOT, Range(10, 900))).owner == At(Range(9001, 999), Range(10, 900), {}, {}).owner;
  }

  lemma FitsAtStart(g: Lists)
    requires g.extents == [Extent(1, 0, 9999)] && g.layers == [Some(Layer([], [], [], 0))]
    ensures Allotted(g, ROOT, 9000) == 1 && ChunkFor(g.extents, 9000) == 9000
  {
    FirstFitIs(g.extents, 9000, 0);
    assert g.extents[0] in g.extents;
  }

  lemma NoReserveYet(s: State, step: Step)
    requires s.owner == At(Range(1, 9999), {}, {}, {}).owner && Enabled(s, step)
    requires step == TakeReserve(ROOT, 1, 9000) || (step.TakePool? && step == TakePool(ROOT, 1, 9000, 9000))
    ensures step == TakePool(ROOT, 1, 9000, 9000)
  {
    AtHolds(Range(1, 9999), {}, {}, {});
    assert 1 in Range(1, 9000);
  }

  /** The root layer takes most of the device and gives 900 blocks back. */
  method MostlyTaken() returns (gfs: Gfs)
    ensures fresh(gfs) && gfs.Valid() && gfs.tblocks == TOTAL && gfs.mapCount == 0
    ensures gfs.extents == [Extent(9001, 0, 999)] && gfs.fextents == [Extent(10, 0, 900)]
    ensures IsLayer(gfs.Now(), ROOT) && gfs.layers[ROOT].value.extents == []
  {
    gfs := new Gfs(TOTAL);
    Formatted();
    Taken(gfs.View());
    ghost var step;
    var block;
    FitsAtStart(gfs.Now());
    ghost var s := gfs.View();
    block, step := gfs.BlockAlloc(ROOT, 9000);
    NoReserveYet(s, step);
    GivenBack(gfs.View());
    gfs.FreeRootBlocks(10, 900);
    ListsAt(gfs.Now(), gfs.owner, Range(9001, 999), Range(10, 900));
    OneRunList(gfs.extents, 9001, 999);
    OneRunList(gfs.fextents, 10, 900);
  }

  /** A checkpoint makes the blocks given back free. */
  method HalfEmpty() returns (gfs: Gfs)
    ensures fresh(gfs) && gfs.Valid() && gfs.tblocks == TOTAL
    ensures gfs.extents == [Extent(10, 0, 900), Extent(9002, 0, 998)]
    ensures IsLayer(gfs.Now(), ROOT) && gfs.layers[ROOT].value.extents == []
  {
    gfs := MostlyTaken();
    assert gfs.extents[0].count >= MapNeed(gfs.Now()) == 1;
    ghost var e, f := gfs.extents, gfs.fextents;
    One(e[0]);
    One(f[0]);
    var ok := gfs.ProcessFreeExtents();
    assert gfs.mapBlock == 9001 && gfs.mapCount == 1;
    assert Keys(gfs.extents) == Range(10, 900) + Range(9002, 998);
    TwoRunList(gfs.extents, 10, 900, 9002, 998);
  }

  /** An allocation whose first fit ends at the end of the device, while 900 other blocks are free: the assert fails. */
  method LastBlock() returns (gfs: Gfs, block: nat)
    ensures gfs.Valid() && block + 998 == gfs.tblocks == TOTAL && Range(10, 900) <= Owned(gfs.owner, Free)
  {
    gfs := HalfEmpty();
    FitsAtEnd(gfs.Now(), gfs.owner);
    ghost var step;
    block, step := gfs.BlockAlloc(ROOT, 998);
  }

  lemma FitsAtEnd(g: Lists, owner: map<nat, Owner>)
    requires Agree(g, owner, |g.layers|) && IsLayer(g, ROOT) && g.layers[ROOT].value.extents == []
    requires g.extents == [Extent(10, 0, 900), Extent(9002, 0, 998)]
    ensures Allotted(g, ROOT, 998) == 9002 && ChunkFor(g.extents, 998) == 998
    ensures Range(10, 900) <= Owned(owner, Free)
  {
    AgreeIs(g, owner, |g.layers|);
    KeysConcat([g.extents[0]], [g.extents[1]]);
    One(g.extents[0]);
    assert g.extents == [g.extents[0]] + [g.extents[1]];
    FirstFitIs(g.extents, 998, 1);
    assert g.extents[1] in g.extents;
    forall e | e in g.extents ensures e.count < BLOCK_RESERVE {
    }
  }
}
