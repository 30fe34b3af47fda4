/** The block allocator as the C code runs it (lcfs/block.c): an object whose lists and counters are
  updated in place. Every method keeps the lists in agreement with the owners of the blocks and carries
  out one step of `Checkpoint`, so what is proved there of all runs holds of all sequences of calls. */
module Allocator {
  import opened Extents
  import opened Checkpoint
  import opened Blocks

  /** What allocating and freeing blocks leaves alone: the blocks a layer put aside, and where the free map is. */
  datatype Kept = Kept(fextents: seq<Extent>, mapBlock: nat, mapCount: nat)

  class Gfs {
    var tblocks: nat                // sb_tblocks
    var sbBlocks: nat               // sb_blocks
    var extents: seq<Extent>        // gfs_extents
    var fextents: seq<Extent>       // gfs_fextents
    var layers: seq<Option<Layer>>  // gfs_fs
    var mapBlock: nat               // sb_extentBlock
    var mapCount: nat               // sb_extentCount

    ghost var owner: map<nat, Owner>
    ghost var committed: set<nat>
    ghost var taken: set<nat>

    function Now(): Lists
      reads this
    {
      Lists(tblocks, extents, fextents, layers, mapBlock, mapCount)
    }

    ghost predicate Valid()
      reads this
    {
      Agree(Now(), owner, |layers|) && Total(extents) + Total(fextents) + sbBlocks == tblocks
    }

    /** The abstract state of the lists. */
    ghost function View(): State
      reads this
    {
      State(tblocks, owner, Live(layers), committed, taken)
    }

    function Aside(l: nat): Kept
      requires IsLayer(Now(), l)
      reads this
    {
      Kept(layers[l].value.fextents, mapBlock, mapCount)
    }

    /** The space partition holds whenever no call is in progress. */
    lemma ValidPartition()
      requires Valid()
      ensures Partition(View())
    {
      AgreeIs(Now(), owner, |layers|);
    }

    /** The assert of `lc_allocateBlock` on the count of used blocks fails exactly if nothing is left in the lists. */
    lemma FullDevice()
      requires Valid()
      ensures sbBlocks <= tblocks && (sbBlocks < tblocks <==> extents != [] || fextents != [])
    {
      AgreeIs(Now(), owner, |layers|);
      assert extents != [] ==> Total(extents) > 0;
      assert fextents != [] ==> Total(fextents) > 0;
    }

    /** `lc_blockAllocatorInit` on a device of `total` blocks. */
    constructor (total: nat)
      requires START_BLOCK < total < INVALID_BLOCK
      ensures Valid() && View() == Format(total)
      ensures extents == [Extent(START_BLOCK, 0, total - START_BLOCK)] && fextents == [] && sbBlocks == START_BLOCK
      ensures layers == [Some(Layer([], [], [], 0))] && mapCount == 0
    {
      tblocks, sbBlocks := total, START_BLOCK;
      extents, fextents := [Extent(START_BLOCK, 0, total - START_BLOCK)], [];
      layers := [Some(Layer([], [], [], 0))];
      mapBlock, mapCount := INVALID_BLOCK, 0;
      owner, committed, taken := Format(total).owner, {}, {};
      new;
      FormatOk(Now(), owner);
    }

    /** `lc_blockAlloc`: blocks from the reserve of the layer, or else from the global pool together
        with a new reserve. Answers `INVALID_BLOCK` only if neither has a large enough extent. The code asserts
        that the last block of the device is not among them, which holds unless `Allotted` ends there. */
    method BlockAlloc(l: nat, count: nat) returns (block: nat, ghost step: Step)
      requires Valid() && IsLayer(Now(), l) && count > 0
      modifies this
      ensures Valid()
      ensures IsLayer(Now(), l) && Aside(l) == old(Aside(l))
      ensures block == Allotted(old(Now()), l, count) && tblocks == old(tblocks)
      ensures block != INVALID_BLOCK ==> START_BLOCK <= block && block + count <= tblocks < INVALID_BLOCK
      ensures block != INVALID_BLOCK && step.TakePool? ==> step.chunk == ChunkFor(old(extents), count)
      ensures block != INVALID_BLOCK ==>
                && (step == TakeReserve(l, block, count)
                    || (step.TakePool? && step == TakePool(l, block, count, step.chunk)))
                && Enabled(old(View()), step) && View() == Apply(old(View()), step)
      ensures block == INVALID_BLOCK ==>
                && View() == old(View()) && Now() == old(Now())
                && (forall e :: e in layers[l].value.extents ==> e.count < count)
                && (forall b :: !Holds(owner, Range(b, count), Free))
    {
      var found;
      found, block := TakeReserved(l, count);
      step := TakeReserve(l, block, count);
      if !found {
        var chunk;
        found, block, chunk := TakeChunk(l, count);
        step := TakePool(l, block, count, chunk);
        if !found {
          block := INVALID_BLOCK;
        }
      }
    }

    /** `lc_allocateBlock` from the reserve of a layer. */
    method TakeReserved(l: nat, count: nat) returns (found: bool, block: nat)
      requires Valid() && IsLayer(Now(), l) && count > 0
      modifies this
      ensures Valid()
      ensures IsLayer(Now(), l) && Aside(l) == old(Aside(l))
      ensures found ==> && Enabled(old(View()), TakeReserve(l, block, count))
                        && View() == Apply(old(View()), TakeReserve(l, block, count))
                        && START_BLOCK <= block && block + count <= tblocks < INVALID_BLOCK
      ensures found <==> HasRun(old(layers[l].value.extents), count)
      ensures found ==> block == FirstFit(old(layers[l].value.extents), count) && tblocks == old(tblocks)
      ensures !found ==> View() == old(View()) && Now() == old(Now())
                         && forall e :: e in layers[l].value.extents ==> e.count < count
    {
      LayerReady(Now(), owner, l);
      var fs;
      found, block, fs := TakeFromReserve(Now(), l, count);
      if found {
        TakeReservedOk(Now(), owner, l, block, count, fs);
        SetLayerLive(Now(), l, fs);
        HeldBlock(Now(), owner, Reserve(l), block, count);
        owner, taken := Move(owner, Range(block, count), Alloc(l)), taken + Range(block, count);
        layers := layers[l := Some(fs)];
      }
    }

    /** The rest of `lc_findFreeBlock`: a chunk from the global pool. */
    method TakeChunk(l: nat, count: nat) returns (found: bool, block: nat, chunk: nat)
      requires Valid() && IsLayer(Now(), l) && count > 0
      modifies this
      ensures Valid()
      ensures IsLayer(Now(), l) && Aside(l) == old(Aside(l))
      ensures found ==> && Enabled(old(View()), TakePool(l, block, count, chunk))
                        && View() == Apply(old(View()), TakePool(l, block, count, chunk))
                        && START_BLOCK <= block && block + count <= tblocks < INVALID_BLOCK
      ensures found ==> chunk == ChunkFor(old(extents), count) && block == FirstFit(old(extents), chunk)
      ensures found <==> HasRun(old(extents), ChunkFor(old(extents), count))
      ensures tblocks == old(tblocks)
      ensures !found ==>
                View() == old(View()) && Now() == old(Now()) && forall b :: !Holds(owner, Range(b, count), Free)
    {
      LayerReady(Now(), owner, l);
      var pool, fs;
      found, block, chunk, pool, fs := TakeFromPool(Now(), l, count);
      if !found {
        NoFreeRun(Now(), owner, count);
      } else {
        TakePoolOk(Now(), owner, l, block, count, chunk, pool, fs);
        SetLayerLive(Now(), l, fs);
        HeldBlock(Now(), owner, Free, block, chunk);
        owner := Move(Move(owner, Range(block, chunk), Reserve(l)), Range(block, count), Alloc(l));
        taken := taken + Range(block, count);
        extents, sbBlocks := pool, sbBlocks + chunk;
        layers := layers[l := Some(fs)];
      }
    }

    /** `lc_blockFree` in a layer other than the root: what the layer allocated itself of the given
        blocks becomes pending; what it inherited is left alone. */
    method BlockFree(l: nat, block: nat, count: nat)
      requires Valid() && IsLayer(Now(), l) && l != ROOT
      modifies this
      ensures Valid()
      ensures IsLayer(Now(), l) && Aside(l) == old(Aside(l))
      ensures Enabled(old(View()), FreeOwned(l, Range(block, count)))
      ensures View() == Apply(old(View()), FreeOwned(l, Range(block, count)))
    {
      LayerReady(Now(), owner, l);
      var fs := layers[l].value;
      var a, f, total := FreeLayerExtent(fs.aextents, fextents, block, count);
      fs := fs.(aextents := a);
      FreeLayerOk(Now(), owner, l, Range(block, count), f, fs);
      FreeLayerCount(Now(), owner, sbBlocks, l, Range(block, count), f, total);
      SetLayerLive(Now(), l, fs);
      owner := Move(owner, Range(block, count) * Owned(owner, Alloc(l)), Pending);
      fextents, sbBlocks := f, sbBlocks - total;
      layers := layers[l := Some(fs)];
    }

    /** `lc_freeExtentBlocks`: blocks of the root layer become pending. */
    method FreeRootBlocks(block: nat, count: nat)
      requires Valid() && count > 0 && Holds(owner, Range(block, count), Alloc(ROOT))
      requires Range(block, count) !! Range(mapBlock, mapCount) && IsLayer(Now(), ROOT)
      requires Range(block, count) !! Keys(layers[ROOT].value.fextents)
      modifies this
      ensures Valid()
      ensures Enabled(old(View()), FreeOwned(ROOT, Range(block, count)))
      ensures View() == Apply(old(View()), FreeOwned(ROOT, Range(block, count)))
      ensures layers == old(layers) && mapBlock == old(mapBlock) && mapCount == old(mapCount)
    {
      RootFacts(Now(), owner);
      var f := AddSpaceExtent(fextents, block, count, true);
      FreeRootOk(Now(), owner, Range(block, count), f, layers[ROOT].value);
      FreeRootCount(Now(), owner, sbBlocks, Range(block, count), f, count);
      assert Range(block, count) * Owned(owner, Alloc(ROOT)) == Range(block, count);
      owner := Move(owner, Range(block, count), Pending);
      fextents, sbBlocks := f, sbBlocks - count;
      assert layers == layers[ROOT := Some(layers[ROOT].value)];
    }

    /** `lc_blockFree` of blocks the root layer took since the last checkpoint and did not use. */
    method ReuseBlocks(block: nat, count: nat)
      requires Valid() && count > 0 && Holds(owner, Range(block, count), Alloc(ROOT)) && Range(block, count) <= taken
      requires Range(block, count) !! Range(mapBlock, mapCount) && IsLayer(Now(), ROOT)
      requires Range(block, count) !! Keys(layers[ROOT].value.fextents)
      modifies this
      ensures Valid()
      ensures IsLayer(Now(), ROOT) && Aside(ROOT) == old(Aside(ROOT))
      ensures Enabled(old(View()), Reuse(block, count)) && View() == Apply(old(View()), Reuse(block, count))
    {
      LayerReady(Now(), owner, ROOT);
      RootFacts(Now(), owner);
      var fs := layers[ROOT].value;
      var e := TrackReserve(fs.extents, block, count);
      fs := fs.(extents := e, reserved := fs.reserved + count);
      ReuseOk(Now(), owner, block, count, fs);
      SetLayerLive(Now(), ROOT, fs);
      owner := Move(owner, Range(block, count), Reserve(ROOT));
      layers := layers[ROOT := Some(fs)];
    }

    /** `lc_addFreedBlocks`: blocks freed in a layer wait for the next sync of that layer. */
    method AddFreedBlocks(l: nat, block: nat, count: nat)
      requires Valid() && IsLayer(Now(), l) && count > 0
      requires l == ROOT ==> && Holds(owner, Range(block, count), Alloc(ROOT))
                             && Range(block, count) !! Range(mapBlock, mapCount)
                             && Range(block, count) !! Keys(layers[ROOT].value.fextents)
      modifies this`layers
      ensures Valid() && View() == old(View())
      ensures |layers| == |old(layers)| && IsLayer(Now(), l)
      ensures Keys(layers[l].value.fextents) == old(Keys(layers[l].value.fextents)) + Range(block, count)
    {
      LayerReady(Now(), owner, l);
      var fs := layers[l].value;
      var f := AddSpaceExtent(fs.fextents, block, count, false);
      if l == ROOT {
        ApartAdded(fs.fextents, Extent(block, 0, count), f);
      }
      AddFreedOk(Now(), owner, l, fs.(fextents := f), Range(block, count));
      SetLayerLive(Now(), l, fs.(fextents := f));
      layers := layers[l := Some(fs.(fextents := f))];
    }

    /** `lc_releaseReservedBlocks`: answers how many blocks the layer gave back. */
    method ReleaseReservedBlocks(l: nat) returns (freed: nat)
      requires Valid() && IsLayer(Now(), l)
      modifies this
      ensures Valid() && freed == old(layers[l].value.reserved)
      ensures IsLayer(Now(), l) && Aside(l) == old(Aside(l))
      ensures Enabled(old(View()), Release(l)) && View() == Apply(old(View()), Release(l))
    {
      LayerReady(Now(), owner, l);
      var fs := layers[l].value;
      freed := fs.reserved;
      var pool := AddAll(extents, fs.extents);
      fs := fs.(extents := [], reserved := 0);
      ReleaseOk(Now(), owner, sbBlocks, l, pool, fs);
      SetLayerLive(Now(), l, fs);
      owner := Move(owner, Owned(owner, Reserve(l)), Free);
      extents, sbBlocks := pool, sbBlocks - freed;
      layers := layers[l := Some(fs)];
    }

    /** The part of `lc_processLayerBlocks` that frees what a layer put aside: of a layer other than the
        root, only blocks it allocated itself. */
    method ProcessFreed(l: nat)
      requires Valid() && IsLayer(Now(), l)
      modifies this
      ensures Valid()
      ensures Enabled(old(View()), FreeOwned(l, old(Keys(layers[l].value.fextents))))
      ensures View() == Apply(old(View()), FreeOwned(l, old(Keys(layers[l].value.fextents))))
      ensures IsLayer(Now(), l) && layers[l].value.fextents == []
    {
      if l == ROOT {
        ProcessRootFreed();
      } else {
        LayerReady(Now(), owner, l);
        var fs := layers[l].value;
        ghost var blocks := Keys(fs.fextents);
        var a, f, total := FreeListed(fs.aextents, fextents, fs.fextents);
        fs := fs.(aextents := a, fextents := []);
        FreeLayerOk(Now(), owner, l, blocks, f, fs);
        FreeLayerCount(Now(), owner, sbBlocks, l, blocks, f, total);
        SetLayerLive(Now(), l, fs);
        owner := Move(owner, blocks * Owned(owner, Alloc(l)), Pending);
        fextents, sbBlocks := f, sbBlocks - total;
        layers := layers[l := Some(fs)];
      }
    }

    method ProcessRootFreed()
      requires Valid() && IsLayer(Now(), ROOT)
      modifies this
      ensures Valid()
      ensures Enabled(old(View()), FreeOwned(ROOT, old(Keys(layers[ROOT].value.fextents))))
      ensures View() == Apply(old(View()), FreeOwned(ROOT, old(Keys(layers[ROOT].value.fextents))))
      ensures IsLayer(Now(), ROOT) && layers[ROOT].value.fextents == []
    {
      LayerReady(Now(), owner, ROOT);
      RootFreed(Now(), owner);
      var fs := layers[ROOT].value;
      ghost var blocks := Keys(fs.fextents);
      var total := CountBlocks(fs.fextents);
      var f := AddAll(fextents, fs.fextents);
      fs := fs.(fextents := []);
      FreeRootOk(Now(), owner, blocks, f, fs);
      FreeRootCount(Now(), owner, sbBlocks, blocks, f, total);
      SetLayerLive(Now(), ROOT, fs);
      owner := Move(owner, blocks, Pending);
      fextents, sbBlocks := f, sbBlocks - total;
      layers := layers[ROOT := Some(fs)];
    }

    /** The block hand-back of a deleted layer (`lc_processLayerBlocks` on removal): the reserve can be used
        again at once, allocated blocks only after the next checkpoint. */
    method RemoveLayer(l: nat)
      requires Valid() && IsLayer(Now(), l) && l != ROOT
      modifies this
      ensures Valid()
      ensures Enabled(old(View()), DropLayer(l)) && View() == Apply(old(View()), DropLayer(l))
    {
      ReleasedHoldings(owner, l);
      var freed := ReleaseReservedBlocks(l);
      LayerReady(Now(), owner, l);
      var fs := layers[l].value;
      ghost var blocks := Keys(fs.aextents);
      CanonicalApart(fs.aextents);
      var total := CountBlocks(fs.aextents);
      var f := AddAll(fextents, fs.aextents);
      fs := fs.(aextents := []);
      DropOk(Now(), owner, sbBlocks, l, f, total, fs);
      owner := Move(owner, Owned(owner, Alloc(l)), Pending);
      fextents, sbBlocks := f, sbBlocks - total;
      layers := layers[l := None];
    }

    /** A new layer in a free slot of the table (`lc_addLayer`). */
    method AddLayer(l: nat)
      requires Valid() && l < |layers| && layers[l].None?
      modifies this`layers
      ensures Valid()
      ensures Enabled(old(View()), NewLayer(l)) && View() == Apply(old(View()), NewLayer(l))
    {
      NewLayerOk(Now(), owner, l, SetLayer(Now(), l, Layer([], [], [], 0)));
      layers := layers[l := Some(Layer([], [], [], 0))];
    }

    /** `lc_grow` to a device of `size` blocks. */
    method GrowTo(size: nat)
      requires Valid() && tblocks < size < INVALID_BLOCK
      modifies this
      ensures Valid()
      ensures Enabled(old(View()), Grow(size - old(tblocks))) && View() == Apply(old(View()), Grow(size - old(tblocks)))
    {
      var more := size - tblocks;
      RootFacts(Now(), owner);
      BeyondDevice(Now(), owner, more);
      var e := AddSpaceExtent(extents, tblocks, more, true);
      ghost var p := Apply(View(), Grow(more)).owner;
      GrowOk(Now(), owner, p, more, Now().(tblocks := size, extents := e));
      owner := p;
      tblocks, extents := size, e;
    }

    /** `lc_processFreeExtents` and the superblock written after it: a checkpoint. */
    method ProcessFreeExtents() returns (ok: bool)
      requires Valid()
      modifies this
      ensures Valid()
      ensures layers == old(layers)
      ensures ok <==> CanPublish(old(Now()))
      ensures !ok ==> View() == old(View()) && Now() == old(Now())
      ensures ok ==>
                && mapCount == MapNeed(old(Now())) && mapBlock == FirstFit(old(extents), mapCount)
                && Range(mapBlock, mapCount) <= old(Keys(extents)) && Canonical(extents)
                && Keys(extents) == (old(Keys(extents)) - Range(mapBlock, mapCount))
                                    + (old(Keys(fextents)) + Range(old(mapBlock), old(mapCount)))
                && (mapBlock > 0 ==> mapBlock - 1 !in old(Keys(extents)))
                && var step := Publish(mapBlock, mapCount, old(mapBlock), old(mapCount), MapBlocks(|extents|));
                   Enabled(old(View()), step) && View() == Apply(old(View()), step)
      // the check of lc_readExtents on the next mount
      ensures ok ==> fextents == [] && Total(extents) + sbBlocks == tblocks
      ensures ok ==> |extents| <= old(|extents| + |fextents|) + 1
    {
      MapFacts(Now(), owner);
      var block, pcount, pool;
      ok, block, pcount, pool := PrepareFreeMap(Now());
      if ok {
        PublishOk(Now(), owner, block, pcount, pool,
          Now().(extents := pool, fextents := [], mapBlock := block, mapCount := pcount));
        MapCountBound(Now(), owner, sbBlocks);
        owner := Published(owner, Range(block, pcount), Range(mapBlock, mapCount));
        committed, taken := InUse(owner) + Range(block, MapBlocks(|pool|)), {};
        extents, fextents := pool, [];
        sbBlocks := sbBlocks + pcount - mapCount;
        mapBlock, mapCount := block, pcount;
      }
    }
  }

  /** `lc_countExtents`, its count of blocks. */
  method CountBlocks(list: seq<Extent>) returns (total: nat)
    ensures total == Total(list)
  {
    total := 0;
    var rest := list;
    while rest != []
      invariant total + Total(rest) == Total(list)
    {
      total := total + rest[0].count;
      rest := rest[1..];
    }
  }

  lemma RootFreed(g: Lists, owner: map<nat, Owner>)
    requires Agree(g, owner, |g.layers|)
    ensures IsLayer(g, ROOT) && Holds(owner, Keys(g.layers[ROOT].value.fextents), Alloc(ROOT))
    ensures Range(g.mapBlock, g.mapCount) !! Keys(g.layers[ROOT].value.fextents)
    ensures Keys(g.layers[ROOT].value.fextents) * Owned(owner, Alloc(ROOT)) == Keys(g.layers[ROOT].value.fextents)
  {
    AgreeIs(g, owner, |g.layers|);
  }

  lemma MapFacts(g: Lists, owner: map<nat, Owner>)
    requires Agree(g, owner, |g.layers|)
    ensures Range(g.mapBlock, g.mapCount) !! Keys(g.extents) && Range(g.mapBlock, g.mapCount) !! Keys(g.fextents)
    ensures Canonical(g.extents) && Canonical(g.fextents) && Keys(g.extents) !! Keys(g.fextents)
  {
    AgreeIs(g, owner, |g.layers|);
  }

  lemma MapCountBound(g: Lists, owner: map<nat, Owner>, used: nat)
    requires Agree(g, owner, |g.layers|) && Total(g.extents) + Total(g.fextents) + used == g.tblocks
    ensures g.mapCount < used
  {
    AgreeIs(g, owner, |g.layers|);
    UsedBound(g, owner, used, Alloc(ROOT), Range(g.mapBlock, g.mapCount));
    RangeSize(g.mapBlock, g.mapCount);
  }

  lemma BeyondDevice(g: Lists, owner: map<nat, Owner>, more: nat)
    requires Agree(g, owner, |g.layers|)
    ensures START_BLOCK <= g.tblocks && Range(g.tblocks, more) !! Keys(g.extents)
  {
    AgreeIs(g, owner, |g.layers|);
    assert forall b :: b in Keys(g.extents) ==> b in owner.Keys;
  }

  lemma ReleasedHoldings(owner: map<nat, Owner>, l: nat)
    ensures Owned(Move(owner, Owned(owner, Reserve(l)), Free), Alloc(l)) == Owned(owner, Alloc(l))
    ensures Owned(Move(owner, Owned(owner, Reserve(l)), Free), Reserve(l)) == {}
  {
  }

  /** The allocated blocks of a layer without a reserve went to the pending list, and the layer is gone. */
  lemma DropOk(g: Lists, owner: map<nat, Owner>, used: nat, l: nat, f: seq<Extent>, total: nat, fs: Layer)
    requires Agree(g, owner, |g.layers|) && IsLayer(g, l) && l != ROOT && Owned(owner, Reserve(l)) == {}
    requires Total(g.extents) + Total(g.fextents) + used == g.tblocks && Total(f) == Total(g.fextents) + total
    requires fs == g.layers[l].value.(aextents := [])
    requires Canonical(f) && Keys(f) == Keys(g.fextents) + Keys(g.layers[l].value.aextents)
    ensures total < used
    ensures Agree(g.(layers := g.layers[l := None], fextents := f), Move(owner, Owned(owner, Alloc(l)), Pending),
              |g.layers|)
    ensures Live(g.layers[l := None]) == Live(g.layers) - {l}
  {
    LayerFacts(g, owner, l);
    var blocks := Keys(g.layers[l].value.aextents);
    assert blocks * blocks == blocks && blocks - blocks == {};
    FreeLayerOk(g, owner, l, blocks, f, fs);
    FreeLayerCount(g, owner, used, l, blocks, f, total);
    var p := Move(owner, Owned(owner, Alloc(l)), Pending);
    var h := SetLayer(g, l, fs).(fextents := f);
    MoveAll(owner, Owned(owner, Alloc(l)), Alloc(l), Pending);
    GoneLayerOk(h, p, l, h.(layers := h.layers[l := None]));
    SetLayerLive(g, l, fs);
    assert h.layers[l := None] == g.layers[l := None];
  }

  lemma RootFacts(g: Lists, owner: map<nat, Owner>)
    requires Agree(g, owner, |g.layers|)
    ensures IsLayer(g, ROOT) && LayerOk(owner, ROOT, g.layers[ROOT].value) && PoolsOk(owner, g.extents, g.fextents)
    ensures Owned(owner, Alloc(ROOT)) !! Owned(owner, Pending)
    ensures Owned(owner, Alloc(ROOT)) !! Owned(owner, Reserve(ROOT))
  {
    AgreeIs(g, owner, |g.layers|);
  }

  lemma FormatOk(g: Lists, owner: map<nat, Owner>)
    requires START_BLOCK < g.tblocks < INVALID_BLOCK && owner == Format(g.tblocks).owner
    requires g.extents == [Extent(START_BLOCK, 0, g.tblocks - START_BLOCK)] && g.fextents == []
    requires g.layers == [Some(Layer([], [], [], 0))] && g.mapCount == 0
    ensures Agree(g, owner, 1) && Live(g.layers) == {ROOT} && Total(g.extents) + START_BLOCK == g.tblocks
  {
    One(g.extents[0]);
    assert Keys(g.extents) == Device(g.tblocks);
    assert Owned(owner, Free) == owner.Keys == Device(g.tblocks) && Owned(owner, Pending) == {};
    assert Owned(owner, Reserve(ROOT)) == {} && Owned(owner, Alloc(ROOT)) == {};
    assert Range(g.mapBlock, 0) == {};
    assert g.extents[1..] == [];
    assert PoolsOk(owner, g.extents, g.fextents);
    assert LayerOk(owner, ROOT, g.layers[0].value);
    assert OwnersOk(g, owner) && MapOk(g, owner);
    AgreeIs(g, owner, 1);
  }
}
