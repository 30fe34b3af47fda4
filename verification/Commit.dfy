/**
  * Writing a checkpoint (`lc_processFreeExtents` with the flush of the free list, lcfs/block.c) and reading its free
  * map back on the next mount. The map is written to blocks set aside before the free lists are merged.
  */
module Commit {
  import opened Extents
  import opened Checkpoint
  import opened Blocks
  import opened Allocator
  import opened FreeMap

  /** The step a checkpoint is, given the lists before and after. */
  function CheckpointStep(was: Lists, now: Lists): Step {
    Publish(now.mapBlock, now.mapCount, was.mapBlock, was.mapCount, MapBlocks(|now.extents|))
  }

  /** Writes the free list where the new superblock refers to it. Answers false where an assert of the source fails: no
      extent can hold the map, the map would end at the end of the device, or nothing is left to write. The map stays
      within the blocks set aside for it, and the checkpoint is safe, with exactly one exception. */
  method WriteCheckpoint(gfs: Gfs, disk: Disk, junk: seq<DExtent>) returns (ok: bool, d: Disk)
    requires gfs.Valid() && |junk| == EXTENT_BLOCK
    modifies gfs
    ensures gfs.Valid()
    ensures ok <==> CanPublish(old(gfs.Now())) && gfs.mapBlock + gfs.mapCount < gfs.tblocks && gfs.extents != []
    ensures ok ==> Enabled(old(gfs.View()), CheckpointStep(old(gfs.Now()), gfs.Now()))
    ensures ok ==> gfs.View() == Apply(old(gfs.View()), CheckpointStep(old(gfs.Now()), gfs.Now()))
    ensures ok ==> MapStored(d, gfs.mapBlock, gfs.extents) && gfs.fextents == []
    ensures ok ==> forall b :: b in disk && !(gfs.mapBlock <= b < gfs.mapBlock + MapBlocks(|gfs.extents|)) ==>
              b in d && d[b] == disk[b]
    ensures ok ==> gfs.mapBlock + MapBlocks(|gfs.extents|) <= gfs.tblocks
    ensures ok ==> (Fits(CheckpointStep(old(gfs.Now()), gfs.Now())) <==> !Overflows(old(gfs.Now())))
    ensures ok ==> (CrashSafe(gfs.View()) <==> !Overflows(old(gfs.Now())))
  {
    d := disk;
    ghost var g, s := gfs.Now(), gfs.View();
    AgreeMap(g, gfs.owner);
    ok := gfs.ProcessFreeExtents();
    if ok {
      ok := gfs.mapBlock + gfs.mapCount < gfs.tblocks && gfs.extents != [];
      if ok {
        CheckpointSafe(g, s, gfs.Now(), gfs.View());
        AtMostOneMore(|g.extents| + |g.fextents|, |gfs.extents|);
        var pcount;
        d, pcount := FlushExtents(gfs.extents, gfs.mapBlock, disk, junk);
      }
    }
  }

  lemma AgreeMap(g: Lists, owner: map<nat, Owner>)
    requires Agree(g, owner, |g.layers|)
    ensures Canonical(g.extents) && Canonical(g.fextents) && Keys(g.extents) !! Keys(g.fextents)
    ensures Range(g.mapBlock, g.mapCount) !! Keys(g.extents) && Range(g.mapBlock, g.mapCount) !! Keys(g.fextents)
    ensures 0 !in Keys(g.extents) && 0 !in Keys(g.fextents) && (g.mapCount > 0 ==> g.mapBlock > 0)
  {
    AgreeIs(g, owner, |g.layers|);
    assert g.mapCount > 0 ==> g.mapBlock in Range(g.mapBlock, g.mapCount);
  }

  /** The lists `h` are those of a checkpoint from the lists `g`. */
  ghost predicate Prepared(g: Lists, h: Lists) {
    && h.mapCount == MapNeed(g) && h.mapBlock == FirstFit(g.extents, h.mapCount)
    && Range(h.mapBlock, h.mapCount) <= Keys(g.extents)
    && Canonical(h.extents) && (h.mapBlock > 0 ==> h.mapBlock - 1 !in Keys(g.extents))
    && Keys(h.extents) ==
        (Keys(g.extents) - Range(h.mapBlock, h.mapCount)) + (Keys(g.fextents) + Range(g.mapBlock, g.mapCount))
  }

  lemma CheckpointFits(g: Lists, owner: map<nat, Owner>, h: Lists)
    requires Agree(g, owner, |g.layers|) && CanPublish(g) && Prepared(g, h)
    ensures MapBlocks(|h.extents|) <= h.mapCount <==> !Overflows(g)
    ensures Overflows(g) ==> MapBlocks(|h.extents|) == h.mapCount + 1 && h.mapBlock + h.mapCount in Keys(h.extents)
  {
    AgreeMap(g, owner);
    assert h.mapBlock in Range(h.mapBlock, h.mapCount);
    FreeMapFits(g, h.mapBlock, h.extents);
    if Overflows(g) {
      OverflowBlock(g, h.mapBlock, h.extents);
    }
  }

  lemma MapSafe(s: State, step: Step, h: Lists, t: State)
    requires Enabled(s, step) && step.Publish? && t == Apply(s, step) && Agree(h, t.owner, |h.layers|)
    requires step.written > step.mapCount ==> step.mapBlock + step.mapCount in Keys(h.extents)
    ensures CrashSafe(t) <==> Fits(step)
  {
    PublishSafe(s, step);
    MapInUse(s, step);
    if step.written > step.mapCount {
      var b := step.mapBlock + step.mapCount;
      FreeNotInUse(h, t.owner, b);
      assert b in Range(step.mapBlock, step.written);
    } else {
      assert Range(step.mapBlock, step.written) <= Range(step.mapBlock, step.mapCount);
    }
  }

  lemma CheckpointSafe(g: Lists, s: State, h: Lists, t: State)
    requires Agree(g, s.owner, |g.layers|) && Agree(h, t.owner, |h.layers|) && CanPublish(g) && Prepared(g, h)
    requires Enabled(s, CheckpointStep(g, h)) && t == Apply(s, CheckpointStep(g, h))
    ensures Fits(CheckpointStep(g, h)) <==> !Overflows(g)
    ensures CrashSafe(t) <==> !Overflows(g)
  {
    CheckpointFits(g, s.owner, h);
    MapSafe(s, CheckpointStep(g, h), h, t);
  }

  lemma AtMostOneMore(count: nat, n: nat)
    requires n <= count + 1
    ensures MapBlocks(n) <= MapBlocks(count) + 1
  {
  }

  lemma DeviceEnds(g: Lists, owner: map<nat, Owner>)
    requires Agree(g, owner, |g.layers|)
    ensures g.tblocks < INVALID_BLOCK
  {
    AgreeIs(g, owner, |g.layers|);
  }

  lemma FreeNotInUse(g: Lists, owner: map<nat, Owner>, b: nat)
    requires Agree(g, owner, |g.layers|) && b in Keys(g.extents)
    ensures b in owner && owner[b] == Free
  {
    AgreeIs(g, owner, |g.layers|);
    assert b in Owned(owner, Free);
  }

  /** `lc_readExtents` on the next mount: the free list comes back as it was, and the counts that it checks are right;
      its check of the number of blocks read fails exactly if the map did not fit. */
  method ReadFreeMap(gfs: Gfs, d: Disk) returns (list: seq<Extent>, count: nat, ecount: nat)
    requires gfs.Valid() && gfs.extents != [] && gfs.fextents == [] && MapStored(d, gfs.mapBlock, gfs.extents)
    requires gfs.mapBlock + MapBlocks(|gfs.extents|) <= INVALID_BLOCK
    ensures list == gfs.extents && count + gfs.sbBlocks == gfs.tblocks && ecount == MapBlocks(|gfs.extents|)
  {
    AgreeMap(gfs.Now(), gfs.owner);
    ChainIsMap(|gfs.extents|);
    list, count, ecount := ReadExtents(d, gfs.mapBlock, gfs.extents);
  }

  /** A checkpoint and the mount after it. */
  method CommitAndMount(gfs: Gfs, disk: Disk, junk: seq<DExtent>) returns (ok: bool, list: seq<Extent>, ecount: nat)
    requires gfs.Valid() && |junk| == EXTENT_BLOCK
    modifies gfs
    ensures gfs.Valid()
    ensures ok <==> CanPublish(old(gfs.Now())) && gfs.mapBlock + gfs.mapCount < gfs.tblocks && gfs.extents != []
    ensures ok ==> list == gfs.extents && (ecount <= gfs.mapCount <==> !Overflows(old(gfs.Now())))
  {
    list, ecount := [], 0;
    var d;
    ok, d := WriteCheckpoint(gfs, disk, junk);
    if ok {
      DeviceEnds(gfs.Now(), gfs.owner);
      var count;
      list, count, ecount := ReadFreeMap(gfs, d);
    }
  }
}
