/** Space and checkpoints as a step machine (lcfs/block.c, lcfs/fs.c:815-853).

  Every block of the device has one owner. Each section the C code runs under an allocation
  lock is one step; writing a checkpoint (`lc_processFreeExtents` and the superblock that
  follows) is one step. There is no journal: a crash falls back to the blocks in use at the last
  checkpoint, so none of those may be handed out again before the next one. */
module Checkpoint {
  import opened Extents

  /** First block the allocator manages (`LC_START_BLOCK`); block 0 is the superblock. */
  const START_BLOCK: nat := 1

  /** Index of the global root layer. */
  const ROOT: nat := 0

  datatype Owner =
    | Free                 // on gfs_extents
    | Pending              // on gfs_fextents: freed, not for reuse until the next checkpoint
    | Reserve(layer: nat)  // on fs_extents of a layer
    | Alloc(layer: nat)    // in use: on fs_aextents of a layer, or owned by the root layer

  datatype State = State(
    total: nat,                // sb_tblocks
    owner: map<nat, Owner>,
    layers: set<nat>,
    committed: set<nat>,       // what the last superblock refers to: the blocks in use, and its free map
    taken: set<nat>            // handed out since then
  )

  datatype Step =
    | TakeReserve(layer: nat, block: nat, count: nat)
    | TakePool(layer: nat, block: nat, count: nat, chunk: nat)
    | FreeOwned(layer: nat, blocks: set<nat>)
    | Reuse(block: nat, count: nat)
    | Release(layer: nat)
    | NewLayer(layer: nat)
    | DropLayer(layer: nat)
    | Grow(more: nat)
    // a checkpoint: `mapCount` blocks are set aside for the free map, which takes `written` blocks
    | Publish(mapBlock: nat, mapCount: nat, oldBlock: nat, oldCount: nat, written: nat)

  /** The blocks the allocator manages on a device of `total` blocks. */
  function Device(total: nat): set<nat>
    requires total >= START_BLOCK
  {
    Range(START_BLOCK, total - START_BLOCK)
  }

  /** The blocks with a given owner. */
  function Owned(owner: map<nat, Owner>, o: Owner): set<nat> {
    set b | b in owner && owner[b] == o
  }

  function Move(owner: map<nat, Owner>, r: set<nat>, to: Owner): map<nat, Owner> {
    map b | b in owner :: if b in r then to else owner[b]
  }

  predicate Holds(owner: map<nat, Owner>, r: set<nat>, o: Owner) {
    r <= Owned(owner, o)
  }

  /** The blocks in use. */
  function InUse(owner: map<nat, Owner>): set<nat> {
    set b | b in owner && owner[b].Alloc?
  }

  predicate Enabled(s: State, step: Step) {
    match step
    case TakeReserve(l, b, n) => l in s.layers && Holds(s.owner, Range(b, n), Reserve(l))
    case TakePool(l, b, n, chunk) => l in s.layers && n <= chunk && Holds(s.owner, Range(b, chunk), Free)
    // the root layer keeps no list of its blocks and frees only what it owns
    case FreeOwned(l, r) => l in s.layers && (l == ROOT ==> Holds(s.owner, r, Alloc(ROOT)))
    // blocks allocated and given back unused, under one lock of the root layer
    case Reuse(b, n) => Holds(s.owner, Range(b, n), Alloc(ROOT)) && Range(b, n) <= s.taken
    case Release(l) => l in s.layers
    case NewLayer(l) => l !in s.layers
    case DropLayer(l) => l in s.layers && l != ROOT
    case Grow(more) => s.total >= START_BLOCK
    case Publish(mb, mn, ob, on, w) =>
      Holds(s.owner, Range(mb, mn), Free) && Holds(s.owner, Range(ob, on), Alloc(ROOT))
  }

  function Apply(s: State, step: Step): State
    requires Enabled(s, step)
  {
    match step
    case TakeReserve(l, b, n) =>
      s.(owner := Move(s.owner, Range(b, n), Alloc(l)), taken := s.taken + Range(b, n))
    case TakePool(l, b, n, chunk) =>
      s.(owner := Move(Move(s.owner, Range(b, chunk), Reserve(l)), Range(b, n), Alloc(l)),
         taken := s.taken + Range(b, n))
    // a layer releases only what it allocated itself, not what it inherited
    case FreeOwned(l, blocks) =>
      s.(owner := Move(s.owner, blocks * Owned(s.owner, Alloc(l)), Pending))
    case Reuse(b, n) =>
      s.(owner := Move(s.owner, Range(b, n), Reserve(ROOT)))
    case Release(l) =>
      s.(owner := Move(s.owner, Owned(s.owner, Reserve(l)), Free))
    case NewLayer(l) => s.(layers := s.layers + {l})
    case DropLayer(l) =>
      var r, a := Owned(s.owner, Reserve(l)), Owned(s.owner, Alloc(l));
      s.(owner := Move(Move(s.owner, r, Free), a, Pending), layers := s.layers - {l})
    case Grow(more) =>
      s.(total := s.total + more,
         owner := map b | b in Device(s.total + more) :: if b in s.owner then s.owner[b] else Free)
    case Publish(mb, mn, ob, on, w) =>
      var o1 := Move(Move(s.owner, Range(mb, mn), Alloc(ROOT)), Range(ob, on), Pending);
      var o2 := Move(o1, Owned(o1, Pending), Free);
      s.(owner := o2, committed := InUse(o2) + Range(mb, w), taken := {})
  }

  /** The free map of a checkpoint stays within the blocks set aside for it. */
  predicate Fits(step: Step) {
    step.Publish? ==> step.written <= step.mapCount
  }

  /** The blocks handed out by a step. */
  function Given(step: Step): set<nat> {
    match step
    case TakeReserve(l, b, n) => Range(b, n)
    case TakePool(l, b, n, chunk) => Range(b, n)
    case Publish(mb, mn, ob, on, w) => Range(mb, mn)
    case _ => {}
  }

  /** A freshly formatted device of `total` blocks (`lc_blockAllocatorInit`). */
  function Format(total: nat): State
    requires total >= START_BLOCK
  {
    State(total, map b | b in Device(total) :: Free, {ROOT}, {}, {})
  }

  /** Number of blocks on the two global lists. */
  function FreeCount(owner: map<nat, Owner>): nat {
    |Owned(owner, Free)| + |Owned(owner, Pending)|
  }

  /** The space partition: every managed block has an owner, which is a global list or a live layer. */
  ghost predicate Partition(s: State) {
    && s.total >= START_BLOCK && ROOT in s.layers
    && s.owner.Keys == Device(s.total)
    && (forall b :: b in s.owner && (s.owner[b].Reserve? || s.owner[b].Alloc?) ==> s.owner[b].layer in s.layers)
  }

  /** No block of the last checkpoint is free, reserved, or was handed out since. */
  ghost predicate CrashSafe(s: State) {
    && (forall b :: b in s.committed ==> b in s.owner && (s.owner[b].Alloc? || s.owner[b].Pending?))
    && (forall b :: b in s.taken ==> b in s.owner)
    && s.taken !! s.committed
  }

  // ----- Holdings -----

  lemma MoveOwned(owner: map<nat, Owner>, r: set<nat>, to: Owner, o: Owner)
    requires r <= owner.Keys
    ensures Owned(Move(owner, r, to), o) == if o == to then Owned(owner, o) + r else Owned(owner, o) - r
  {
  }

  /** A move changes the holdings of two owners and of no other. */
  lemma MoveAll(owner: map<nat, Owner>, r: set<nat>, from: Owner, to: Owner)
    requires Holds(owner, r, from) && from != to
    ensures Owned(Move(owner, r, to), to) == Owned(owner, to) + r
    ensures Owned(Move(owner, r, to), from) == Owned(owner, from) - r
    ensures forall o :: o != from && o != to ==> Owned(Move(owner, r, to), o) == Owned(owner, o)
  {
    MoveOwned(owner, r, to, to);
    MoveOwned(owner, r, to, from);
    forall o | o != from && o != to ensures Owned(Move(owner, r, to), o) == Owned(owner, o) {
      MoveOwned(owner, r, to, o);
    }
  }

  lemma DeviceGrows(total: nat, more: nat, b: nat)
    requires total >= START_BLOCK
    ensures b in Device(total + more) <==> b in Device(total) || b in Range(total, more)
  {
  }

  // ----- What becomes of a block -----

  /** The owner of a block after a step that is no checkpoint: a block that is taken goes to its layer and the rest of
      its chunk to the reserve; what a layer frees of its own is pending; what it releases, and what a device gains, is
      free. */
  lemma StepOwner(s: State, step: Step, b: nat)
    requires Partition(s) && Enabled(s, step) && !step.Publish?
    ensures var r := Apply(s, step);
            && (b in s.owner ==> b in r.owner)
            && (b in r.owner && b !in s.owner ==>
                  step.Grow? && s.total <= b < s.total + step.more && r.owner[b] == Free)
            && (b in s.owner ==>
                  r.owner[b] ==
                  if (step.TakeReserve? || step.TakePool?) && step.block <= b < step.block + step.count then
                    Alloc(step.layer)
                  else if step.TakePool? && step.block <= b < step.block + step.chunk then Reserve(step.layer)
                  else if step.FreeOwned? && b in step.blocks && s.owner[b] == Alloc(step.layer) then Pending
                  else if step.Reuse? && step.block <= b < step.block + step.count then Reserve(ROOT)
                  else if (step.Release? || step.DropLayer?) && s.owner[b] == Reserve(step.layer) then Free
                  else if step.DropLayer? && s.owner[b] == Alloc(step.layer) then Pending
                  else s.owner[b])
  {
  }

  /** The owner of a block after a checkpoint: the root layer has the new free map, and all that was pending and the old
      map are free. The checkpoint refers to the blocks then in use and to the map as it is written. */
  lemma CheckpointOwner(s: State, step: Step, b: nat)
    requires Partition(s) && Enabled(s, step) && step.Publish?
    ensures var r := Apply(s, step);
            && (b in r.owner <==> b in s.owner)
            && (b in s.owner ==>
                  r.owner[b] ==
                  if step.oldBlock <= b < step.oldBlock + step.oldCount || s.owner[b] == Pending then Free
                  else if step.mapBlock <= b < step.mapBlock + step.mapCount then Alloc(ROOT) else s.owner[b])
            && (b in r.committed <==>
                  (b in r.owner && r.owner[b].Alloc?) || step.mapBlock <= b < step.mapBlock + step.written)
            && r.taken == {}
  {
  }

  // ----- Every step keeps the partition and is crash safe -----

  lemma StepKeepsPartition(s: State, step: Step)
    requires Partition(s) && Enabled(s, step)
    ensures Partition(Apply(s, step))
  {
    var t := Apply(s, step);
    match step {
      case Grow(more) =>
        assert t.owner.Keys == Device(t.total);
      case DropLayer(l) =>
        assert t.owner.Keys == s.owner.Keys;
        forall b | b in t.owner && (t.owner[b].Reserve? || t.owner[b].Alloc?) ensures t.owner[b].layer in t.layers {
          assert b in Owned(s.owner, s.owner[b]);
        }
      case _ =>
        assert t.owner.Keys == s.owner.Keys;
    }
  }

  /** A step hands out no block of the last checkpoint, and leaves all of them in use or pending, unless it is a
      checkpoint whose free map does not fit. */
  lemma StepKeepsCrashSafe(s: State, step: Step)
    requires Partition(s) && CrashSafe(s) && Enabled(s, step) && Fits(step)
    ensures CrashSafe(Apply(s, step))
    ensures Given(step) !! s.committed
  {
    var t := Apply(s, step);
    match step {
      case TakeReserve(l, b, n) =>
        assert forall x :: x in Range(b, n) ==> x in Owned(s.owner, Reserve(l));
      case TakePool(l, b, n, chunk) =>
        assert forall x :: x in Range(b, n) ==> x in Range(b, chunk) && x in Owned(s.owner, Free);
      case FreeOwned(_, _) =>
      case Reuse(b, n) =>
      case Release(_) =>
      case NewLayer(_) =>
      case DropLayer(l) =>
      case Grow(more) =>
        assert forall x :: x in s.owner ==> x in Device(s.total + more);
      case Publish(mb, mn, ob, on, w) =>
        assert forall x :: x in Range(mb, mn) ==> x in Owned(s.owner, Free);
        PublishSafe(s, step);
        MapInUse(s, step);
    }
  }

  lemma MapInUse(s: State, step: Step)
    requires Enabled(s, step) && step.Publish?
    ensures Range(step.mapBlock, step.mapCount) <= InUse(Apply(s, step).owner)
  {
    forall b | b in Range(step.mapBlock, step.mapCount) ensures b in InUse(Apply(s, step).owner) {
      assert b in Owned(s.owner, Free);
      assert b in Range(step.oldBlock, step.oldCount) ==> b in Owned(s.owner, Alloc(ROOT));
    }
  }

  /** A checkpoint is safe exactly if every block its free map takes is in use. */
  lemma PublishSafe(s: State, step: Step)
    requires Enabled(s, step) && step.Publish?
    ensures CrashSafe(Apply(s, step)) <==> Range(step.mapBlock, step.written) <= InUse(Apply(s, step).owner)
    ensures Given(step) !! s.committed || !CrashSafe(s)
  {
    var t := Apply(s, step);
    assert Owned(t.owner, Pending) == {};
    assert forall x :: x in Range(step.mapBlock, step.mapCount) ==> x in Owned(s.owner, Free);
    if CrashSafe(t) {
      forall b | b in Range(step.mapBlock, step.written) ensures b in InUse(t.owner) {
        assert b in t.committed && t.owner[b] != Pending;
      }
    }
  }

  // ----- Whole runs -----

  /** `states` is the run of the machine from a freshly formatted device through `steps`. */
  ghost predicate Run(total: nat, steps: seq<Step>, states: seq<State>) {
    && total >= START_BLOCK
    && |states| == |steps| + 1
    && states[0] == Format(total)
    && forall i :: 0 <= i < |steps| ==> Enabled(states[i], steps[i]) && states[i + 1] == Apply(states[i], steps[i])
  }

  lemma FormatSafe(total: nat)
    requires total >= START_BLOCK
    ensures Partition(Format(total)) && CrashSafe(Format(total))
  {
    assert Format(total).owner.Keys == Device(total);
  }

  /** The device is partitioned among its owners at every reachable state. */
  lemma {:induction false} RunPartition(total: nat, steps: seq<Step>, states: seq<State>, i: nat)
    requires Run(total, steps, states) && i < |states|
    ensures Partition(states[i])
    decreases i
  {
    if i == 0 {
      FormatSafe(total);
    } else {
      RunPartition(total, steps, states, i - 1);
      StepKeepsPartition(states[i - 1], steps[i - 1]);
    }
  }

  /** If the free map of every checkpoint so far fits, the last checkpoint is intact. */
  lemma {:induction false} RunSafe(total: nat, steps: seq<Step>, states: seq<State>, i: nat)
    requires Run(total, steps, states) && i < |states| && forall k {:trigger steps[k]} :: 0 <= k < i ==> Fits(steps[k])
    ensures Partition(states[i]) && CrashSafe(states[i])
    decreases i
  {
    if i == 0 {
      FormatSafe(total);
    } else {
      RunSafe(total, steps, states, i - 1);
      StepKeepsPartition(states[i - 1], steps[i - 1]);
      StepKeepsCrashSafe(states[i - 1], steps[i - 1]);
    }
  }

  lemma {:induction false} CommittedStays(total: nat, steps: seq<Step>, states: seq<State>, i: nat, j: nat)
    requires Run(total, steps, states) && i <= j < |states|
    requires forall k :: i <= k < j ==> !steps[k].Publish?
    ensures states[j].committed == states[i].committed
    decreases j
  {
    if i < j {
      CommittedStays(total, steps, states, i, j - 1);
    }
  }

  /** Checkpoint safety: a block that checkpoint `i` refers to, in use or part of its free map, is not handed out by any
      step up to and including the next checkpoint, whatever was freed, reserved, released or deleted in between. The
      free maps have to fit the blocks set aside for them. */
  lemma {:induction false} NoReuseBeforeNextCheckpoint(total: nat, steps: seq<Step>, states: seq<State>, i: nat, j: nat)
    requires Run(total, steps, states) && i < j < |steps|
    requires steps[i].Publish? && forall k :: i < k < j ==> !steps[k].Publish?
    requires forall k {:trigger steps[k]} :: 0 <= k <= i ==> Fits(steps[k])
    ensures Given(steps[j]) !! states[i + 1].committed && InUse(states[i + 1].owner) <= states[i + 1].committed
    ensures Range(steps[i].mapBlock, steps[i].written) <= states[i + 1].committed
  {
    CommittedStays(total, steps, states, i + 1, j);
    RunSafe(total, steps, states, j);
    RunPartition(total, steps, states, j);
    if steps[j].Publish? {
      PublishSafe(states[j], steps[j]);
    } else {
      StepKeepsCrashSafe(states[j], steps[j]);
    }
  }

  /** What a mount after a checkpoint whose free map fits finds: nothing is pending, the last superblock refers to
      exactly the blocks in use, and the blocks neither free nor in use are exactly those layers held in reserve. */
  lemma CheckpointImage(s: State, step: Step)
    requires Partition(s) && Enabled(s, step) && step.Publish? && Fits(step)
    ensures var t := Apply(s, step);
            && Owned(t.owner, Pending) == {}
            && t.committed == InUse(t.owner)
            && forall b :: b in Device(t.total) - Owned(t.owner, Free) - t.committed
                           <==> b in s.owner && s.owner[b].Reserve?
  {
    StepKeepsPartition(s, step);
    var t := Apply(s, step);
    assert Owned(t.owner, Pending) == {};
    MapInUse(s, step);
    assert Range(step.mapBlock, step.written) <= Range(step.mapBlock, step.mapCount);
    forall b ensures b in Device(t.total) - Owned(t.owner, Free) - t.committed
                     <==> b in s.owner && s.owner[b].Reserve? {
      assert b in Range(step.mapBlock, step.mapCount) ==> b in Owned(s.owner, Free);
      assert b in Range(step.oldBlock, step.oldCount) ==> b in Owned(s.owner, Alloc(ROOT));
    }
  }
}
