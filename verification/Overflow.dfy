/**
  * A run in which the free map of a checkpoint does not fit the blocks set aside for it (lcfs/block.c, lcfs/fs.c): its
  * last block is free, and the next allocation hands it out although the superblock refers to it.
  */
module Overflow {
  import opened Extents
  import opened Checkpoint
  import opened Blocks
  import opened FreeMap

  const TOTAL: nat := 10000   // LC_MIN_BLOCKS

  /** The first run of `n` free blocks, which the first-fit search of the code finds. */
  ghost predicate First(free: set<nat>, b: nat, n: nat) {
    Range(b, n) <= free && forall c: nat {:trigger Range(c, n)} :: c < b ==> !(Range(c, n) <= free)
  }

  /** There is no run of `n` free blocks. */
  ghost predicate NoRun(free: set<nat>, n: nat) {
    forall c: nat {:trigger Range(c, n)} :: !(Range(c, n) <= free)
  }

  /** What the code does in the given state, and its asserts hold. An allocation without a reserve takes `BLOCK_RESERVE`
      blocks if it can. A checkpoint counts on an extent for each run of free and of pending blocks, and writes one for
      each run of free blocks. Neither takes the last block of the device. */
  ghost predicate Exact(s: State, step: Step)
    requires Enabled(s, step)
  {
    var free := Owned(s.owner, Free);
    match step
    case TakePool(l, b, n, chunk) =>
      && Owned(s.owner, Reserve(l)) == {} && First(free, b, chunk) && b + n < s.total
      && chunk == (if n > BLOCK_RESERVE || NoRun(free, BLOCK_RESERVE) then n else BLOCK_RESERVE)
    case Publish(mb, mn, ob, on, w) =>
      && mn == MapBlocks(|Starts(free)| + |Starts(Owned(s.owner, Pending))|) && First(free, mb, mn) && mb + mn < s.total
      && w == MapBlocks(|Starts(Owned(Apply(s, step).owner, Free))|)
    case _ => true
  }

  /** A state in which all other blocks belong to the root layer. */
  ghost function At(free: set<nat>, pending: set<nat>, committed: set<nat>, taken: set<nat>): State {
    State(TOTAL,
      map b | b in Device(TOTAL) :: if b in free then Free else if b in pending then Pending else Alloc(ROOT),
          {ROOT}, committed, taken)
  }

  lemma AtHolds(free: set<nat>, pending: set<nat>, committed: set<nat>, taken: set<nat>)
    requires free + pending <= Device(TOTAL) && free !! pending
    ensures var s := At(free, pending, committed, taken);
            && Owned(s.owner, Free) == free && Owned(s.owner, Pending) == pending
            && Owned(s.owner, Alloc(ROOT)) == InUse(s.owner) == Device(TOTAL) - free - pending
            && Owned(s.owner, Reserve(ROOT)) == {}
  {
  }

  /** The root layer takes a run of free blocks. */
  lemma Takes(free: set<nat>, pending: set<nat>, committed: set<nat>, taken: set<nat>, b: nat, n: nat)
    requires free + pending <= Device(TOTAL) && free !! pending && First(free, b, n) && b + n < TOTAL
    requires n > BLOCK_RESERVE || NoRun(free, BLOCK_RESERVE)
    ensures var s := At(free, pending, committed, taken); var step := TakePool(ROOT, b, n, n);
            && Enabled(s, step) && Exact(s, step)
            && Apply(s, step) == At(free - Range(b, n), pending, committed, taken + Range(b, n))
  {
    AtHolds(free, pending, committed, taken);
    var s, step := At(free, pending, committed, taken), TakePool(ROOT, b, n, n);
    assert Apply(s, step).owner == At(free - Range(b, n), pending, committed, taken + Range(b, n)).owner;
  }

  /** The root layer frees blocks of its own. */
  lemma Frees(free: set<nat>, committed: set<nat>, taken: set<nat>, r: set<nat>)
    requires free <= Device(TOTAL) && r <= Device(TOTAL) - free
    ensures var s := At(free, {}, committed, taken); var step := FreeOwned(ROOT, r);
            Enabled(s, step) && Apply(s, step) == At(free, r, committed, taken)
  {
    AtHolds(free, {}, committed, taken);
    var s, step := At(free, {}, committed, taken), FreeOwned(ROOT, r);
    assert Apply(s, step).owner == At(free, r, committed, taken).owner;
  }

  /** A checkpoint. */
  lemma Commits(free: set<nat>, pending: set<nat>, committed: set<nat>, taken: set<nat>, mb: nat, mn: nat, ob: nat,
                on: nat, w: nat)
    requires free + pending <= Device(TOTAL) && free !! pending && Range(mb, mn) <= free
    requires Range(ob, on) <= Device(TOTAL) - free - pending
    ensures var s := At(free, pending, committed, taken); var step := Publish(mb, mn, ob, on, w);
            var free' := (free - Range(mb, mn)) + (pending + Range(ob, on));
            Enabled(s, step) && Apply(s, step) == At(free', {}, (Device(TOTAL) - free') + Range(mb, w), {})
  {
    AtHolds(free, pending, committed, taken);
    var s, step := At(free, pending, committed, taken), Publish(mb, mn, ob, on, w);
    var free' := (free - Range(mb, mn)) + (pending + Range(ob, on));
    assert Apply(s, step).owner == At(free', {}, {}, {}).owner;
    AtHolds(free', {}, {}, {});
  }

  lemma PublishExact(s: State, step: Step, free: set<nat>, pending: set<nat>, after: set<nat>)
    requires Enabled(s, step) && step.Publish? && step.mapBlock + step.mapCount < s.total
    requires Owned(s.owner, Free) == free && Owned(s.owner, Pending) == pending
    requires Owned(Apply(s, step).owner, Free) == after && First(free, step.mapBlock, step.mapCount)
    requires step.mapCount == MapBlocks(|Starts(free)| + |Starts(pending)|)
    requires step.written == MapBlocks(|Starts(after)|)
    ensures Exact(s, step)
  {
  }

  /** A checkpoint with the counts of the source. */
  lemma CommitsExactly(free: set<nat>, pending: set<nat>, committed: set<nat>, taken: set<nat>, mb: nat, mn: nat,
                       ob: nat, on: nat, w: nat, after: set<nat>)
    returns (s: State, step: Step, t: State)
    requires free + pending <= Device(TOTAL) && free !! pending && Range(mb, mn) <= free
    requires Range(ob, on) <= Device(TOTAL) - free - pending
    requires after == (free - Range(mb, mn)) + (pending + Range(ob, on))
    requires mn == MapBlocks(|Starts(free)| + |Starts(pending)|) && w == MapBlocks(|Starts(after)|)
    requires First(free, mb, mn) && mb + mn < TOTAL
    ensures s == At(free, pending, committed, taken) && step == Publish(mb, mn, ob, on, w)
    ensures t == At(after, {}, Referred(after, mb, w), {})
    ensures Enabled(s, step) && t == Apply(s, step) && Exact(s, step)
  {
    s, step := At(free, pending, committed, taken), Publish(mb, mn, ob, on, w);
    t := At(after, {}, Referred(after, mb, w), {});
    AtHolds(free, pending, committed, taken);
    Commits(free, pending, committed, taken, mb, mn, ob, on, w);
    AtHolds(after, {}, (Device(TOTAL) - after) + Range(mb, w), {});
    PublishExact(s, step, free, pending, after);
  }

  /** 254 runs of two blocks, far from the end of the device. */
  ghost predicate Scattered(p: set<nat>) {
    && |Starts(p)| == 254 && 10 in p && 11 in p
    && forall b: nat {:trigger b in p} :: b in p ==> 10 <= b < 2550 && b % 10 < 2
  }

  lemma PairsScattered() returns (p: set<nat>)
    ensures Scattered(p)
  {
    PairsAre(254);
    p := Keys(Pairs(254));
    StartsOfList(Pairs(254));
  }

  lemma RunStarts(b: nat, n: nat)
    requires n > 0
    ensures Starts(Range(b, n)) == {b}
  {
  }

  /** Blocks far behind those of `p` add runs of their own. */
  lemma MoreRuns(p: set<nat>, r: set<nat>)
    requires 0 !in p && forall b: nat {:trigger b in p} :: b in p ==> b < 2550
    requires forall b: nat {:trigger b in r} :: b in r ==> b >= 8200
    ensures |Starts(p + r)| == |Starts(p)| + |Starts(r)|
  {
    forall x | x in p ensures !Beside(x, r) {
    }
    StartsUnion(p, r);
  }

  /** The free blocks before and after the first checkpoint, before the second and after it. */
  ghost function Tail(): set<nat> {
    Range(8201, 1799)
  }

  ghost function FreeOnce(p: set<nat>): set<nat> {
    p + Range(8202, 1798)
  }

  ghost function FreeThen(p: set<nat>): set<nat> {
    p + Range(8205, 1795)
  }

  ghost function FreeTwice(p: set<nat>): set<nat> {
    (p - {10}) + ({8201} + Range(8205, 1795))
  }

  lemma FreeSets(p: set<nat>)
    requires Scattered(p)
    ensures Range(1, 9999) - Range(1, 8200) == Tail()
    ensures (Tail() - Range(8201, 1)) + (p + Range(0, 0)) == FreeOnce(p)
    ensures FreeOnce(p) - Range(8202, 3) == FreeThen(p)
    ensures (FreeThen(p) - Range(10, 1)) + ({} + Range(8201, 1)) == FreeTwice(p)
    ensures Range(10, 1) == {10} && Range(11, 1) == {11} && 11 in Range(10, 2)
  {
    assert Range(10, 1) == {10} && Range(8201, 1) == {8201};
  }

  /** No three blocks of `p` follow each other. */
  lemma NoThree(p: set<nat>, c: nat)
    requires Scattered(p)
    ensures !(c in p && c + 1 in p && c + 2 in p)
  {
  }

  /** What the search finds at each step. */
  lemma Searches(p: set<nat>)
    requires Scattered(p)
    ensures First(Range(1, 9999), 1, 8200) && First(Tail(), 8201, 1)
    ensures First(FreeOnce(p), 8202, 3) && First(FreeThen(p), 10, 1) && First(FreeTwice(p), 11, 1)
  {
    forall c: nat | c < 8202 ensures !(Range(c, 3) <= FreeOnce(p)) {
      NoThree(p, c);
      assert c in Range(c, 3) && c + 1 in Range(c, 3) && c + 2 in Range(c, 3);
    }
    forall c: nat ensures c in Range(c, 1) {
    }
    assert 0 in Range(0, 8200);
    assert Range(11, 1) == {11} && Range(10, 1) == {10};
  }

  /** There is no room for a reserve. */
  lemma NoReserve(p: set<nat>, r: set<nat>)
    requires Scattered(p) && forall b: nat {:trigger b in r} :: b in r ==> 8200 <= b < TOTAL
    ensures NoRun(p + r, BLOCK_RESERVE) && NoRun((p - {10}) + r, BLOCK_RESERVE)
  {
    forall c: nat ensures !(Range(c, BLOCK_RESERVE) <= p + r) {
      NoThree(p, c);
      assert c in Range(c, BLOCK_RESERVE) && c + 1 in Range(c, BLOCK_RESERVE) && c + 2 in Range(c, BLOCK_RESERVE);
      assert c + 8000 in Range(c, BLOCK_RESERVE);
    }
    assert (p - {10}) + r <= p + r;
  }

  /** The counts at the first checkpoint. */
  lemma Counts(p: set<nat>)
    requires Scattered(p)
    ensures MapBlocks(|Starts(Tail())| + |Starts(p)|) == 1 && MapBlocks(|Starts(FreeOnce(p))|) == 1
  {
    RunStarts(8201, 1799);
    RunStarts(8202, 1798);
    MoreRuns(p, Range(8202, 1798));
  }

  lemma TwoRuns()
    ensures |Starts({8201} + Range(8205, 1795))| == 2
  {
    assert Starts({8201} + Range(8205, 1795)) == {8201, 8205};
  }

  /** The counts at the second checkpoint. */
  lemma CountsAgain(p: set<nat>)
    requires Scattered(p)
    ensures MapBlocks(|Starts(FreeThen(p))| + |Starts({})|) == 1 && MapBlocks(|Starts(FreeTwice(p))|) == 2
  {
    assert Starts({}) == {};
    RunStarts(8205, 1795);
    MoreRuns(p, Range(8205, 1795));
    assert Range(10, 1) == {10};
    StartsTake(p, 10, 1);
    TwoRuns();
    MoreRuns(p - {10}, {8201} + Range(8205, 1795));
  }

  /** Step `i` of the run. */
  ghost function StepAt(p: set<nat>, i: nat): Step {
    if i == 0 then TakePool(ROOT, 1, 8200, 8200)
    else if i == 1 then FreeOwned(ROOT, p)
    else if i == 2 then Publish(8201, 1, 0, 0, 1)
    else if i == 3 then TakePool(ROOT, 8202, 3, 3)
    else if i == 4 then Publish(10, 1, 8201, 1, 2)
    else TakePool(ROOT, 11, 1, 1)
  }

  /** What a checkpoint refers to when these blocks are free and its map takes `w` blocks from `mb` on. */
  ghost function Referred(free: set<nat>, mb: nat, w: nat): set<nat> {
    (Device(TOTAL) - free) + Range(mb, w)
  }

  /** The state before step `i`. */
  ghost function StateAt(p: set<nat>, i: nat): State {
    if i == 0 then At(Range(1, 9999), {}, {}, {})
    else if i == 1 then At(Tail(), {}, {}, {} + Range(1, 8200))
    else if i == 2 then At(Tail(), p, {}, {} + Range(1, 8200))
    else if i == 3 then At(FreeOnce(p), {}, Referred(FreeOnce(p), 8201, 1), {})
    else if i == 4 then At(FreeThen(p), {}, Referred(FreeOnce(p), 8201, 1), {} + Range(8202, 3))
    else if i == 5 then At(FreeTwice(p), {}, Referred(FreeTwice(p), 10, 2), {})
    else At(FreeTwice(p) - Range(11, 1), {}, Referred(FreeTwice(p), 10, 2), {} + Range(11, 1))
  }

  ghost predicate StepOk(p: set<nat>, i: nat) {
    && Enabled(StateAt(p, i), StepAt(p, i)) && Apply(StateAt(p, i), StepAt(p, i)) == StateAt(p, i + 1)
    && Exact(StateAt(p, i), StepAt(p, i))
  }

  lemma Fill(p: set<nat>)
    requires Scattered(p)
    ensures StepOk(p, 0) && StepOk(p, 1)
  {
    FreeSets(p);
    Searches(p);
    Takes(Range(1, 9999), {}, {}, {}, 1, 8200);
    Frees(Tail(), {}, {} + Range(1, 8200), p);
  }

  lemma FirstCheckpoint(p: set<nat>)
    requires Scattered(p)
    ensures StepOk(p, 2)
  {
    FreeSets(p);
    Counts(p);
    Searches(p);
    var s, step, t := CommitsExactly(Tail(), p, {}, {} + Range(1, 8200), 8201, 1, 0, 0, 1, FreeOnce(p));
    StepIs(p, 2, s, step, t);
  }

  lemma TakeMore(p: set<nat>)
    requires Scattered(p)
    ensures StepOk(p, 3)
  {
    FreeSets(p);
    Searches(p);
    NoReserve(p, Range(8202, 1798));
    Takes(FreeOnce(p), {}, StateAt(p, 3).committed, {}, 8202, 3);
  }

  lemma SecondCheckpoint(p: set<nat>)
    requires Scattered(p)
    ensures StepOk(p, 4)
  {
    CountsAgain(p);
    SecondSets(p);
    Searches(p);
    var committed, taken: set<nat> := Referred(FreeOnce(p), 8201, 1), {} + Range(8202, 3);
    var s, step, t := CommitsExactly(FreeThen(p), {}, committed, taken, 10, 1, 8201, 1, 2, FreeTwice(p));
    SecondIs(p, committed, taken, s, step, t);
  }

  lemma SecondSets(p: set<nat>)
    requires Scattered(p)
    ensures FreeThen(p) + {} <= Device(TOTAL) && FreeThen(p) !! {} && Range(10, 1) <= FreeThen(p)
    ensures Range(8201, 1) <= Device(TOTAL) - FreeThen(p) - {}
    ensures FreeTwice(p) == (FreeThen(p) - Range(10, 1)) + ({} + Range(8201, 1))
  {
    FreeSets(p);
  }

  lemma SecondIs(p: set<nat>, committed: set<nat>, taken: set<nat>, s: State, step: Step, t: State)
    requires committed == Referred(FreeOnce(p), 8201, 1) && taken == {} + Range(8202, 3)
    requires s == At(FreeThen(p), {}, committed, taken) && step == Publish(10, 1, 8201, 1, 2)
    requires t == At(FreeTwice(p), {}, Referred(FreeTwice(p), 10, 2), {})
    requires Enabled(s, step) && t == Apply(s, step) && Exact(s, step)
    ensures StepOk(p, 4)
  {
  }

  lemma StepIs(p: set<nat>, i: nat, s: State, step: Step, t: State)
    requires s == StateAt(p, i) && step == StepAt(p, i) && t == StateAt(p, i + 1)
    requires Enabled(s, step) && t == Apply(s, step) && Exact(s, step)
    ensures StepOk(p, i)
  {
  }

  lemma LastStep(p: set<nat>)
    requires Scattered(p)
    ensures StepOk(p, 5) && 11 in StateAt(p, 5).committed && !CrashSafe(StateAt(p, 5))
  {
    FreeSets(p);
    Searches(p);
    NoReserve(p, {8201} + Range(8205, 1795));
    var s := StateAt(p, 5);
    Takes(FreeTwice(p), {}, s.committed, {}, 11, 1);
    assert 11 in FreeTwice(p) && 11 in Device(TOTAL) && s.owner[11] == Free;
  }

  lemma AllSteps(p: set<nat>, i: nat)
    requires Scattered(p) && i < 6
    ensures StepOk(p, i)
  {
    if i <= 1 {
      Fill(p);
    } else if i == 2 {
      FirstCheckpoint(p);
    } else if i == 3 {
      TakeMore(p);
    } else if i == 4 {
      SecondCheckpoint(p);
    } else {
      LastStep(p);
    }
  }

  lemma Start(p: set<nat>)
    ensures Format(TOTAL) == StateAt(p, 0)
  {
  }

  lemma RunIs(p: set<nat>, steps: seq<Step>, states: seq<State>)
    requires Scattered(p) && |steps| == 6 && |states| == 7
    requires forall i {:trigger steps[i]} :: 0 <= i < 6 ==> steps[i] == StepAt(p, i)
    requires forall i {:trigger states[i]} :: 0 <= i < 7 ==> states[i] == StateAt(p, i)
    ensures Run(TOTAL, steps, states)
    ensures forall i {:trigger steps[i]} :: 0 <= i < |steps| ==> Exact(states[i], steps[i])
  {
    Start(p);
    forall i | 0 <= i < |steps|
      ensures Enabled(states[i], steps[i]) && states[i + 1] == Apply(states[i], steps[i]) && Exact(states[i], steps[i])
    {
      AllSteps(p, i);
    }
  }

  /** The run: the root layer fills most of the device, frees scattered blocks, and at the second checkpoint the free
      map does not fit. The block it overflows into is free, and the next allocation hands it out. */
  lemma HandsOutMapBlock() returns (steps: seq<Step>, states: seq<State>)
    ensures Run(TOTAL, steps, states) && |steps| == 6
    ensures forall i {:trigger steps[i]} :: 0 <= i < |steps| ==> Exact(states[i], steps[i])
    ensures steps[4].Publish? && !Fits(steps[4]) && 11 in Given(steps[5])
    ensures 11 in Range(steps[4].mapBlock, steps[4].written)
    ensures 11 in states[5].committed && !CrashSafe(states[5])
  {
    var p := PairsScattered();
    steps, states := seq(6, i requires 0 <= i => StepAt(p, i)), seq(7, i requires 0 <= i => StateAt(p, i));
    RunIs(p, steps, states);
    LastStep(p);
    assert states[5] == StateAt(p, 5) && steps[4] == StepAt(p, 4) && steps[5] == StepAt(p, 5);
  }
}
