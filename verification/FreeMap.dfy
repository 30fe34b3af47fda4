/** The extent map on disk (lcfs/block.c:219-242, 262-407): a list of extents packed into a chain of
  blocks, and how many blocks it takes. */
module FreeMap {
  import opened Extents
  import opened Checkpoint
  import opened Blocks

  /** `struct dextent` */
  datatype DExtent = DExtent(start: nat, count: nat)

  /** `struct dextentBlock`, with room for `EXTENT_BLOCK` records. */
  datatype DBlock = DBlock(next: nat, recs: seq<DExtent>)

  type Disk = map<nat, DBlock>

  function Rec(e: Extent): DExtent {
    DExtent(e.start, e.count)
  }

  /** The records of one block hold the extents `l`, ended by a record that starts at 0 unless the block
      is full. What follows that record is left over memory. */
  ghost predicate HoldsRecs(recs: seq<DExtent>, l: seq<Extent>) {
    && |recs| == EXTENT_BLOCK && |l| <= EXTENT_BLOCK
    && (forall j :: 0 <= j < |l| ==> recs[j] == Rec(l[j]))
    && (|l| < EXTENT_BLOCK ==> recs[|l|].start == 0)
  }

  /** The chain of blocks from `block` on holds the extents `l`. */
  ghost predicate MapStored(disk: Disk, block: nat, l: seq<Extent>)
    decreases |l|
  {
    && block in disk
    && if |l| <= EXTENT_BLOCK then
         disk[block].next == INVALID_BLOCK && HoldsRecs(disk[block].recs, l)
       else
         disk[block].next == block + 1 && HoldsRecs(disk[block].recs, l[..EXTENT_BLOCK])
         && MapStored(disk, block + 1, l[EXTENT_BLOCK..])
  }

  // ----- Writing -----

  /** Index of the first extent on page `i`. */
  function Offset(i: nat): nat {
    255 * i
  }

  /** `eblock` has the first `count` records of page `k`. */
  ghost predicate Begun(list: seq<Extent>, k: nat, eblock: seq<DExtent>, count: nat) {
    && count <= |eblock| == EXTENT_BLOCK && Offset(k) + count <= |list|
    && forall j {:trigger eblock[j]} :: 0 <= j < count ==> eblock[j] == Rec(list[Offset(k) + j])
  }

  lemma PageDone(list: seq<Extent>, k: nat, eblock: seq<DExtent>, count: nat)
    requires Begun(list, k, eblock, count)
    requires (count == EXTENT_BLOCK || (Offset(k) + count == |list| && eblock[count].start == 0))
    ensures HoldsRecs(eblock, Slice(list, k))
  {
    var l := Slice(list, k);
    assert |l| == count;
    forall j | 0 <= j < |l| ensures eblock[j] == Rec(l[j]) {
      assert l[j] == list[Offset(k) + j];
    }
  }

  lemma BegunMore(list: seq<Extent>, k: nat, eblock: seq<DExtent>, count: nat, r: DExtent)
    requires Begun(list, k, eblock, count) && count < EXTENT_BLOCK
    ensures Begun(list, k, eblock[count := r], count)
    ensures Offset(k) + count < |list| && r == Rec(list[Offset(k) + count]) ==>
              Begun(list, k, eblock[count := r], count + 1)
  {
  }

  lemma PageTotal(k: nat, count: nat)
    requires 0 < count <= EXTENT_BLOCK
    ensures MapBlocks(Offset(k) + count) == k + 1
  {
  }

  ghost predicate AllHold(list: seq<Extent>, pages: seq<seq<DExtent>>) {
    forall i {:trigger pages[i]} :: 0 <= i < |pages| ==> HoldsRecs(pages[i], Slice(list, i))
  }

  lemma OneMorePage(list: seq<Extent>, pages: seq<seq<DExtent>>, last: seq<DExtent>)
    requires AllHold(list, pages) && HoldsRecs(last, Slice(list, |pages|))
    ensures AllHold(list, pages + [last])
  {
    var r := pages + [last];
    forall i | 0 <= i < |r| ensures HoldsRecs(r[i], Slice(list, i)) {
      assert i < |pages| ==> HoldsRecs(pages[i], Slice(list, i));
    }
  }

  /** A full page joins the pages that are done. */
  method StartPage(ghost list: seq<Extent>, pages: seq<seq<DExtent>>, eblock: seq<DExtent>, n: nat)
      returns (pages': seq<seq<DExtent>>)
    requires AllHold(list, pages)
    requires if n == 0 then pages == []
              else n == Offset(|pages|) + EXTENT_BLOCK && Begun(list, |pages|, eblock, EXTENT_BLOCK)
    ensures AllHold(list, pages')
    ensures n == Offset(|pages'|)
  {
    pages' := pages;
    if n > 0 {
      PageDone(list, |pages|, eblock, EXTENT_BLOCK);
      OneMorePage(list, pages, eblock);
      pages' := pages + [eblock];
    }
  }

  /** The first `n` extents are on pages: those that are done, and the one being filled. */
  ghost predicate Filled(list: seq<Extent>, n: nat, pages: seq<seq<DExtent>>, eblock: seq<DExtent>, count: nat) {
    && AllHold(list, pages)
    && if n == 0 then pages == [] && count == EXTENT_BLOCK
       else 0 < count <= EXTENT_BLOCK && n == Offset(|pages|) + count && Begun(list, |pages|, eblock, count)
  }

  /** Writes the record of extent `n`, on a new page if the last one is full. */
  method FillRecord(list: seq<Extent>, n: nat, junk: seq<DExtent>, pages: seq<seq<DExtent>>, eblock: seq<DExtent>,
                    count: nat)
    returns (pages': seq<seq<DExtent>>, eblock': seq<DExtent>, count': nat)
    requires n < |list| && |junk| == EXTENT_BLOCK && Filled(list, n, pages, eblock, count)
    ensures Filled(list, n + 1, pages', eblock', count')
  {
    pages', eblock', count' := pages, eblock, count;
    if count >= EXTENT_BLOCK {
      pages' := StartPage(list, pages, eblock, n);
      eblock', count' := junk, 0;
    }
    BegunMore(list, |pages'|, eblock', count', Rec(list[n]));
    eblock', count' := eblock'[count' := Rec(list[n])], count' + 1;
  }

  /** The first loop of `lc_blockFreeExtents`: the pages for a list, in list order. Pages are not
      cleared when allocated: `junk` is what they hold at first. */
  method FillPages(list: seq<Extent>, junk: seq<DExtent>) returns (pages: seq<seq<DExtent>>)
    requires |junk| == EXTENT_BLOCK
    ensures |pages| == MapBlocks(|list|)
    ensures AllHold(list, pages)
  {
    pages := [];
    var eblock, count, n := junk, EXTENT_BLOCK, 0;
    while n < |list|
      invariant n <= |list| && Filled(list, n, pages, eblock, count)
    {
      pages, eblock, count := FillRecord(list, n, junk, pages, eblock, count);
      n := n + 1;
    }
    if n > 0 {
      PageTotal(|pages|, count);
      pages := LastPage(list, pages, eblock, count);
    }
  }

  /** The last page ends with a record that starts at 0 unless it is full. */
  method LastPage(ghost list: seq<Extent>, pages: seq<seq<DExtent>>, eblock: seq<DExtent>, count: nat)
      returns (pages': seq<seq<DExtent>>)
    requires list != [] && Filled(list, |list|, pages, eblock, count)
    ensures |pages'| == |pages| + 1
    ensures AllHold(list, pages')
  {
    var last := eblock;
    if count < EXTENT_BLOCK {
      BegunMore(list, |pages|, eblock, count, eblock[count].(start := 0));
      last := eblock[count := eblock[count].(start := 0)];
    }
    PageDone(list, |pages|, last, count);
    OneMorePage(list, pages, last);
    pages' := pages + [last];
  }

  /** The extents that belong on page `i`. */
  function Slice(list: seq<Extent>, i: nat): seq<Extent>
  {
    var lo := Offset(i);
    if lo >= |list| then [] else if lo + EXTENT_BLOCK <= |list| then list[lo..lo + EXTENT_BLOCK] else list[lo..]
  }

  /** Page `i` of a chain of pages placed from `block` on is on disk. */
  ghost predicate PageAt(d: Disk, block: nat, pages: seq<seq<DExtent>>, i: nat) {
    i < |pages| ==>
      block + i in d && d[block + i] == DBlock(if i == |pages| - 1 then INVALID_BLOCK else block + i + 1, pages[i])
  }

  /** `lc_flushExtentPages`: pages get consecutive blocks, linked from the last page back. */
  method LinkPages(pages: seq<seq<DExtent>>, block: nat, disk: Disk) returns (d: Disk)
    ensures forall b :: b in disk && !(block <= b < block + |pages|) ==> b in d && d[b] == disk[b]
    ensures forall i: nat {:trigger PageAt(d, block, pages, i)} :: PageAt(d, block, pages, i)
  {
    d := disk;
    var count := |pages|;
    while count > 0
      invariant 0 <= count <= |pages|
      invariant forall b :: b in disk && !(block + count <= b < block + |pages|) ==> b in d && d[b] == disk[b]
      invariant forall i: nat {:trigger PageAt(d, block, pages, i)} :: count <= i ==> PageAt(d, block, pages, i)
    {
      count := count - 1;
      ghost var was := d;
      d := d[block + count := DBlock(if count == |pages| - 1 then INVALID_BLOCK else block + count + 1, pages[count])];
      assert forall i: nat {:trigger PageAt(d, block, pages, i)} :: count < i ==> PageAt(was, block, pages, i);
    }
  }

  /** `lc_blockFreeExtents` with the flag to flush: the list is stored from `block` on, and nothing else
      is written. */
  method FlushExtents(list: seq<Extent>, block: nat, disk: Disk, junk: seq<DExtent>) returns (d: Disk, pcount: nat)
    requires list != [] && |junk| == EXTENT_BLOCK
    ensures MapStored(d, block, list) && pcount == MapBlocks(|list|)
    ensures forall b :: b in disk && !(block <= b < block + pcount) ==> b in d && d[b] == disk[b]
  {
    var pages := FillPages(list, junk);
    d := LinkPages(pages, block, disk);
    pcount := |pages|;
    PagesStored(list, block, d, pages, 0);
    assert Slices(list, 0) == list;
  }

  /** The extents that belong on page `i` and the pages after it. */
  function Slices(list: seq<Extent>, i: nat): seq<Extent> {
    if Offset(i) <= |list| then list[Offset(i)..] else []
  }

  lemma {:induction false} PagesStored(list: seq<Extent>, block: nat, d: Disk, pages: seq<seq<DExtent>>, i: nat)
    requires |pages| == MapBlocks(|list|) && i < |pages|
    requires AllHold(list, pages)
    requires forall k: nat {:trigger PageAt(d, block, pages, k)} :: PageAt(d, block, pages, k)
    ensures MapStored(d, block + i, Slices(list, i))
    decreases |pages| - i
  {
    assert PageAt(d, block, pages, i) && HoldsRecs(pages[i], Slice(list, i));
    PageCase(list, i);
    var l := Slices(list, i);
    if |l| > EXTENT_BLOCK {
      PagesStored(list, block, d, pages, i + 1);
      assert MapStored(d, block + i + 1, l[EXTENT_BLOCK..]);
    }
  }

  lemma {:induction false} PageCase(list: seq<Extent>, i: nat)
    requires i < MapBlocks(|list|)
    ensures |Slices(list, i)| <= EXTENT_BLOCK ==> Slice(list, i) == Slices(list, i) && i == MapBlocks(|list|) - 1
    ensures |Slices(list, i)| > EXTENT_BLOCK ==> && Slice(list, i) == Slices(list, i)[..EXTENT_BLOCK]
                                                 && Slices(list, i)[EXTENT_BLOCK..] == Slices(list, i + 1)
                                                 && i + 1 < MapBlocks(|list|)
  {
  }

  // ----- Reading -----

  /** Blocks in the chain of a list of `n` extents. */
  function ChainLength(n: nat): nat {
    if n <= EXTENT_BLOCK then 1 else 1 + ChainLength(n - EXTENT_BLOCK)
  }

  lemma {:induction false} ChainIsMap(n: nat)
    requires n > 0
    ensures ChainLength(n) == MapBlocks(n)
  {
    if n > EXTENT_BLOCK {
      ChainIsMap(n - EXTENT_BLOCK);
    }
  }

  /** The inner loop of `lc_readExtents`: adds the records of one block, the first `n` extents of `rest`. */
  method ReadBlock(recs: seq<DExtent>, list: seq<Extent>, ghost rest: seq<Extent>, ghost n: nat)
    returns (r: seq<Extent>, count: nat)
    requires n <= |rest| && HoldsRecs(recs, rest[..n]) && Canonical(rest) && 0 !in Keys(rest)
    requires Canonical(list) && Keys(list) !! Keys(rest)
    ensures Canonical(r) && Keys(r) + Keys(rest[n..]) == Keys(list) + Keys(rest) && Keys(r) !! Keys(rest[n..])
    ensures count + Total(rest[n..]) == Total(rest) && Canonical(rest[n..]) && 0 !in Keys(rest[n..])
  {
    r, count := list, 0;
    var i := 0;
    ghost var left := rest;
    assert forall j :: 0 <= j < n ==> recs[j] == Rec(rest[..n][j]) == Rec(rest[j]);
    while i < EXTENT_BLOCK && recs[i].start != 0 && recs[i].count != 0
      invariant i <= n && left == rest[i..]
      invariant Canonical(left) && Canonical(r) && Keys(r) !! Keys(left) && 0 !in Keys(left)
      invariant Keys(r) + Keys(left) == Keys(list) + Keys(rest)
      invariant count + Total(left) == Total(rest)
    {
      assert i < n;
      HeadApart(left);
      Shift(Keys(r), Range(left[0].start, left[0].count), Keys(left[1..]));
      r := AddSpaceExtent(r, recs[i].start, recs[i].count, true);
      count := count + recs[i].count;
      left := left[1..];
      i := i + 1;
    }
    if i < n {
      assert false;
    }
  }

  lemma {:induction false} HeadApart(l: seq<Extent>)
    requires Canonical(l) && l != []
    ensures Range(l[0].start, l[0].count) !! Keys(l[1..])
  {
    CanonicalApart(l);
  }

  /** `lc_readExtents` for a map that is in place: rebuilds the list and counts its blocks. */
  method ReadExtents(disk: Disk, start: nat, ghost stored: seq<Extent>)
      returns (list: seq<Extent>, count: nat, ecount: nat)
    requires MapStored(disk, start, stored) && Canonical(stored) && 0 !in Keys(stored)
    requires start + ChainLength(|stored|) <= INVALID_BLOCK
    ensures list == stored && count == Total(stored) && ecount == ChainLength(|stored|)
  {
    list, count, ecount := [], 0, 0;
    var block: nat := start;
    ghost var rest := stored;
    while block != INVALID_BLOCK
      invariant block == INVALID_BLOCK ==> rest == [] && ecount == ChainLength(|stored|)
      invariant block != INVALID_BLOCK ==>
                && MapStored(disk, block, rest) && block + ChainLength(|rest|) <= INVALID_BLOCK
                                           && ecount + ChainLength(|rest|) == ChainLength(|stored|)
      invariant Canonical(list) && Canonical(rest) && Keys(list) + Keys(rest) == Keys(stored)
      invariant Keys(list) !! Keys(rest)
      invariant 0 !in Keys(rest) && count + Total(rest) == Total(stored)
      decreases |rest| + if block == INVALID_BLOCK then 0 else 1
    {
      ghost var n := if |rest| <= EXTENT_BLOCK then |rest| else EXTENT_BLOCK;
      assert |rest| <= EXTENT_BLOCK ==> rest[..n] == rest;
      var c;
      list, c := ReadBlock(disk[block].recs, list, rest, n);
      count := count + c;
      block := disk[block].next;
      ecount := ecount + 1;
      rest := rest[n..];
    }
    CanonicalUnique(list, stored);
  }

  // ----- How many blocks the free map takes -----

  /** Block `b` begins a run of blocks of `s`. */
  predicate Begins(s: set<nat>, b: nat) {
    b in s && (b == 0 || b - 1 !in s)
  }

  function Starts(s: set<nat>): set<nat> {
    set b | b in s && Begins(s, b)
  }

  /** A coalesced list has one extent for each run of blocks. */
  lemma {:induction false} StartsOfList(l: seq<Extent>)
    requires Canonical(l)
    ensures |Starts(Keys(l))| == |l|
  {
    if l == [] {
      assert Starts(Keys(l)) == {};
    } else {
      StartsOfList(l[1..]);
      StartsHead(l);
    }
  }

  lemma {:induction false} StartsHead(l: seq<Extent>)
    requires Canonical(l) && l != []
    ensures Starts(Keys(l)) == {l[0].start} + Starts(Keys(l[1..])) && l[0].start !in Starts(Keys(l[1..]))
  {
    CanonicalIs(l);
    KeysBeyond(l[1..], l[0].End() + 1);
    forall b: nat ensures b in Starts(Keys(l)) <==> b == l[0].start || b in Starts(Keys(l[1..])) {
    }
  }

  /** Block `x` is next to a block of `s`. */
  predicate Beside(x: nat, s: set<nat>) {
    (x > 0 && x - 1 in s) || x + 1 in s
  }

  /** No block of one set is next to a block of the other. */
  ghost predicate NoTouch(a: set<nat>, b: set<nat>) {
    forall x {:trigger Beside(x, b)} :: x in a ==> !Beside(x, b)
  }

  lemma StartsUnion(a: set<nat>, b: set<nat>)
    requires a !! b && 0 !in a && 0 !in b
    ensures |Starts(a + b)| <= |Starts(a)| + |Starts(b)|
    ensures |Starts(a + b)| == |Starts(a)| + |Starts(b)| <==> NoTouch(a, b)
  {
    var u := Starts(a) + Starts(b);
    assert Starts(a) !! Starts(b);
    assert |u| == |Starts(a)| + |Starts(b)|;
    assert Starts(a + b) <= u;
    if NoTouch(a, b) {
      assert Starts(a + b) == u by {
        forall x | x in u ensures x in Starts(a + b) {
          assert x in a ==> !Beside(x, b);
          assert x - 1 in a ==> !Beside(x - 1, b);
        }
      }
    } else {
      var x :| x in a && Beside(x, b);
      var y := if x - 1 in b then x else x + 1;
      assert y in u && y !in Starts(a + b);
      ProperSubsetSize(Starts(a + b), u, y);
    }
    SubsetSize(Starts(a + b), u);
  }

  lemma ProperSubsetSize(a: set<nat>, b: set<nat>, y: nat)
    requires a <= b && y in b && y !in a
    ensures |a| < |b|
  {
    SubsetSize(a + {y}, b);
  }

  /** Taking blocks off the front of a run leaves as many runs, unless it takes the whole run. */
  lemma StartsTake(s: set<nat>, b: nat, n: nat)
    requires n > 0 && b > 0 && b - 1 !in s && Range(b, n) <= s
    ensures |Starts(s - Range(b, n))| == |Starts(s)| - (if b + n in s then 0 else 1)
  {
    var r := s - Range(b, n);
    assert b in Range(b, n) && b + n - 1 in Range(b, n);
    forall x: nat ensures Begins(r, x) <==> if x == b + n then b + n in s else x != b && Begins(s, x) {
      BeginsTake(s, b, n, x);
    }
    assert b in Starts(s) && b + n !in Starts(s);
    if b + n in s {
      assert Starts(r) == (Starts(s) - {b}) + {b + n};
    } else {
      assert Starts(r) == Starts(s) - {b};
    }
  }

  lemma BeginsTake(s: set<nat>, b: nat, n: nat, x: nat)
    requires n > 0 && b > 0 && b - 1 !in s && Range(b, n) <= s
    ensures Begins(s - Range(b, n), x) <==> if x == b + n then b + n in s else x != b && Begins(s, x)
  {
    assert b + n - 1 in Range(b, n);
    if b < x < b + n {
      assert x - 1 in Range(b, n);
    }
  }

  /** Nothing merges when `need` blocks at `block` leave the free list and the previous map and the pending
      blocks are added: the extent that gave the blocks remains, the previous map is an extent of its own,
      and no extent touches another. */
  ghost predicate Separate(g: Lists, block: nat, need: nat) {
    && block + need in Keys(g.extents) && g.mapCount > 0
    && NoTouch(Range(g.mapBlock, g.mapCount), Keys(g.fextents))
    && NoTouch(Keys(g.extents) - Range(block, need), Keys(g.fextents) + Range(g.mapBlock, g.mapCount))
  }

  /** `pool` is the free list after `need` blocks at `block` left it and all else that is free came in. */
  ghost predicate Merged(g: Lists, block: nat, need: nat, pool: seq<Extent>) {
    && Canonical(g.extents) && Canonical(g.fextents) && Keys(g.extents) !! Keys(g.fextents)
    && Range(g.mapBlock, g.mapCount) !! Keys(g.extents) && Range(g.mapBlock, g.mapCount) !! Keys(g.fextents)
    && 0 !in Keys(g.extents) && 0 !in Keys(g.fextents) && (g.mapCount > 0 ==> g.mapBlock > 0)
    && need > 0 && block > 0 && block - 1 !in Keys(g.extents)
    && Range(block, need) <= Keys(g.extents) && Canonical(pool)
    && Keys(pool) == (Keys(g.extents) - Range(block, need)) + (Keys(g.fextents) + Range(g.mapBlock, g.mapCount))
  }

  /** The free map of the next checkpoint will not fit: every record of the blocks set aside for it is counted on, and
      nothing merges. */
  ghost predicate Overflows(g: Lists) {
    (|g.extents| + |g.fextents|) % EXTENT_BLOCK == 0 && Separate(g, FirstFit(g.extents, MapNeed(g)), MapNeed(g))
  }

  /** The merged free list has at most one extent more than was counted, and fits the blocks set aside for it with
      exactly one exception. */
  lemma FreeMapFits(g: Lists, block: nat, pool: seq<Extent>)
    requires Merged(g, block, MapNeed(g), pool) && block == FirstFit(g.extents, MapNeed(g))
    ensures |pool| <= |g.extents| + |g.fextents| + 1
    ensures MapBlocks(|pool|) <= MapNeed(g) <==> !Overflows(g)
  {
    PoolLength(g, block, MapNeed(g), pool);
    CountFits(|g.extents| + |g.fextents|, |pool|, Separate(g, block, MapNeed(g)));
  }

  /** In the exception the map takes one block more, and that block is on the free list that the map describes. */
  lemma OverflowBlock(g: Lists, block: nat, pool: seq<Extent>)
    requires Merged(g, block, MapNeed(g), pool) && block == FirstFit(g.extents, MapNeed(g)) && Overflows(g)
    ensures MapBlocks(|pool|) == MapNeed(g) + 1 && block + MapNeed(g) in Keys(pool)
  {
    NextIsFree(g, block, MapNeed(g), pool);
    OverflowLength(g, block, pool);
  }

  lemma OverflowLength(g: Lists, block: nat, pool: seq<Extent>)
    requires Merged(g, block, MapNeed(g), pool) && Separate(g, block, MapNeed(g))
    requires (|g.extents| + |g.fextents|) % EXTENT_BLOCK == 0
    ensures MapBlocks(|pool|) == MapNeed(g) + 1
  {
    PoolLength(g, block, MapNeed(g), pool);
    OneBlockMore(|g.extents| + |g.fextents|);
  }

  lemma OneBlockMore(count: nat)
    requires count % EXTENT_BLOCK == 0
    ensures MapBlocks(count + 1) == MapBlocks(count) + 1
  {
  }

  lemma NextIsFree(g: Lists, block: nat, need: nat, pool: seq<Extent>)
    requires Merged(g, block, need, pool) && Separate(g, block, need)
    ensures block + need in Keys(pool)
  {
    assert block + need !in Range(block, need);
  }

  lemma PoolLength(g: Lists, block: nat, need: nat, pool: seq<Extent>)
    requires Merged(g, block, need, pool)
    ensures |g.extents| > 0 && |pool| <= |g.extents| + |g.fextents| + 1
    ensures |pool| == |g.extents| + |g.fextents| + 1 <==> Separate(g, block, need)
  {
    StartsOfList(g.extents);
    StartsOfList(g.fextents);
    StartsOfList(pool);
    PoolRuns(Keys(g.extents), Keys(g.fextents), block, need, g.mapBlock, g.mapCount);
    assert block in Range(block, need);
  }

  /** Runs of blocks after `n` blocks left the front of a run of `e` and those at `m` and in `f` came in. */
  lemma PoolRuns(e: set<nat>, f: set<nat>, block: nat, n: nat, m: nat, c: nat)
    requires e !! f && Range(m, c) !! e && Range(m, c) !! f && 0 !in e && 0 !in f && (c > 0 ==> m > 0)
    requires n > 0 && block > 0 && block - 1 !in e && Range(block, n) <= e
    ensures var pool := Starts((e - Range(block, n)) + (f + Range(m, c)));
            && |pool| <= |Starts(e)| + |Starts(f)| + 1
            && (|pool| == |Starts(e)| + |Starts(f)| + 1 <==>
                  && block + n in e && c > 0 && NoTouch(Range(m, c), f)
                  && NoTouch(e - Range(block, n), f + Range(m, c)))
  {
    StartsTake(e, block, n);
    MapStarts(f, m, c);
    StartsUnion(e - Range(block, n), f + Range(m, c));
  }

  lemma MapStarts(f: set<nat>, b: nat, n: nat)
    requires Range(b, n) !! f && 0 !in f && (n > 0 ==> b > 0)
    ensures |Starts(f + Range(b, n))| <= |Starts(f)| + (if n > 0 then 1 else 0)
    ensures |Starts(f + Range(b, n))| == |Starts(f)| + 1 <==> n > 0 && NoTouch(Range(b, n), f)
  {
    if n == 0 {
      assert f + Range(b, n) == f;
    } else {
      assert Starts(Range(b, n)) == {b};
      StartsUnion(Range(b, n), f);
      assert Range(b, n) + f == f + Range(b, n);
    }
  }

  lemma CountFits(count: nat, n: nat, more: bool)
    requires count > 0 && n <= count + 1 && (n == count + 1 <==> more)
    ensures MapBlocks(n) <= MapBlocks(count) <==> !(count % EXTENT_BLOCK == 0 && more)
  {
  }

  /** `n` extents of two blocks, ten blocks apart. */
  function Pairs(n: nat): seq<Extent> {
    seq(n, i requires 0 <= i => Extent(10 * (i + 1), 0, 2))
  }

  lemma PairsAre(n: nat)
    ensures Canonical(Pairs(n))
    ensures forall b: nat {:trigger b in Keys(Pairs(n))} :: b in Keys(Pairs(n)) <==>
              10 <= b < 10 * (n + 1) && b % 10 < 2
  {
    var e := Pairs(n);
    CanonicalIs(e);
    forall b: nat ensures b in Keys(e) <==> 10 <= b < 10 * (n + 1) && b % 10 < 2 {
      if b in Keys(e) {
        var i := KeyIndex(e, b);
        assert b == e[i].start || b == e[i].start + 1;
      }
      if 10 <= b < 10 * (n + 1) && b % 10 < 2 {
        IndexKey(e, b / 10 - 1, b);
      }
    }
  }

  /** The exception happens: 255 free extents of two blocks, nothing pending, and a previous map of one block that
      touches none of them; all other blocks belong to the root layer. */
  lemma OverflowExample() returns (g: Lists, owner: map<nat, Owner>)
    ensures Agree(g, owner, |g.layers|) && CanPublish(g) && Overflows(g)
  {
    var e := Pairs(255);
    PairsAre(255);
    owner := RootOwns(10000, Keys(e));
    g := Lists(10000, e, [], [Some(Layer([], [], [], 0))], 5, 1);
    RootOnlyAgrees(g);
    PairsOverflow(g, 255);
  }

  /** The given blocks are free and all others belong to the root layer. */
  function RootOwns(total: nat, free: set<nat>): map<nat, Owner>
    requires total >= START_BLOCK
  {
    map b | b in Device(total) :: if b in free then Free else Alloc(ROOT)
  }

  lemma PairsOverflow(g: Lists, n: nat)
    requires n == 255 && g.extents == Pairs(n) && g.fextents == [] && g.mapBlock == 5 && g.mapCount == 1
    ensures CanPublish(g) && Overflows(g)
  {
    PairsAre(n);
    var e := g.extents;
    assert e[0] in e && e[0].count >= MapNeed(g) == 1 && FirstFit(e, 1) == 10;
    assert Range(5, 1) == {5} && Range(10, 1) == {10} && 11 in Keys(e);
  }

  lemma RootOnlyAgrees(g: Lists)
    requires START_BLOCK <= g.tblocks < INVALID_BLOCK && Canonical(g.extents) && Keys(g.extents) <= Device(g.tblocks)
    requires g.fextents == [] && g.layers == [Some(Layer([], [], [], 0))]
    requires Range(g.mapBlock, g.mapCount) <= Device(g.tblocks) - Keys(g.extents)
    ensures Agree(g, RootOwns(g.tblocks, Keys(g.extents)), 1)
  {
    var owner := RootOwns(g.tblocks, Keys(g.extents));
    assert Owned(owner, Free) == Keys(g.extents) && Owned(owner, Pending) == {} && Owned(owner, Reserve(ROOT)) == {};
    assert owner.Keys == Device(g.tblocks);
    assert PoolsOk(owner, g.extents, g.fextents);
    assert LayerOk(owner, ROOT, g.layers[0].value);
    assert OwnersOk(g, owner) && MapOk(g, owner);
    AgreeIs(g, owner, 1);
  }
}
