/**
  * Block maps of files (lcfs/emap.c): which block holds each page of a file. A file has either one
  * extent that starts at page zero, or a sorted list of EMAP extents.
  */
module Emap {
  import opened Extents

  /** The block map of an inode: `i_emap`, `i_extentBlock`, `i_extentLength` and `di_blocks`. */
  datatype BlockMap = BlockMap(list: seq<Extent>, block: nat, length: nat, blocks: nat) {
    /** One form is in use at a time, and `di_blocks` counts the mapped pages. */
    predicate Valid() {
      && EmapList(list)
      && (length > 0 ==> list == [] && block > 0)
      && blocks == length + Total(list)
    }

    /** The block of page `p`. */
    function At(p: nat): int {
      if p < length then block + p else Lookup(list, p)
    }
  }

  /** No two pages share a block. */
  ghost predicate Injective(m: BlockMap) {
    forall p: nat, q: nat {:trigger m.At(p), m.At(q)} :: m.At(p) >= 0 && m.At(p) == m.At(q) ==> p == q
  }

  /** The pages that have a block. */
  ghost function Mapped(m: BlockMap): set<nat> {
    Range(0, m.length) + Keys(m.list)
  }

  /** `di_blocks` is the number of mapped pages. */
  lemma MappedIs(m: BlockMap)
    requires m.Valid()
    ensures |Mapped(m)| == m.blocks && forall p: nat {:trigger p in Mapped(m)} :: p in Mapped(m) <==> m.At(p) >= 0
  {
    EmapIs(m.list);
    TotalIsSize(m.list);
    RangeSize(0, m.length);
    if m.length > 0 {
      assert Mapped(m) == Range(0, m.length);
    } else {
      assert Mapped(m) == Keys(m.list);
    }
    forall p: nat ensures p in Mapped(m) <==> m.At(p) >= 0 {
      LookupHole(m.list, p);
    }
  }

  /** The blocks of pages start, ..., start + n - 1 that have one. */
  ghost function BlocksOf(l: seq<Extent>, start: nat, n: nat): set<nat> {
    if n == 0 then {} else BlocksOf(l, start, n - 1) + BlockSet(Lookup(l, start + n - 1))
  }

  ghost function BlockSet(b: int): set<nat> {
    if b < 0 then {} else {b}
  }

  lemma {:induction false} BlocksOfSplit(l: seq<Extent>, start: nat, n: nat, m: nat)
    ensures BlocksOf(l, start, n + m) == BlocksOf(l, start, n) + BlocksOf(l, start + n, m)
    decreases m
  {
    if m > 0 {
      BlocksOfSplit(l, start, n, m - 1);
      assert n + m - 1 == n + (m - 1) && start + (n + m) - 1 == start + n + m - 1;
    }
  }

  lemma {:induction false} BlocksOfRun(l: seq<Extent>, start: nat, n: nat, block: nat)
    requires forall p :: start <= p < start + n ==> Lookup(l, p) == block + (p - start)
    ensures BlocksOf(l, start, n) == Range(block, n)
    decreases n
  {
    if n > 0 {
      BlocksOfRun(l, start, n - 1, block);
      assert Range(block, n) == Range(block, n - 1) + {block + n - 1};
    }
  }

  lemma {:induction false} BlocksOfHoles(l: seq<Extent>, start: nat, n: nat)
    requires forall p :: start <= p < start + n ==> Lookup(l, p) == HOLE
    ensures BlocksOf(l, start, n) == {}
    decreases n
  {
    if n > 0 {
      BlocksOfHoles(l, start, n - 1);
    }
  }

  /** BlocksOf is what its name says. */
  lemma {:induction false} BlocksOfAre(l: seq<Extent>, start: nat, n: nat, b: nat)
    ensures b in BlocksOf(l, start, n) <==> exists p :: start <= p < start + n && Lookup(l, p) == b
    decreases n
  {
    if n > 0 {
      BlocksOfAre(l, start, n - 1, b);
      assert Lookup(l, start + n - 1) == b ==> b in BlockSet(Lookup(l, start + n - 1));
    }
  }

  // ----- Lookup with a cursor -----

  /** A cursor at index `k` has passed no extent that a page from `page` on could be in. */
  predicate Passed(l: seq<Extent>, k: nat, page: nat) {
    k <= |l| && (k > 0 ==> l[k - 1].End() <= page)
  }

  lemma {:induction false} PassedAll(l: seq<Extent>, page: nat)
    requires EmapList(l) && Passed(l, |l|, page)
    ensures forall p :: page <= p ==> Lookup(l, p) == HOLE
  {
    EmapIs(l);
    forall p | page <= p ensures Lookup(l, p) == HOLE {
      NotFound(l, |l|, p);
      LookupHole(l, p);
    }
  }

  /** `lc_inodeEmapExtentLookup`: the walk resumes at the cursor and finds what a walk of the whole list finds. */
  method LookupFrom(l: seq<Extent>, page: nat, cursor: nat) returns (b: int, k: nat)
    requires EmapList(l) && Passed(l, cursor, page)
    ensures b == Lookup(l, page)
    ensures cursor <= k && Passed(l, k, page)
    ensures b != HOLE ==> k < |l| && l[k].start <= page < l[k].End() && b >= 0
  {
    EmapIs(l);
    k := cursor;
    while k < |l| && page >= l[k].End()
      invariant cursor <= k && Passed(l, k, page)
    {
      k := k + 1;
    }
    if k < |l| && l[k].start <= page < l[k].End() {
      b := l[k].block + (page - l[k].start);
      LookupAt(l, k, page);
    } else {
      b := HOLE;
      NotFound(l, k, page);
      LookupHole(l, page);
    }
  }

  // ----- Updating the list -----

  /** `lc_addEmapExtent`: adds pages the list does not have, in extents small enough for a 16-bit count. */
  method AddEmapExtent(l: seq<Extent>, page: nat, block: nat, count: nat) returns (r: seq<Extent>)
    requires EmapList(l) && block > 0
    requires forall p: nat :: Within(p, page, count) ==> Lookup(l, p) == HOLE
    ensures EmapList(r) && Total(r) == Total(l) + count
    ensures forall p: nat :: Lookup(r, p) == if Within(p, page, count) then block + (p - page) else Lookup(l, p)
  {
    r := l;
    var done := 0;
    while done < count
      invariant done <= count && EmapList(r) && Total(r) == Total(l) + done
      invariant forall p: nat :: Lookup(r, p) == if Within(p, page, done) then block + (p - page) else Lookup(l, p)
    {
      var n := if count - done > EMAP_MAX then EMAP_MAX else count - done;
      HolesApart(r, page + done, n);
      r := AddExtent(r, page + done, block + done, n, true);
      done := done + n;
    }
  }

  lemma {:induction false} HolesApart(l: seq<Extent>, page: nat, n: nat)
    requires forall p: nat :: Within(p, page, n) ==> Lookup(l, p) == HOLE
    ensures Range(page, n) !! Keys(l)
  {
    forall p | p in Range(page, n) ensures p !in Keys(l) {
      LookupHole(l, p);
    }
  }

  /** Pages start, ..., start + n - 1 of `l` are holes in `r`, and nothing else changed. */
  ghost predicate Punched(l: seq<Extent>, start: nat, n: nat, r: seq<Extent>) {
    forall p: nat {:trigger Lookup(r, p)} :: Lookup(r, p) == if Within(p, start, n) then HOLE else Lookup(l, p)
  }

  lemma PunchedMore(l: seq<Extent>, start: nat, n: nat, m: nat, a: seq<Extent>, b: seq<Extent>)
    requires Punched(l, start, n, a) && Punched(a, start + n, m, b)
    ensures Punched(l, start, n + m, b)
  {
  }

  /** `lc_removeExtent` on a block map. */
  method RemoveMapped(l: seq<Extent>, page: nat, count: nat) returns (r: seq<Extent>, n: nat)
    requires EmapList(l) && count > 0 && Lookup(l, page) != HOLE
    ensures 0 < n <= count
    ensures EmapList(r) && Punched(l, page, n, r) && Total(r) + n == Total(l)
  {
    LookupHole(l, page);
    r, n := RemoveExtent(l, page, count);
  }

  /** `lc_removeInodeExtents`: takes pages in consecutive blocks off the list and adds the blocks to
      the list of blocks to free. */
  method RemoveInodeExtents(l: seq<Extent>, page: nat, block: nat, count: nat, freed: seq<Extent>)
    returns (r: seq<Extent>, f: seq<Extent>)
    requires EmapList(l) && Loose(freed)
    requires Contiguous(l, page, count, block)
    ensures EmapList(r) && Punched(l, page, count, r) && Total(r) + count == Total(l)
    ensures Loose(f) && Keys(f) == Keys(freed) + Range(block, count) && Total(f) == Total(freed) + count
  {
    r, f := l, freed;
    var done := 0;
    while done < count
      invariant done <= count && EmapList(r) && Punched(l, page, done, r) && Total(r) + done == Total(l)
      invariant Loose(f) && Keys(f) == Keys(freed) + Range(block, done) && Total(f) == Total(freed) + done
    {
      assert Within(page + done, page, count);
      var r1, n := RemoveMapped(r, page + done, count - done);
      PunchedMore(l, page, done, n, r, r1);
      f := FreeMore(Keys(freed), f, block, done, n);
      r, done := r1, done + n;
    }
  }

  method FreeMore(ghost was: set<nat>, freed: seq<Extent>, block: nat, done: nat, n: nat) returns (f: seq<Extent>)
    requires Loose(freed) && Keys(freed) == was + Range(block, done) && n > 0
    ensures Loose(f) && Keys(f) == was + Range(block, done + n) && Total(f) == Total(freed) + n
  {
    f := AddSpaceExtent(freed, block + done, n, false);
    RangeExtends(block, done, n);
  }

  lemma RangeExtends(start: nat, n: nat, m: nat)
    ensures Range(start, n + m) == Range(start, n) + Range(start + n, m)
  {
  }

  /** What `lc_inodeEmapUpdate` makes of a list: pages start, ..., start + n - 1 go to consecutive
      blocks, or become holes, and all else stays. */
  ghost predicate Updated(l: seq<Extent>, start: nat, block: int, n: nat, r: seq<Extent>) {
    forall p: nat :: Lookup(r, p) == if !Within(p, start, n) then Lookup(l, p)
                                     else if block == HOLE then HOLE
                                     else block + (p - start)
  }

  /** The blocks of `was` and those of pages start, ..., start + n - 1. */
  ghost function Gathered(was: set<nat>, l: seq<Extent>, start: nat, n: nat): set<nat> {
    if n == 0 then was else Gathered(was, l, start, n - 1) + BlockSet(Lookup(l, start + n - 1))
  }

  lemma {:induction false} GatheredIs(was: set<nat>, l: seq<Extent>, start: nat, n: nat)
    ensures Gathered(was, l, start, n) == was + BlocksOf(l, start, n)
  {
    if n > 0 {
      GatheredIs(was, l, start, n - 1);
    }
  }

  /** Of the pages from `pstart` on, the first `n` are holes in `r` and their blocks are in `f`. */
  ghost predicate Progress(l: seq<Extent>, freed: seq<Extent>, pstart: nat, n: nat, r: seq<Extent>, f: seq<Extent>) {
    && EmapList(r) && Loose(f) && Punched(l, pstart, n, r)
    && Keys(f) == Gathered(Keys(freed), l, pstart, n)
    && Total(f) + Total(r) == Total(freed) + Total(l)
  }

  /** Pages start, ..., start + n - 1 of `l` are in consecutive blocks. */
  ghost predicate Contiguous(l: seq<Extent>, start: nat, n: nat, block: nat) {
    forall p: nat {:trigger Lookup(l, p)} :: Within(p, start, n) ==> Lookup(l, p) == block + (p - start)
  }

  lemma {:induction false} GatherRun(was: set<nat>, l: seq<Extent>, pstart: nat, n: nat, m: nat, blk: nat,
                                     r: seq<Extent>)
    requires Punched(l, pstart, n, r) && Contiguous(r, pstart + n, m, blk)
    ensures Gathered(was, l, pstart, n + m) == Gathered(was, l, pstart, n) + Range(blk, m)
  {
    GatheredIs(was, l, pstart, n + m);
    GatheredIs(was, l, pstart, n);
    forall p | pstart + n <= p < pstart + n + m ensures Lookup(l, p) == blk + (p - (pstart + n)) {
      assert Within(p, pstart + n, m) && Lookup(r, p) == Lookup(l, p);
    }
    BlocksOfRun(l, pstart + n, m, blk);
    BlocksOfSplit(l, pstart, n, m);
  }

  lemma {:induction false} GatherHoles(was: set<nat>, l: seq<Extent>, pstart: nat, n: nat, m: nat, r: seq<Extent>)
    requires Punched(l, pstart, n, r)
    requires forall p: nat :: Within(p, pstart + n, m) ==> Lookup(r, p) == HOLE
    ensures Gathered(was, l, pstart, n + m) == Gathered(was, l, pstart, n)
  {
    if m > 0 {
      assert Within(pstart + n + m - 1, pstart + n, m) && Lookup(r, pstart + n + m - 1) == HOLE;
      GatherHoles(was, l, pstart, n, m - 1, r);
      assert n + m - 1 == n + (m - 1);
    }
  }

  /** The run that ends with `page` goes on for the rest of the extent `page` is in. */
  lemma {:induction false} RunGrows(r: seq<Extent>, k: nat, pg: nat, n: nat, blk: nat, m: nat)
    requires EmapList(r) && Contiguous(r, pg, n, blk) && n > 0
    requires k < |r| && r[k].start <= pg + n - 1 && pg + n + m <= r[k].End()
    ensures Contiguous(r, pg, n + m, blk)
  {
    EmapIs(r);
    LookupAt(r, k, pg + n - 1);
    forall p: nat | Within(p, pg + n, m) ensures Lookup(r, p) == blk + (p - pg) {
      LookupAt(r, k, p);
    }
  }

  /** Takes the run of pages collected so far off the list. */
  method ReleaseRun(ghost l: seq<Extent>, ghost freed: seq<Extent>, ghost pstart: nat, r: seq<Extent>, f: seq<Extent>,
                    pg: nat, blk: nat, n: nat) returns (r': seq<Extent>, f': seq<Extent>)
    requires pstart <= pg && Progress(l, freed, pstart, pg - pstart, r, f) && Contiguous(r, pg, n, blk)
    ensures Progress(l, freed, pstart, pg - pstart + n, r', f') && Total(r') + n == Total(r)
    ensures Punched(r, pg, n, r')
  {
    r', f' := RemoveInodeExtents(r, pg, blk, n, f);
    PunchedMore(l, pstart, pg - pstart, n, r, r');
    GatherRun(Keys(freed), l, pstart, pg - pstart, n, blk, r);
  }

  lemma SkipHoles(l: seq<Extent>, freed: seq<Extent>, pstart: nat, n: nat, r: seq<Extent>, f: seq<Extent>, m: nat)
    requires Progress(l, freed, pstart, n, r, f)
    requires forall p: nat :: Within(p, pstart + n, m) ==> Lookup(r, p) == HOLE
    ensures Progress(l, freed, pstart, n + m, r, f)
  {
    GatherHoles(Keys(freed), l, pstart, n, m, r);
  }

  /** The state of the loop of `lc_inodeEmapUpdate` when it reaches `page`: `n` pages from `pg` on wait to
      be taken off the list, and all pages before them have been. */
  ghost predicate Clearing(l: seq<Extent>, freed: seq<Extent>, pstart: nat, page: nat, r: seq<Extent>, f: seq<Extent>,
                           pg: nat, blk: nat, n: nat)
    decreases n
  {
    if n == 0 then pstart <= page && Progress(l, freed, pstart, page - pstart, r, f)
    else pstart < page && pg + n == page && Lookup(r, page - 1) == blk + (n - 1)
         && Clearing(l, freed, pstart, page - 1, r, f, pg, blk, n - 1)
  }

  /** The same, said at once. */
  ghost predicate ClearingRun(l: seq<Extent>, freed: seq<Extent>, pstart: nat, page: nat, r: seq<Extent>,
                              f: seq<Extent>, pg: nat, blk: nat, n: nat)
  {
    && pstart + n <= page && Progress(l, freed, pstart, page - n - pstart, r, f)
    && (n > 0 ==> pg + n == page && Contiguous(r, pg, n, blk))
  }

  lemma {:induction false} ClearingIs(l: seq<Extent>, freed: seq<Extent>, pstart: nat, page: nat, r: seq<Extent>,
                                      f: seq<Extent>, pg: nat, blk: nat, n: nat)
    ensures Clearing(l, freed, pstart, page, r, f, pg, blk, n) <==>
            ClearingRun(l, freed, pstart, page, r, f, pg, blk, n)
    ensures Clearing(l, freed, pstart, page, r, f, pg, blk, n) ==> EmapList(r) && pstart <= page
    decreases n
  {
    if n > 0 && page > 0 {
      ClearingIs(l, freed, pstart, page - 1, r, f, pg, blk, n - 1);
    }
  }

  /** A page with a block joins the run, or ends it and starts the next. */
  method ClearMapped(ghost l: seq<Extent>, ghost freed: seq<Extent>, ghost pstart: nat, page: nat, b: nat,
                     r: seq<Extent>, f: seq<Extent>, pg: nat, blk: nat, n: nat)
    returns (r': seq<Extent>, f': seq<Extent>, pg': nat, blk': nat, n': nat, released: bool)
    requires Clearing(l, freed, pstart, page, r, f, pg, blk, n) && Lookup(r, page) == b
    ensures Clearing(l, freed, pstart, page + 1, r', f', pg', blk', n') && n' > 0
    ensures Total(r) + n' == Total(r') + n + 1
    ensures !released ==> r' == r
  {
    ClearingIs(l, freed, pstart, page, r, f, pg, blk, n);
    r', f', pg', blk', n', released := r, f, pg, blk, n, false;
    if n == 0 {
      pg', blk' := page, b;
    }
    if blk' + n != b {
      r', f' := ReleaseRun(l, freed, pstart, r, f, pg, blk, n);
      pg', blk', n', released := page, b, 1, true;
    } else {
      n' := n + 1;
    }
    ClearingIs(l, freed, pstart, page + 1, r', f', pg', blk', n');
  }

  /** A page with a block, and as many more pages of its extent as are asked for. */
  method ClearExtent(ghost l: seq<Extent>, ghost freed: seq<Extent>, ghost pstart: nat, page: nat, count: nat, b: nat,
                     r: seq<Extent>, f: seq<Extent>, pg: nat, blk: nat, n: nat, k: nat)
    returns (r': seq<Extent>, f': seq<Extent>, pg': nat, blk': nat, n': nat, k': nat, m: nat)
    requires Clearing(l, freed, pstart, page, r, f, pg, blk, n) && Lookup(r, page) == b && count > 0
    requires Passed(r, k, page)
    ensures 0 < m <= count
    ensures Clearing(l, freed, pstart, page + m, r', f', pg', blk', n') && Passed(r', k', page + m)
    ensures Total(r) + n' == Total(r') + n + m
  {
    var released;
    r', f', pg', blk', n', released := ClearMapped(l, freed, pstart, page, b, r, f, pg, blk, n);
    k', m := if released then 0 else k, 1;
    if k' < |r'| && count > 1 && r'[k'].start <= page < r'[k'].End() {
      m := if r'[k'].End() - page > count then count else r'[k'].End() - page;
      ClearingIs(l, freed, pstart, page + 1, r', f', pg', blk', n');
      RunGrows(r', k', pg', n', blk', m - 1);
      n' := n' + m - 1;
    }
    ClearingIs(l, freed, pstart, page + m, r', f', pg', blk', n');
  }

  /** A page without a block ends the run. */
  method ClearHole(ghost l: seq<Extent>, ghost freed: seq<Extent>, ghost pstart: nat, page: nat, r: seq<Extent>,
                   f: seq<Extent>, pg: nat, blk: nat, n: nat)
    returns (r': seq<Extent>, f': seq<Extent>)
    requires Clearing(l, freed, pstart, page, r, f, pg, blk, n) && Lookup(r, page) == HOLE
    ensures Clearing(l, freed, pstart, page + 1, r', f', pg, blk, 0)
    ensures Total(r) == Total(r') + n
    ensures n == 0 ==> r' == r
  {
    ClearingIs(l, freed, pstart, page, r, f, pg, blk, n);
    r', f' := r, f;
    if n > 0 {
      r', f' := ReleaseRun(l, freed, pstart, r, f, pg, blk, n);
    }
    SkipHoles(l, freed, pstart, page - pstart, r', f', 1);
  }

  /** No page from `page` on has a block. */
  method ClearRest(ghost l: seq<Extent>, ghost freed: seq<Extent>, ghost pstart: nat, page: nat, ghost count: nat,
                   r: seq<Extent>, f: seq<Extent>, pg: nat, blk: nat, n: nat)
    returns (r': seq<Extent>, f': seq<Extent>)
    requires Clearing(l, freed, pstart, page, r, f, pg, blk, n)
    requires count > 0 ==> Passed(r, |r|, page)
    ensures Progress(l, freed, pstart, page + count - pstart, r', f')
    ensures Total(r) == Total(r') + n
  {
    ClearingIs(l, freed, pstart, page, r, f, pg, blk, n);
    r', f' := r, f;
    if n > 0 {
      r', f' := ReleaseRun(l, freed, pstart, r, f, pg, blk, n);
    }
    if count > 0 {
      PassedAll(r, page);
    }
    SkipHoles(l, freed, pstart, page - pstart, r', f', count);
  }

  /** The loop of `lc_inodeEmapUpdate`: takes the pages off the list, run by run, and counts the pages
      that had no block unless a hole is punched. */
  method ClearPages(l: seq<Extent>, blocks: nat, pstart: nat, pcount: nat, punch: bool, freed: seq<Extent>)
    returns (r: seq<Extent>, sum: int, f: seq<Extent>)
    requires EmapList(l) && Loose(freed) && blocks == Total(l) && (punch ==> pcount == 1)
    ensures Progress(l, freed, pstart, pcount, r, f)
    ensures sum == Total(r) + if punch then 0 else pcount
  {
    r, sum, f := l, blocks, freed;
    var page, count: nat, k := pstart, pcount, 0;
    var pg: nat, blk: nat, bcount: nat := pstart, 0, 0;
    while count > 0
      invariant page + count == pstart + pcount
      invariant Clearing(l, freed, pstart, page, r, f, pg, blk, bcount)
      invariant Passed(r, k, page)
      invariant sum + bcount == Total(r) + if punch then 0 else page - pstart
      decreases count
    {
      if k == |r| {
        if !punch {
          sum := sum + count;
        }
        break;
      }
      ClearingIs(l, freed, pstart, page, r, f, pg, blk, bcount);
      var b;
      b, k := LookupFrom(r, page, k);
      if b != HOLE {
        var m;
        r, f, pg, blk, bcount, k, m := ClearExtent(l, freed, pstart, page, count, b, r, f, pg, blk, bcount, k);
        if punch {
          sum := sum - 1;
        }
        page, count := page + m, count - m;
      } else {
        var r1, f1 := ClearHole(l, freed, pstart, page, r, f, pg, blk, bcount);
        if bcount > 0 {
          k := 0;
        }
        r, f, bcount := r1, f1, 0;
        if !punch {
          sum := sum + 1;
        }
        page, count := page + 1, count - 1;
      }
    }
    r, f := ClearRest(l, freed, pstart, page, count, r, f, pg, blk, bcount);
  }

  /** `lc_inodeEmapUpdate`. The blocks the pages had, and no others, are added to the list of blocks
      to free; the count of mapped pages follows. */
  method EmapUpdate(l: seq<Extent>, blocks: nat, pstart: nat, bstart: int, pcount: nat, freed: seq<Extent>)
    returns (r: seq<Extent>, total: nat, f: seq<Extent>)
    requires EmapList(l) && Loose(freed) && blocks == Total(l)
    requires pcount > 0 && (bstart == HOLE || bstart > 0) && (bstart == HOLE ==> pcount == 1)
    ensures EmapList(r) && Updated(l, pstart, bstart, pcount, r)
    ensures total == Total(r)
    ensures Loose(f) && Keys(f) == Keys(freed) + BlocksOf(l, pstart, pcount)
    ensures Total(f) + total == Total(freed) + blocks + if bstart == HOLE then 0 else pcount
  {
    var sum;
    r, sum, f := ClearPages(l, blocks, pstart, pcount, bstart == HOLE, freed);
    GatheredIs(Keys(freed), l, pstart, pcount);
    if bstart != HOLE {
      r := AddEmapExtent(r, pstart, bstart, pcount);
    }
    total := sum;
  }

  /** `lc_expandEmap`: the single extent becomes a list and every page keeps its block. */
  method ExpandEmap(m: BlockMap) returns (r: BlockMap)
    requires m.Valid() && m.length > 0
    ensures r.Valid() && r.length == 0 && r.blocks == m.blocks
    ensures forall p: nat :: r.At(p) == m.At(p)
  {
    var l := AddEmapExtent(m.list, 0, m.block, m.length);
    r := BlockMap(l, 0, 0, m.blocks);
  }

  /** `lc_copyEmap`: extent by extent, at the end of the new list. */
  method CopyEmap(l: seq<Extent>) returns (r: seq<Extent>)
    requires EmapList(l)
    ensures r == l
  {
    r := [];
    var i := 0;
    EmapIs(l);
    while i < |l|
      invariant i <= |l| && r == l[..i]
    {
      var tail := AddExtent([], l[i].start, l[i].block, l[i].count, true);
      SameExtent(tail, l[i]);
      r := r + tail;
      i := i + 1;
    }
  }

  lemma {:induction false} SameExtent(l: seq<Extent>, e: Extent)
    requires EmapList(l) && |l| <= 1 && e.block > 0 && e.count > 0 && Added([], e, l)
    ensures l == [e]
  {
    assert Lookup(l, e.start) == e.block && Lookup(l, e.End() - 1) == e.At(e.End() - 1);
    assert l != [] && l == [l[0]];
    One(l[0]);
    assert Lookup([l[0]], l[0].start) == l[0].block;
    assert Lookup(l, l[0].End() - 1) == l[0].At(l[0].End() - 1);
  }

  // ----- Truncation -----

  /** Number of pages of a file of `size` bytes. */
  function PageCount(size: nat): nat {
    (size + 4095) / 4096
  }

  /** How many pages of an extent are before `cut`. */
  function KeptPages(e: Extent, cut: nat): nat {
    if cut <= e.start then 0 else if cut < e.End() then cut - e.start else e.count
  }

  /** The blocks of the pages of `l` from `cut` on. */
  ghost function BlocksFrom(l: seq<Extent>, cut: nat): set<nat> {
    if l == [] then {}
    else BlocksFrom(l[..|l| - 1], cut) +
         Range(l[|l| - 1].block + KeptPages(l[|l| - 1], cut), l[|l| - 1].count - KeptPages(l[|l| - 1], cut))
  }

  lemma {:induction false} EmapAppend(l: seq<Extent>, e: Extent)
    requires EmapList(l) && e.block > 0 && 0 < e.count <= EMAP_MAX
    requires l != [] ==> l[|l| - 1].End() <= e.start
    ensures EmapList(l + [e]) && Total(l + [e]) == Total(l) + e.count
    ensures forall p: nat {:trigger Lookup(l + [e], p)} ::
              Lookup(l + [e], p) == if Within(p, e.start, e.count) then e.At(p) else Lookup(l, p)
    ensures forall p: nat {:trigger Lookup(l, p)} :: e.start <= p ==> Lookup(l, p) == HOLE
  {
    EmapIs(l);
    EmapIs([e]);
    EmapConcat(l, [e]);
    EmapIs(l + [e]);
    TotalConcat(l, [e]);
    One(e);
    KeysBelow(l, e.start);
    forall p: nat ensures Lookup(l + [e], p) == if Within(p, e.start, e.count) then e.At(p) else Lookup(l, p) {
      LookupConcat(l, [e], p);
      LookupHole(l, p);
    }
    forall p: nat | e.start <= p ensures Lookup(l, p) == HOLE {
      LookupHole(l, p);
    }
  }

  lemma {:induction false} EmapPrefix(l: seq<Extent>, i: nat)
    requires EmapList(l) && i < |l|
    ensures EmapList(l[..i]) && l[..i + 1] == l[..i] + [l[i]] && l[i].block > 0 && 0 < l[i].count <= EMAP_MAX
    ensures i > 0 ==> l[i - 1].End() <= l[i].start
  {
    EmapIs(l);
    EmapIs(l[..i]);
  }

  /** A page from `cut` on is in block `b`. */
  ghost predicate MapsFrom(l: seq<Extent>, cut: nat, b: nat) {
    exists p: nat :: MapsTo(l, cut, b, p)
  }

  ghost predicate MapsTo(l: seq<Extent>, cut: nat, b: nat, p: nat) {
    cut <= p && Lookup(l, p) == b
  }

  /** BlocksFrom is what its name says. */
  lemma {:induction false} BlocksFromAre(l: seq<Extent>, cut: nat, b: nat)
    requires EmapList(l)
    ensures b in BlocksFrom(l, cut) <==> MapsFrom(l, cut, b)
  {
    if l == [] {
      assert forall p: nat {:trigger MapsTo(l, cut, b, p)} :: !MapsTo(l, cut, b, p);
    } else {
      var i := |l| - 1;
      EmapPrefix(l, i);
      assert l[..i + 1] == l;
      BlocksFromAre(l[..i], cut, b);
      EmapAppend(l[..i], l[i]);
      BlocksFromLast(l[..i], l[i], cut, b, l);
    }
  }

  lemma {:induction false} BlocksFromLast(l: seq<Extent>, e: Extent, cut: nat, b: nat, r: seq<Extent>)
    requires forall p: nat {:trigger Lookup(r, p)} ::
               Lookup(r, p) == if Within(p, e.start, e.count) then e.At(p) else Lookup(l, p)
    requires forall p: nat {:trigger Lookup(l, p)} :: e.start <= p ==> Lookup(l, p) == HOLE
    requires e.block > 0
    ensures MapsFrom(r, cut, b) <==>
            MapsFrom(l, cut, b) || b in Range(e.block + KeptPages(e, cut), e.count - KeptPages(e, cut))
  {
    if p: nat :| MapsTo(l, cut, b, p) {
      assert MapsTo(r, cut, b, p);
    }
    if b in Range(e.block + KeptPages(e, cut), e.count - KeptPages(e, cut)) {
      var p := e.start + (b - e.block);
      assert MapsTo(r, cut, b, p);
    }
    if p: nat :| MapsTo(r, cut, b, p) {
      if Within(p, e.start, e.count) {
        assert b in Range(e.block + KeptPages(e, cut), e.count - KeptPages(e, cut));
      } else {
        assert MapsTo(l, cut, b, p);
      }
    }
  }

  /** `r` has the pages of `l` below `cut`. */
  ghost predicate Restricted(l: seq<Extent>, cut: nat, r: seq<Extent>) {
    forall p: nat {:trigger Lookup(r, p)} :: Lookup(r, p) == if p < cut then Lookup(l, p) else HOLE
  }

  /** A list and where its last extent ends. */
  predicate EndsBy(l: seq<Extent>, end: nat) {
    l != [] ==> l[|l| - 1].End() <= end
  }

  /** The first `k` pages of the next extent. */
  function KeepPages(r: seq<Extent>, e: Extent, k: nat): seq<Extent> {
    if k == 0 then r else r + [e.(count := k)]
  }

  /** What is left of a list whose pages from `cut` on are dropped. */
  function Kept(l: seq<Extent>, cut: nat): seq<Extent> {
    if l == [] then [] else KeepPages(Kept(l[..|l| - 1], cut), l[|l| - 1], KeptPages(l[|l| - 1], cut))
  }

  lemma {:induction false} KeptIs(l: seq<Extent>, cut: nat)
    requires EmapList(l)
    ensures EmapList(Kept(l, cut)) && Restricted(l, cut, Kept(l, cut))
    ensures l != [] ==> EndsBy(Kept(l, cut), l[|l| - 1].End())
  {
    if l != [] {
      var i := |l| - 1;
      EmapPrefix(l, i);
      assert l[..i + 1] == l;
      KeptIs(l[..i], cut);
      EmapAppend(l[..i], l[i]);
      var k := KeptPages(l[i], cut);
      if k > 0 {
        EmapAppend(Kept(l[..i], cut), l[i].(count := k));
      }
    }
  }

  lemma PageCountIs(size: nat)
    ensures PageCount(size) == CutPage(size / 4096, size % 4096 != 0)
  {
  }

  /** The first page dropped when a file ends in page `pg`, which stays if the end is inside it. */
  function CutPage(pg: nat, partial: bool): nat {
    if partial then pg + 1 else pg
  }

  /** What `lc_emapTruncate` does with one extent. */
  method TruncateExtent(e: Extent, pg: nat, partial: bool, f: seq<Extent>) returns (k: nat, f': seq<Extent>, zero: bool)
    requires e.count > 0 && Loose(f)
    ensures k == KeptPages(e, CutPage(pg, partial))
    ensures Loose(f') && Total(f') == Total(f) + (e.count - k) && Keys(f') == Keys(f) + Range(e.block + k, e.count - k)
    ensures zero <==> partial && Within(pg, e.start, e.count)
  {
    k, f', zero := e.count, f, false;
    if pg < e.start {
      f' := AddSpaceExtent(f, e.block, e.count, false);
      k := 0;
    } else if pg < e.End() {
      var freed := e.End() - pg;
      if partial {
        freed, zero := freed - 1, true;
      }
      if freed > 0 {
        f' := AddSpaceExtent(f, e.block + e.count - freed, freed, false);
        k := e.count - freed;
      }
    }
  }

  /** The first extents of `l` are done. */
  ghost predicate Truncated(l: seq<Extent>, pg: nat, partial: bool, r: seq<Extent>, f: seq<Extent>, zero: bool) {
    && r == Kept(l, CutPage(pg, partial))
    && Loose(f) && Keys(f) == BlocksFrom(l, CutPage(pg, partial)) && Total(f) + Total(r) == Total(l)
    && (zero <==> partial && Lookup(l, pg) != HOLE)
  }

  method TruncateStep(l: seq<Extent>, i: nat, pg: nat, partial: bool, r: seq<Extent>, f: seq<Extent>, zero: bool)
    returns (r': seq<Extent>, f': seq<Extent>, zero': bool)
    requires i < |l| && EmapList(l) && Truncated(l[..i], pg, partial, r, f, zero)
    ensures Truncated(l[..i + 1], pg, partial, r', f', zero')
  {
    TruncateNext(l, i, CutPage(pg, partial), pg);
    var k, z;
    k, f', z := TruncateExtent(l[i], pg, partial, f);
    r', zero' := KeepPages(r, l[i], k), zero || z;
  }

  /** The loop of `lc_emapTruncate`: drops the pages from the new end of the file on. `zero` says that the
      page the file now ends in has a block. */
  method TruncateList(l: seq<Extent>, pg: nat, partial: bool) returns (r: seq<Extent>, f: seq<Extent>, zero: bool)
    requires EmapList(l)
    ensures EmapList(r) && Restricted(l, CutPage(pg, partial), r)
    ensures Loose(f) && Keys(f) == BlocksFrom(l, CutPage(pg, partial)) && Total(f) + Total(r) == Total(l)
    ensures zero <==> partial && Lookup(l, pg) != HOLE
  {
    r, f, zero := [], [], false;
    var i := 0;
    while i < |l|
      invariant i <= |l| && Truncated(l[..i], pg, partial, r, f, zero)
    {
      r, f, zero := TruncateStep(l, i, pg, partial, r, f, zero);
      i := i + 1;
    }
    assert l[..i] == l;
    KeptIs(l, CutPage(pg, partial));
  }

  lemma {:induction false} TruncateNext(l: seq<Extent>, i: nat, cut: nat, pg: nat)
    requires i < |l| && EmapList(l)
    ensures Kept(l[..i + 1], cut) == KeepPages(Kept(l[..i], cut), l[i], KeptPages(l[i], cut))
    ensures Total(Kept(l[..i + 1], cut)) == Total(Kept(l[..i], cut)) + KeptPages(l[i], cut)
    ensures Total(l[..i + 1]) == Total(l[..i]) + l[i].count && l[i].count > 0
    ensures BlocksFrom(l[..i + 1], cut) ==
            BlocksFrom(l[..i], cut) + Range(l[i].block + KeptPages(l[i], cut), l[i].count - KeptPages(l[i], cut))
    ensures Lookup(l[..i + 1], pg) != HOLE <==> Lookup(l[..i], pg) != HOLE || Within(pg, l[i].start, l[i].count)
  {
    EmapPrefix(l, i);
    EmapAppend(l[..i], l[i]);
    assert l[..i + 1][..i] == l[..i];
    TotalConcat(Kept(l[..i], cut), [l[i].(count := KeptPages(l[i], cut))]);
  }

  /** The map of a file that is cut off at page `cut`. */
  ghost predicate CutAt(m: BlockMap, cut: nat, r: BlockMap) {
    forall p: nat {:trigger r.At(p)} :: r.At(p) == if p < cut then m.At(p) else HOLE
  }

  /** `b` is the block of a page from `cut` on. */
  ghost predicate Beyond(m: BlockMap, cut: nat, b: nat) {
    exists p: nat :: PageBeyond(m, cut, b, p)
  }

  ghost predicate PageBeyond(m: BlockMap, cut: nat, b: nat, p: nat) {
    cut <= p && m.At(p) == b
  }

  /** The blocks handed back are those of the pages that are cut off. */
  ghost predicate FreesBeyond(m: BlockMap, cut: nat, f: seq<Extent>) {
    Loose(f) && forall b: nat {:trigger b in Keys(f)} :: b in Keys(f) <==> Beyond(m, cut, b)
  }

  /** A single extent cut off at a page boundary. */
  method TruncateSingle(m: BlockMap, pg: nat) returns (r: BlockMap, f: seq<Extent>)
    requires m.Valid() && m.length > 0
    ensures r.Valid() && CutAt(m, pg, r) && FreesBeyond(m, pg, f) && Total(f) + r.blocks == m.blocks
  {
    r, f := m, [];
    if m.length > pg {
      f := AddSpaceExtent([], m.block + pg, m.length - pg, false);
      r := m.(length := pg, blocks := m.blocks - (m.length - pg));
    }
    if r.length == 0 {
      r := r.(block := 0);
    }
    forall b: nat ensures b in Keys(f) <==> Beyond(m, pg, b) {
      if b in Keys(f) {
        assert PageBeyond(m, pg, b, b - m.block);
      }
      if p: nat :| PageBeyond(m, pg, b, p) {
        assert b in Range(m.block + pg, m.length - pg);
      }
    }
  }

  lemma SameImage(r: BlockMap, m: BlockMap, cut: nat, b: nat)
    requires r.length == 0 && forall p: nat {:trigger r.At(p)} :: r.At(p) == m.At(p)
    ensures MapsFrom(r.list, cut, b) <==> Beyond(m, cut, b)
  {
    if p: nat :| MapsTo(r.list, cut, b, p) {
      assert r.At(p) == Lookup(r.list, p);
      assert PageBeyond(m, cut, b, p);
    }
    if p: nat :| PageBeyond(m, cut, b, p) {
      assert r.At(p) == Lookup(r.list, p);
      assert MapsTo(r.list, cut, b, p);
    }
  }

  /** `lc_emapTruncate`. With `remove` the map is cut off at the new size and the blocks given back are those of
      the pages beyond it; without, the list is only dropped from memory. */
  method EmapTruncate(m: BlockMap, size: nat, remove: bool) returns (r: BlockMap, f: seq<Extent>, zero: bool)
    requires m.Valid() && (remove || size == 0)
    ensures remove ==>
              && r.Valid() && CutAt(m, PageCount(size), r) && FreesBeyond(m, PageCount(size), f)
              && Total(f) + r.blocks == m.blocks
    ensures !remove ==> r == m.(list := []) && f == []
    ensures zero <==> size % 4096 != 0 && m.At(size / 4096) != HOLE
  {
    var pg := size / 4096;
    PageCountIs(size);
    if !remove {
      return m.(list := []), [], false;
    }
    if m.length > 0 && size % 4096 == 0 {
      zero := false;
      r, f := TruncateSingle(m, pg);
    } else {
      r := m;
      if m.length > 0 {
        r := ExpandEmap(m);
      }
      var l;
      l, f, zero := TruncateList(r.list, pg, size % 4096 != 0);
      forall b: nat ensures b in Keys(f) <==> Beyond(m, PageCount(size), b) {
        BlocksFromAre(r.list, PageCount(size), b);
        SameImage(r, m, PageCount(size), b);
      }
      r := r.(list := l, blocks := r.blocks - Total(f));
    }
  }
}
