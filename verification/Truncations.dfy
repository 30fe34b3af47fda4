/**
  * Truncating a file with dirty pages (lcfs/page.c): pages past the new end are dropped, and the page in which the file
  * ends is cut, or made dirty so that the rest of its block is zeroed when it is written.
  */
module Truncations {
  import opened Extents
  import opened Emap
  import opened Pages
  import opened Inodes

  // ----- Dropping pages -----

  /** The table without its pages from `cut` on. */
  ghost predicate CutTable(t: Table, cut: nat, r: Table)
    requires ValidTable(t) && ValidTable(r)
  {
    forall q: nat {:trigger Get(r, q)} :: Get(r, q) == if q < cut then Get(t, q) else EMPTY
  }

  /** `n` pages of the table are dirty, all of them below `pages`. */
  ghost predicate Counted(t: Table, n: nat, pages: nat) {
    && ValidTable(t) && n == Count(t, pages)
    && forall q: nat {:trigger Get(t, q)} :: Get(t, q).Dirty() ==> q < pages
  }

  lemma {:induction false} NoneLeft(t: Table, n: nat, pages: nat, q: nat)
    requires Counted(t, n, pages) && n == 0
    ensures Get(t, q) == EMPTY
  {
    CountNone(t, pages);
    GetEmpty(t, q);
  }

  /** Takes the first page off a list of the hash table. */
  method DropFirst(t: Table, h: nat, n: nat, ghost pages: nat) returns (r: Table, left: nat)
    requires Counted(t, n, pages) && t.Hashed? && h < 1024 && t.chains[h] != []
    ensures Counted(r, left, pages) && r.Hashed? && Changed(t, t.chains[h][0].pg, EMPTY, r)
    ensures r.chains[h] == t.chains[h][1..]
  {
    var c := t.chains[h];
    FirstInChain(c, h);
    r := Hashed(t.chains[h := c[1..]]);
    assert Get(t, c[0].pg).Dirty();
    CountChanged(t, c[0].pg, EMPTY, r, pages);
    left := n - 1;
  }

  lemma FirstInChain(c: seq<HPage>, h: nat)
    requires Chain(c) && InPlace(c, h) && c != []
    ensures Chain(c[1..]) && InPlace(c[1..], h) && c[0].page.Dirty() && Hash(c[0].pg) == h
    ensures InChain(c, c[0].pg) == c[0].page && InChain(c[1..], c[0].pg) == EMPTY
  {
    ChainBelow(c[1..], c[0].pg);
  }

  /** The inner loop of `lc_invalidatePages` over a list, which is sorted by descending page. */
  method DropList(t: Table, h: nat, cut: nat, n: nat, ghost pages: nat) returns (r: Table, left: nat)
    requires Counted(t, n, pages) && t.Hashed? && h < 1024
    ensures Counted(r, left, pages) && r.Hashed?
    ensures forall q: nat {:trigger Get(r, q)} :: Get(r, q) == if Hash(q) == h && q >= cut then EMPTY else Get(t, q)
  {
    r, left := t, n;
    while r.chains[h] != [] && r.chains[h][0].pg >= cut
      invariant Counted(r, left, pages) && r.Hashed?
      invariant forall q: nat {:trigger Get(r, q)} ::
                  Get(r, q) == Get(t, q) || (Get(r, q) == EMPTY && Hash(q) == h && q >= cut)
      decreases |r.chains[h]|
    {
      FirstInChain(r.chains[h], h);
      r, left := DropFirst(r, h, left, pages);
    }
    forall q: nat | Hash(q) == h && q >= cut ensures Get(r, q) == EMPTY {
      ChainBelow(r.chains[h], q);
    }
  }

  /** The loop of `lc_invalidatePages` over the hash table, which ends once no page is dirty. */
  method DropHashed(t: Table, cut: nat, n: nat, ghost pages: nat) returns (r: Table, left: nat)
    requires Counted(t, n, pages) && t.Hashed?
    ensures Counted(r, left, pages) && r.Hashed? && CutTable(t, cut, r)
  {
    r, left := t, n;
    var i := 0;
    while i < 1024 && left > 0
      invariant i <= 1024 && Counted(r, left, pages) && r.Hashed?
      invariant forall q: nat {:trigger Get(r, q)} :: Get(r, q) == if Hash(q) < i && q >= cut then EMPTY else Get(t, q)
    {
      r, left := DropList(r, i, cut, left, pages);
      i := i + 1;
    }
    if left == 0 {
      forall q: nat ensures Get(r, q) == EMPTY {
        NoneLeft(r, left, pages, q);
      }
    }
  }

  /** The loop of `lc_invalidatePages` over the array, from the page in which the file ends. */
  method DropArray(t: Table, to: nat, last: nat, n: nat, ghost pages: nat) returns (r: Table, left: nat)
    requires Counted(t, n, pages) && t.Array? && last < |t.pages|
    requires forall q: nat {:trigger Get(t, q)} :: Get(t, q).Dirty() ==> q <= last
    ensures Counted(r, left, pages) && r.Array? && |r.pages| == |t.pages| && CutTable(t, PageCount(to), r)
  {
    PageCountIs(to);
    r, left := t, n;
    var i := to / 4096;
    while i <= last
      invariant Counted(r, left, pages) && r.Array? && |r.pages| == |t.pages|
      invariant forall q: nat {:trigger Get(r, q)} :: Get(r, q) == if PageCount(to) <= q < i then EMPTY else Get(t, q)
      decreases last + 1 - i
    {
      if r.pages[i].Dirty() && (i > to / 4096 || to % 4096 == 0) {
        r, left := DropPage(r, i, left, pages);
      }
      i := i + 1;
    }
    forall q: nat ensures Get(r, q) == if q < PageCount(to) then Get(t, q) else EMPTY {
      assert !Get(t, q).Dirty() ==> Get(t, q) == EMPTY;
    }
  }

  method DropPage(t: Table, i: nat, n: nat, ghost pages: nat) returns (r: Table, left: nat)
    requires Counted(t, n, pages) && t.Array? && i < |t.pages| && t.pages[i].Dirty()
    ensures Counted(r, left, pages) && r.Array? && |r.pages| == |t.pages| && Changed(t, i, EMPTY, r)
  {
    assert Get(t, i).Dirty();
    r := Array(t.pages[i := EMPTY]);
    CountChanged(t, i, EMPTY, r, pages);
    left := n - 1;
  }

  /** The search for the first and the last dirty page of an array, which has one up to page `pg`. */
  method FindMarkers(t: Table, pg: nat) returns (first: nat, last: nat)
    requires ValidTable(t) && t.Array? && (exists q: nat :: Get(t, q).Dirty())
    requires forall q: nat {:trigger Get(t, q)} :: Get(t, q).Dirty() ==> q <= pg
    ensures Get(t, first).Dirty() && Get(t, last).Dirty()
    ensures forall q: nat {:trigger Get(t, q)} :: Get(t, q).Dirty() ==> first <= q <= last
  {
    first := 0;
    while !(first < |t.pages| && t.pages[first].Dirty())
      invariant first <= pg && forall q: nat {:trigger Get(t, q)} :: Get(t, q).Dirty() ==> first <= q
      decreases pg - first
    {
      assert !Get(t, first).Dirty();
      first := first + 1;
    }
    last := pg;
    while !(last < |t.pages| && t.pages[last].Dirty())
      invariant first <= last && forall q: nat {:trigger Get(t, q)} :: Get(t, q).Dirty() ==> q <= last
      decreases last
    {
      assert !Get(t, last).Dirty();
      last := last - 1;
    }
  }

  // ----- The last page -----

  /** What becomes of dirty page `q` when the file is truncated to `to` bytes; `zero` tells that the page in which it
      ends has a block, and `junk` is what a new buffer holds. */
  function EndPage(d: DPage, q: nat, to: nat, zero: bool, junk: Page): DPage {
    var off := to % 4096;
    if q >= PageCount(to) then EMPTY
    else if q < to / 4096 then d
    else if !d.Dirty() then (if zero then DPage(Data(junk), 0, 0) else EMPTY)
    else if d.poffset + d.psize <= off then d
    else if d.poffset >= off then DPage(d.data, 0, 0)
    else DPage(d.data, d.poffset, off - d.poffset)
  }

  /** The pages are in a hash table when they are dropped. */
  predicate UsesHash(f: File, to: nat) {
    f.table.Hashed? || (to % 4096 != 0 && f.size > 1024 * 4096)
  }

  /** The page in which the truncated file ends has a block. */
  predicate EndMapped(f: File, to: nat) {
    to % 4096 != 0 && f.bmap.At(to / 4096) != HOLE
  }

  /** The truncation does not come to an end: the pages are in a hash table and one of them stays dirty or is made
      so. */
  ghost predicate Fails(f: File, to: nat)
    requires ValidTable(f.table)
  {
    to > 0 && UsesHash(f, to) && (EndMapped(f, to) || Count(f.table, PageCount(to)) > 0)
  }

  /** The new end is in a dirty page that is all zeros. */
  predicate CutsZeros(f: File, to: nat)
    requires ValidTable(f.table)
  {
    to % 4096 != 0 && Get(f.table, to / 4096).data.ZeroPage?
  }

  /** The new page cannot be found again: `lc_findDirtyPage` looks only between the markers of a hash table. */
  predicate OutOfSight(f: File, pg: nat) {
    f.dirty == 0 || pg < f.first || pg > f.last
  }

  /** The dirty pages when the one in which the file ends is cut: their number and the last of them. */
  ghost predicate Ending(f: File, to: nat, zero: bool, junk: Page, r: File)
    requires ValidTable(f.table)
  {
    && r == f.(table := r.table, dirty := r.dirty, first := r.first, last := r.last)
    && Counted(r.table, r.dirty, PageCount(f.size))
    && (forall q: nat {:trigger Get(r.table, q)} ::
          Get(r.table, q) == if q == to / 4096 then EndPage(Get(f.table, q), q, to, zero, junk) else Get(f.table, q))
    && (forall q: nat {:trigger Get(r.table, q)} :: Get(r.table, q).Dirty() ==> q <= r.last)
    && (r.table.Array? && r.dirty > 0 ==> r.last < |r.table.pages|)
    && (r.table.Array? ==> PageCount(f.size) < |r.table.pages|) && (r.dirty == 0 ==> r.last == 0)
  }

  /** `lc_truncatePage`. Answers false where the code goes on with a page it has not found. */
  method TruncatePage(f: File, to: nat, zero: bool, junk: Page) returns (r: File, ok: bool)
    requires f.Valid() && to % 4096 != 0 && to <= f.size
    ensures ok <==> !(UsesHash(f, to) && zero && !Get(f.table, to / 4096).Dirty() && OutOfSight(f, to / 4096))
    ensures ok ==> Ending(f, to, zero, junk, r) && r.table.Hashed? == UsesHash(f, to)
  {
    var pg := to / 4096;
    var g := AllocPages(f);
    var d := FindDirtyPage(g, pg);
    EndCut(f, to, zero, junk);
    if !d.Dirty() && zero {
      if g.table.Hashed? && OutOfSight(g, pg) {
        return g, false;
      }
      r := SetEnd(f, g, to, zero, junk, DPage(Data(junk), 0, 0), 1);
    } else if d.Dirty() && d.poffset + d.psize > to % 4096 {
      var psize := if d.poffset >= to % 4096 then 0 else to % 4096 - d.poffset;
      r := SetEnd(f, g, to, zero, junk, DPage(d.data, if psize == 0 then 0 else d.poffset, psize), 0);
    } else {
      SameEnd(f, g, to, zero, junk);
      r := g;
    }
    ok := true;
  }

  /** What is to become of the page in which the file ends. */
  lemma EndCut(f: File, to: nat, zero: bool, junk: Page)
    requires f.Valid() && to % 4096 != 0
    ensures var d, off := Get(f.table, to / 4096), to % 4096; var r := EndPage(d, to / 4096, to, zero, junk);
            && (!d.Dirty() ==> d == EMPTY && r == if zero then DPage(Data(junk), 0, 0) else EMPTY)
            && (d.Dirty() && d.poffset + d.psize <= off ==> r == d)
            && (d.Dirty() && d.poffset + d.psize > off ==>
                  r == if d.poffset >= off then DPage(d.data, 0, 0) else DPage(d.data, d.poffset, off - d.poffset))
  {
    PageCountIs(to);
    if !Get(f.table, to / 4096).Dirty() {
      GetEmpty(f.table, to / 4096);
    }
  }

  lemma SameEnd(f: File, r: File, to: nat, zero: bool, junk: Page)
    requires f.Valid() && r.Valid() && r == f.(table := r.table) && SameTable(f.table, r.table) && to <= f.size
    requires r.table.Hashed? || PageCount(f.size) < |r.table.pages|
    requires to % 4096 != 0 && EndPage(Get(f.table, to / 4096), to / 4096, to, zero, junk) == Get(f.table, to / 4096)
    ensures Ending(f, to, zero, junk, r)
  {
    BelowSize(r);
  }

  lemma BelowSize(f: File)
    requires f.Valid()
    ensures Counted(f.table, f.dirty, PageCount(f.size))
    ensures f.dirty > 0 && f.table.Array? ==> f.last < |f.table.pages|
    ensures forall q: nat {:trigger Get(f.table, q)} :: Get(f.table, q).Dirty() ==> q <= f.last
  {
    forall q: nat | Get(f.table, q).Dirty() ensures q < PageCount(f.size) {
      assert Get(f.table, q).Fits(q, f.size);
    }
    assert f.dirty > 0 ==> Get(f.table, f.last).Dirty();
  }

  /** The page in which the file ends is now `d`. */
  method SetEnd(ghost f: File, g: File, to: nat, ghost zero: bool, ghost junk: Page, d: DPage, added: nat)
      returns (r: File)
    requires f.Valid() && g.Valid() && g == f.(table := g.table) && SameTable(f.table, g.table) && 0 < to <= f.size
    requires g.table.Hashed? || PageCount(f.size) < |g.table.pages|
    requires to % 4096 != 0 && d.Dirty() && d == EndPage(Get(f.table, to / 4096), to / 4096, to, zero, junk)
    requires added == if Get(f.table, to / 4096).Dirty() then 0 else 1
    ensures Ending(f, to, zero, junk, r) && r.table.Hashed? == g.table.Hashed?
  {
    var pg := to / 4096;
    PageCountIs(to);
    var t := SetPage(g.table, pg, d);
    r := g.(table := t, dirty := g.dirty + added,
            first := if g.first > pg then pg else g.first, last := if g.last < pg then pg else g.last);
    EndCounted(g, pg, d, t, added);
    BelowSize(g);
  }

  lemma EndCounted(g: File, pg: nat, d: DPage, t: Table, added: nat)
    requires g.Valid() && pg < PageCount(g.size) && d.Dirty() && ValidTable(t) && Changed(g.table, pg, d, t)
    requires added == if Get(g.table, pg).Dirty() then 0 else 1
    ensures Counted(t, g.dirty + added, PageCount(g.size)) && g.dirty + added > 0
  {
    BelowSize(g);
    CountChanged(g.table, pg, d, t, PageCount(g.size));
    CountNone(t, PageCount(g.size));
    assert Get(t, pg).Dirty();
  }

  // ----- All pages -----

  /** The pages past the end are dropped and the markers set up. */
  ghost predicate Invalidated(f: File, to: nat, r: File)
    requires ValidTable(f.table)
  {
    && r == f.(table := r.table, dirty := r.dirty, first := r.first, last := r.last)
    && Counted(r.table, r.dirty, PageCount(f.size)) && CutTable(f.table, PageCount(to), r.table)
    && (if to == 0 then r.table == Array([])
        else r.table.Array? == f.table.Array? && (r.table.Array? ==> |r.table.pages| == |f.table.pages|))
    && (forall q: nat {:trigger Get(r.table, q)} :: Get(r.table, q).Dirty() ==> r.first <= q <= r.last)
    && (if r.dirty > 0 then Get(r.table, r.first).Dirty() && Get(r.table, r.last).Dirty()
        else r.last == if to > 0 && f.dirty == 0 then f.last else 0)
  }

  /** `lc_invalidatePages`. Answers false where the search for the markers finds no dirty page, because the markers were
      reset before and a hash table is searched only between them. */
  method InvalidatePages(f: File, to: nat) returns (r: File, ok: bool)
    requires Counted(f.table, f.dirty, PageCount(f.size)) && to <= f.size
    requires forall q: nat {:trigger Get(f.table, q)} :: Get(f.table, q).Dirty() ==> q <= f.last
    requires f.table.Array? && f.dirty > 0 ==> f.last < |f.table.pages|
    ensures ok <==> !(to > 0 && f.table.Hashed? && DirtyBelow(f.table, PageCount(to)))
    ensures ok ==> Invalidated(f, to, r)
  {
    if to > 0 && f.dirty == 0 {
      forall q: nat ensures Get(f.table, q) == EMPTY {
        NoneLeft(f.table, f.dirty, PageCount(f.size), q);
      }
      return f, true;
    }
    var t, left := DropAll(f, to);
    LeftBelow(f.table, PageCount(to), t, left, PageCount(f.size));
    r, ok := f.(table := t, dirty := left), true;
    if to == 0 {
      ghost var was := t;
      forall q: nat ensures Get(was, q) == EMPTY {
      }
      CountNone(was, PageCount(f.size));
      r := r.(table := Array([]));
      CountNone(r.table, PageCount(f.size));
    }
    r := InitMarkers(r);
    if to > 0 && left > 0 {
      SomeLeft(t, left, PageCount(f.size));
      if t.Hashed? {
        return r, false;
      }
      PageCountIs(to);
      var first, last := FindMarkers(t, to / 4096);
      r := r.(first := first, last := last);
    } else {
      forall q: nat ensures Get(r.table, q) == EMPTY {
        NoneLeft(r.table, r.dirty, PageCount(f.size), q);
      }
    }
  }

  /** A page before `cut` is dirty. */
  ghost predicate DirtyBelow(t: Table, cut: nat)
    requires ValidTable(t)
  {
    exists q: nat :: q < cut && Get(t, q).Dirty()
  }

  lemma LeftBelow(t: Table, cut: nat, r: Table, left: nat, pages: nat)
    requires ValidTable(t) && Counted(r, left, pages) && CutTable(t, cut, r)
    ensures left > 0 <==> DirtyBelow(t, cut)
  {
    CountNone(r, pages);
    if DirtyBelow(t, cut) {
      var q: nat :| q < cut && Get(t, q).Dirty();
      assert Get(r, q).Dirty();
    } else {
      forall q: nat ensures !Get(r, q).Dirty() {
        assert Get(r, q) == if q < cut then Get(t, q) else EMPTY;
      }
    }
  }

  lemma SomeLeft(t: Table, n: nat, pages: nat)
    requires Counted(t, n, pages) && n > 0
    ensures exists q: nat :: Get(t, q).Dirty()
  {
    CountNone(t, pages);
  }

  /** Drops the pages past the end, in either form. */
  method DropAll(f: File, to: nat) returns (t: Table, left: nat)
    requires Counted(f.table, f.dirty, PageCount(f.size))
    requires forall q: nat {:trigger Get(f.table, q)} :: Get(f.table, q).Dirty() ==> q <= f.last
    requires f.table.Array? && f.dirty > 0 ==> f.last < |f.table.pages|
    ensures Counted(t, left, PageCount(f.size)) && CutTable(f.table, PageCount(to), t)
    ensures t.Array? == f.table.Array? && (t.Array? ==> |t.pages| == |f.table.pages|)
  {
    if f.table.Hashed? {
      t, left := DropHashed(f.table, PageCount(to), f.dirty, PageCount(f.size));
    } else if f.dirty > 0 {
      t, left := DropArray(f.table, to, f.last, f.dirty, PageCount(f.size));
    } else {
      t, left := f.table, f.dirty;
      forall q: nat ensures Get(t, q) == EMPTY {
        NoneLeft(t, left, PageCount(f.size), q);
      }
    }
  }

  // ----- The file -----

  /** The dirty pages of a truncated file. */
  ghost predicate Truncated(f: File, to: nat, zero: bool, junk: Page, t: Table)
    requires ValidTable(f.table) && ValidTable(t)
  {
    forall q: nat {:trigger Get(t, q)} :: Get(t, q) == EndPage(Get(f.table, q), q, to, zero, junk)
  }

  /** The rest of the file is as `lc_invalidatePages` leaves it. */
  ghost predicate Tidy(f: File, to: nat, r: File)
    requires ValidTable(f.table)
  {
    && Counted(r.table, r.dirty, PageCount(f.size))
    && (forall q: nat {:trigger Get(r.table, q)} :: Get(r.table, q).Dirty() ==> r.first <= q <= r.last)
    && (if r.dirty > 0 then Get(r.table, r.first).Dirty() && Get(r.table, r.last).Dirty() else r.last == 0)
    && (r.table.Array? && r.table.pages != [] ==>
          PageCount(f.size) < |r.table.pages|
          || (to % 4096 == 0 && f.table.Array? && |r.table.pages| == |f.table.pages|))
  }

  /** The page in which the file ends is partial, unless it is the shared page of zeros. */
  lemma CutFits(d: DPage, q: nat, size: nat, to: nat, zero: bool, junk: Page)
    requires d.Fits(q, size) && to <= size && (!d.Dirty() ==> d == EMPTY)
    requires q >= PageCount(to) || q < to / 4096 || !d.data.ZeroPage?
    ensures EndPage(d, q, to, zero, junk).Fits(q, to)
  {
    PageCountIs(to);
  }

  lemma CutCovered(f: File, to: nat, zero: bool, junk: Page, r: File)
    requires f.Valid() && to <= f.size && r.size == to && CutAt(f.bmap, PageCount(to), r.bmap)
    requires Tidy(f, to, r) && Truncated(f, to, zero, junk, r.table)
    ensures forall p: nat {:trigger r.bmap.At(p)} :: r.bmap.At(p) >= 0 ==> p < r.Covered()
    ensures forall p: nat {:trigger Get(r.table, p)} :: Get(r.table, p).Dirty() ==> p < r.Covered()
  {
    forall p: nat | r.bmap.At(p) >= 0 ensures p < r.Covered() {
      assert f.bmap.At(p) >= 0 && p < f.Covered();
    }
    forall p: nat | Get(r.table, p).Dirty() ensures p < r.Covered() {
      assert Get(r.table, p) == EndPage(Get(f.table, p), p, to, zero, junk);
      if Get(f.table, p).Dirty() {
        assert p < f.Covered();
      }
    }
  }

  /** The pages of the truncated file are below its end. */
  lemma CutCounted(f: File, to: nat, zero: bool, junk: Page, r: File)
    requires ValidTable(f.table) && to <= f.size && Tidy(f, to, r) && Truncated(f, to, zero, junk, r.table)
    ensures r.dirty == Count(r.table, PageCount(to))
  {
    forall q: nat | Get(r.table, q).Dirty() ensures q < PageCount(to) {
      assert Get(r.table, q) == EndPage(Get(f.table, q), q, to, zero, junk);
    }
    CountBeyond(r.table, PageCount(to), PageCount(f.size));
  }

  lemma CutAllFit(f: File, to: nat, zero: bool, junk: Page, t: Table)
    requires f.Valid() && to <= f.size && ValidTable(t) && Truncated(f, to, zero, junk, t) && !CutsZeros(f, to)
    ensures forall p: nat {:trigger Get(t, p)} :: Get(t, p).Fits(p, to)
  {
    PageCountIs(to);
    forall p: nat ensures Get(t, p).Fits(p, to) {
      if !Get(f.table, p).Dirty() {
        GetEmpty(f.table, p);
      }
      CutFits(Get(f.table, p), p, f.size, to, zero, junk);
    }
  }

  lemma ValidCut(f: File, to: nat, zero: bool, junk: Page, r: File)
    requires f.Valid() && to <= f.size && r.size == to && r.bmap.Valid() && CutAt(f.bmap, PageCount(to), r.bmap)
    requires Tidy(f, to, r) && Truncated(f, to, zero, junk, r.table) && !CutsZeros(f, to)
    ensures r.Valid()
  {
    CutCounted(f, to, zero, junk, r);
    CutAllFit(f, to, zero, junk, r.table);
    CutCovered(f, to, zero, junk, r);
  }

  /** A page of zeros that is cut stays the shared page, which must not be partial. */
  lemma ZerosCut(f: File, to: nat, zero: bool, junk: Page, r: File)
    requires f.Valid() && to <= f.size && r.size == to && ValidTable(r.table)
    requires Truncated(f, to, zero, junk, r.table) && CutsZeros(f, to)
    ensures var d := Get(r.table, to / 4096); d.data.ZeroPage? && !d.Full() && !r.Valid()
  {
    PageCountIs(to);
    var pg := to / 4096;
    assert Get(f.table, pg).Fits(pg, f.size);
    assert Get(r.table, pg) == EndPage(Get(f.table, pg), pg, to, zero, junk);
    assert !Get(r.table, pg).Fits(pg, to);
  }

  /** Other pages and bytes of the file are not affected. */
  lemma CutBytes(f: File, to: nat, zero: bool, junk: Page, r: File, store: map<nat, Page>, q: nat, k: nat)
    requires f.Valid() && to <= f.size && ValidTable(r.table) && Truncated(f, to, zero, junk, r.table)
    requires CutAt(f.bmap, PageCount(to), r.bmap) && k < 4096 && 4096 * q + k < to
    ensures r.ByteAt(store, q, k) == f.ByteAt(store, q, k)
  {
    PageCountIs(to);
    assert r.bmap.At(q) == f.bmap.At(q);
    assert Get(r.table, q) == EndPage(Get(f.table, q), q, to, zero, junk);
    if !Get(f.table, q).Dirty() {
      GetEmpty(f.table, q);
    }
  }

  /** The map is cut before the pages are. */
  lemma MapCut(f: File, m: BlockMap, to: nat)
    requires f.Valid() && m.Valid() && CutAt(f.bmap, PageCount(to), m)
    ensures f.(bmap := m).Valid()
  {
    var r := f.(bmap := m);
    forall p: nat | m.At(p) >= 0 ensures p < r.Covered() {
      assert f.bmap.At(p) >= 0;
    }
  }

  /** After `lc_truncatePage`, which is called if the file ends inside a page. */
  ghost predicate Ended(f: File, to: nat, zero: bool, junk: Page, g: File)
    requires ValidTable(f.table)
  {
    if to % 4096 != 0 then Ending(f, to, zero, junk, g) else g == f
  }

  lemma HashLeft(f: File, to: nat, zero: bool, junk: Page, g: File)
    requires f.Valid() && Ended(f, to, zero, junk, g) && (zero ==> to % 4096 != 0)
    ensures ValidTable(g.table) && (DirtyBelow(g.table, PageCount(to)) <==> zero || Count(f.table, PageCount(to)) > 0)
  {
    PageCountIs(to);
    var cut, pg := PageCount(to), to / 4096;
    CountNone(f.table, cut);
    assert to % 4096 != 0 ==> Get(g.table, pg) == EndPage(Get(f.table, pg), pg, to, zero, junk);
    if zero {
      assert Get(g.table, pg).Dirty();
    }
    forall q: nat | q < cut ensures Get(g.table, q).Dirty() <==> Get(f.table, q).Dirty() || (zero && q == pg) {
    }
  }

  lemma BothCut(f: File, to: nat, zero: bool, junk: Page, g: File, t: Table, q: nat)
    requires f.Valid() && Ended(f, to, zero, junk, g) && ValidTable(g.table) && ValidTable(t)
    requires CutTable(g.table, PageCount(to), t)
    ensures Get(t, q) == EndPage(Get(f.table, q), q, to, zero, junk)
  {
    PageCountIs(to);
    assert Get(t, q) == if q < PageCount(to) then Get(g.table, q) else EMPTY;
  }

  lemma BothTidy(f: File, to: nat, zero: bool, junk: Page, g: File, r: File)
    requires f.Valid() && Ended(f, to, zero, junk, g) && ValidTable(g.table) && Invalidated(g, to, r)
    ensures Tidy(f, to, r) && Truncated(f, to, zero, junk, r.table)
  {
    forall q: nat ensures Get(r.table, q) == EndPage(Get(f.table, q), q, to, zero, junk) {
      BothCut(f, to, zero, junk, g, r.table, q);
    }
  }

  /** The part of `lc_truncateFile` about dirty pages. */
  method TruncatePages(f: File, to: nat, zero: bool, junk: Page) returns (r: File, ok: bool)
    requires f.Valid() && to <= f.size && (zero ==> to % 4096 != 0)
    ensures ok <==> !(to > 0 && UsesHash(f, to) && (zero || Count(f.table, PageCount(to)) > 0))
    ensures ok ==> r.size == to && r.bmap == f.bmap && Tidy(f, to, r) && Truncated(f, to, zero, junk, r.table)
  {
    var g := f;
    BelowSize(f);
    if to % 4096 != 0 {
      g, ok := TruncatePage(f, to, zero, junk);
      if !ok {
        return f, false;
      }
    }
    HashLeft(f, to, zero, junk, g);
    var h;
    h, ok := InvalidatePages(g, to);
    r := h.(size := to);
    if ok {
      BothTidy(f, to, zero, junk, g, h);
      assert Tidy(f, to, r);
    }
  }

  /** What `lc_truncateFile` makes of a file. */
  ghost predicate TruncatedTo(f: File, to: nat, junk: Page, r: File)
    requires ValidTable(f.table)
  {
    && r.size == to && r.bmap.Valid() && CutAt(f.bmap, PageCount(to), r.bmap)
    && ValidTable(r.table) && Truncated(f, to, EndMapped(f, to), junk, r.table)
  }

  /** `lc_truncateFile`. The map is cut, and so are the dirty pages; the page in which the file ends is dirty afterwards
      if it has a block. The code fails exactly for a file whose dirty pages are in a hash table if any page is dirty
      then. What is left can be flushed unless the new end is in a dirty page of zeros. Shared extents are just
      dropped if nothing is left of the file. */
  method TruncateFile(f: File, to: nat, shared: bool, junk: Page) returns (r: File, freed: seq<Extent>, ok: bool)
    requires f.Valid() && to <= f.size
    ensures ok <==> !Fails(f, to)
    ensures ok ==> TruncatedTo(f, to, junk, r) && (r.Valid() <==> !CutsZeros(f, to))
    ensures ok ==> if shared && to == 0 then freed == [] else FreesBeyond(f.bmap, PageCount(to), freed)
  {
    if f.bmap.list == [] && f.bmap.length == 0 && f.dirty == 0 {
      NothingToCut(f, to, junk);
      return f.(size := to), [], true;
    }
    var m, zero;
    m, freed, zero := CutMap(f, to, shared);
    MapCut(f, m, to);
    r, ok := TruncatePages(f.(bmap := m), to, zero, junk);
    if ok {
      CutResult(f, m, to, zero, junk, r);
    }
  }

  /** The part of `lc_truncateFile` about the map. */
  method CutMap(f: File, to: nat, shared: bool) returns (m: BlockMap, freed: seq<Extent>, zero: bool)
    requires f.Valid()
    ensures m.Valid() && CutAt(f.bmap, PageCount(to), m) && zero == EndMapped(f, to)
    ensures if shared && to == 0 then freed == [] else FreesBeyond(f.bmap, PageCount(to), freed)
  {
    if shared && to == 0 {
      m, freed, zero := BlockMap([], 0, 0, 0), [], false;
    } else {
      m, freed, zero := EmapTruncate(f.bmap, to, true);
    }
  }

  lemma CutResult(f: File, m: BlockMap, to: nat, zero: bool, junk: Page, r: File)
    requires f.Valid() && to <= f.size && m.Valid() && CutAt(f.bmap, PageCount(to), m) && zero == EndMapped(f, to)
    requires f.(bmap := m).Valid() && r.size == to && r.bmap == m
    requires Tidy(f.(bmap := m), to, r) && Truncated(f.(bmap := m), to, zero, junk, r.table)
    ensures TruncatedTo(f, to, junk, r) && (r.Valid() <==> !CutsZeros(f, to))
  {
    assert Tidy(f, to, r) && Truncated(f, to, zero, junk, r.table);
    if CutsZeros(f, to) {
      ZerosCut(f, to, zero, junk, r);
    } else {
      ValidCut(f, to, zero, junk, r);
    }
  }

  lemma NothingToCut(f: File, to: nat, junk: Page)
    requires f.Valid() && to <= f.size && f.bmap.list == [] && f.bmap.length == 0 && f.dirty == 0
    ensures !Fails(f, to) && !CutsZeros(f, to) && FreesBeyond(f.bmap, PageCount(to), [])
    ensures TruncatedTo(f, to, junk, f.(size := to)) && f.(size := to).Valid()
  {
    var r := f.(size := to);
    BelowSize(f);
    forall q: nat ensures Get(f.table, q) == EMPTY {
      NoneLeft(f.table, f.dirty, PageCount(f.size), q);
    }
    CountNone(f.table, PageCount(to));
    assert Truncated(f, to, false, junk, r.table);
  }

  // ----- The failures -----

  /** Any file of more than 4 MB in one extent, without dirty pages, is truncated to a size inside a page. */
  method LargeFile(size: nat, block: nat, to: nat, junk: Page) returns (f: File, ok: bool)
    requires size > 1024 * 4096 && block > 0 && to < size && to % 4096 != 0
    ensures f.Valid() && f.size == size && f.dirty == 0 && !ok
  {
    f := File(size, BlockMap([], block, PageCount(size), PageCount(size)), Array([]), 0, 0, 0);
    CountNone(f.table, PageCount(size));
    PageCountIs(to);
    var r, freed;
    r, freed, ok := TruncateFile(f, to, false, junk);
  }

  /** A file of two pages, the first of which was overwritten with zeros, is truncated to 100 bytes: the page that is
      left is neither full nor a buffer that could be filled. */
  method ZeroedFile(junk: Page) returns (f: File, r: File, ok: bool)
    ensures f.Valid() && ok && r.size == 100 && !r.Valid()
    ensures ValidTable(r.table) && Get(r.table, 0).data.ZeroPage? && !Get(r.table, 0).Full()
  {
    f := File(8192, BlockMap([], 0, 0, 0), Array([DPage(ZeroPage, 0, 4096), EMPTY, EMPTY]), 1, 0, 0);
    assert Get(f.table, 0).Dirty() && Count(f.table, 1) == 1 && Count(f.table, 2) == 1;
    var freed;
    r, freed, ok := TruncateFile(f, 100, false, junk);
    assert Get(r.table, 0) == EndPage(Get(f.table, 0), 0, 100, false, junk);
  }
}
