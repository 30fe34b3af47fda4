/**
  * Writes that make a file grow (lcfs/page.c). When a write starts past the end of the file, the page in which the file
  * ends is filled with zeros if it is dirty and has a block.
  */
module Growth {
  import opened Extents
  import opened Emap
  import opened Pages
  import opened Inodes
  import opened Truncations
  import opened Flush

  /** The byte at offset `k` of page `q`: zero past the end of the file. */
  function ByteOf(f: File, store: map<nat, Page>, q: nat, k: nat): Byte
    requires ValidTable(f.table) && k < 4096
  {
    if 4096 * q + k < f.size then f.ByteAt(store, q, k) else 0
  }

  /** Blocks have zeros past the end of the file. */
  ghost predicate ZeroPast(f: File, store: map<nat, Page>)
    requires ValidTable(f.table)
  {
    forall q: nat {:trigger PageClear(f, store, q)} :: PageClear(f, store, q)
  }

  /** The page in which the file ends is filled: it has a block, and is dirty but not to its end. */
  predicate Filled(f: File)
    requires ValidTable(f.table)
  {
    var d := Get(f.table, f.size / 4096);
    f.size % 4096 != 0 && f.bmap.At(f.size / 4096) != HOLE && d.Dirty() && d.poffset + d.psize < 4096
  }

  /** The page with zeros from the end of its dirty part on. */
  function ZeroFilled(d: DPage): DPage
    requires d.data.Data? && d.poffset + d.psize <= 4096
  {
    var end := d.poffset + d.psize;
    DPage(Data(Copied(d.data.bytes, Zeros(), end, 4096 - end)), d.poffset, 4096 - d.poffset)
  }

  /** `lc_zeroFillLastPage`. */
  method ZeroFillLastPage(f: File) returns (r: File)
    requires f.Valid() && f.size % 4096 != 0
    ensures r == f.(table := r.table) && ValidTable(r.table) && r.Valid()
    ensures if Filled(f) then Changed(f.table, f.size / 4096, ZeroFilled(Get(f.table, f.size / 4096)), r.table)
            else r == f
  {
    r := f;
    var pg := f.size / 4096;
    if f.bmap.blocks == 0 {
      NoBlocks(f.bmap, pg);
      return;
    }
    if f.bmap.At(pg) == HOLE {
      return;
    }
    var d := FindDirtyPage(f, pg);
    if d.Dirty() && d.poffset + d.psize != 4096 {
      assert d.Fits(pg, f.size);
      assert Get(f.table, pg).Dirty();
      var t := SetPage(f.table, pg, ZeroFilled(d));
      r := f.(table := t);
      FilledValid(f, pg, d, r);
    }
  }

  lemma FilledValid(f: File, pg: nat, d: DPage, r: File)
    requires f.Valid() && d == Get(f.table, pg) && d.Dirty() && d.data.Data? && d.poffset + d.psize < 4096
    requires f.size / 4096 == pg && r == f.(table := r.table) && ValidTable(r.table)
    requires Changed(f.table, pg, ZeroFilled(d), r.table)
    requires r.table.Array? == f.table.Array? && (r.table.Array? ==> |r.table.pages| == |f.table.pages|)
    ensures r.Valid()
  {
    CountSame(f.table, r.table, PageCount(f.size));
    assert d.Fits(pg, f.size);
    var e := ZeroFilled(d);
    forall k: nat | k < 4096 && f.size <= 4096 * pg + k ensures e.data.At(k) == 0 {
    }
    assert e.Fits(pg, f.size);
    forall p: nat ensures Get(r.table, p).Fits(p, f.size) && Get(r.table, p).Dirty() == Get(f.table, p).Dirty() {
      assert Get(f.table, p).Fits(p, f.size);
    }
  }

  /** Bytes of the page in which the file ends are lost: those between its dirty part and the end of the file that come
      from the block. */
  predicate Loses(f: File, store: map<nat, Page>)
    requires ValidTable(f.table)
  {
    var pg := f.size / 4096;
    var d := Get(f.table, pg);
    Filled(f) && exists k: nat :: d.poffset + d.psize <= k < f.size % 4096 && Under(f.bmap, store, pg)[k] != 0
  }

  /** A file that only became larger. */
  lemma GrownValid(f: File, size: nat)
    requires f.Valid() && f.size <= size
    ensures f.(size := size).Valid()
  {
    var r := f.(size := size);
    BelowSize(f);
    CountBeyond(f.table, PageCount(f.size), PageCount(size));
    forall p: nat ensures Get(f.table, p).Fits(p, size) {
      assert Get(f.table, p).Fits(p, f.size);
    }
    assert f.Covered() <= r.Covered();
  }

  /** `lc_updateInodeSize` for a file that grows to `size` bytes; `zero` tells that what is added starts past its
      end. */
  method UpdateInodeSize(f: File, zero: bool, size: nat) returns (r: File)
    requires f.Valid()
    ensures r.Valid() && r.size == (if size > f.size then size else f.size) && r == f.(size := r.size, table := r.table)
    ensures if size > f.size && zero && Filled(f)
            then Changed(f.table, f.size / 4096, ZeroFilled(Get(f.table, f.size / 4096)), r.table)
            else r.table == f.table
  {
    r := f;
    if size > f.size {
      if zero && f.size % 4096 != 0 {
        r := ZeroFillLastPage(f);
      }
      GrownValid(r, size);
      r := r.(size := size);
    }
  }

  /** The bytes of a file that has grown, one by one. */
  lemma GrownByte(f: File, store: map<nat, Page>, zero: bool, r: File, q: nat, k: nat)
    requires f.Valid() && ZeroPast(f, store) && r.Valid() && f.size < r.size
    requires r == f.(size := r.size, table := r.table)
    requires if zero && Filled(f)
             then Changed(f.table, f.size / 4096, ZeroFilled(Get(f.table, f.size / 4096)), r.table)
             else r.table == f.table
    requires k < 4096 && 4096 * q + k < r.size && (4096 * q + k >= f.size ==> zero)
    ensures var d := Get(f.table, q);
            r.ByteAt(store, q, k) ==
            if zero && Filled(f) && q == f.size / 4096 && k >= d.poffset + d.psize then 0 else ByteOf(f, store, q, k)
  {
    if zero && Filled(f) && q == f.size / 4096 {
      assert Get(f.table, q).Fits(q, f.size);
      assert Get(r.table, q) == ZeroFilled(Get(f.table, q));
    } else {
      assert Get(r.table, q) == Get(f.table, q);
      if 4096 * q + k >= f.size {
        assert PageClear(f, store, q);
        PastEnd(f, store, q, k);
      }
    }
  }

  /** Past the end of a file there is nothing, except in the page that is filled. */
  lemma PastEnd(f: File, store: map<nat, Page>, q: nat, k: nat)
    requires f.Valid() && PageClear(f, store, q) && k < 4096 && 4096 * q + k >= f.size
    requires !(Filled(f) && q == f.size / 4096)
    ensures f.ByteAt(store, q, k) == 0
  {
    var d := Get(f.table, q);
    assert d.Fits(q, f.size);
    if q > f.size / 4096 || f.size % 4096 == 0 {
      PageCountIs(f.size);
      assert f.bmap.At(q) < 0 && !d.Dirty();
    } else if d.Dirty() && d.Has(k) {
      assert d.data.At(k) == 0;
    }
  }

  // ----- A larger size -----

  /** Bytes that were cut off before show again when the file is made `to` bytes long: the page in which it ends has a
      block and is dirty but not to its end, and past the end of the file the block is not zero. */
  predicate Reappears(f: File, store: map<nat, Page>, to: nat)
    requires ValidTable(f.table)
  {
    var pg := f.size / 4096;
    Filled(f) && exists k: nat :: f.size % 4096 <= k < 4096 && 4096 * pg + k < to && Under(f.bmap, store, pg)[k] != 0
  }

  /** The file has every byte it had, and zeros after them. */
  ghost predicate Extended(f: File, r: File, store: map<nat, Page>)
    requires ValidTable(f.table) && ValidTable(r.table)
  {
    forall q: nat, k: nat {:trigger ByteOf(r, store, q, k)} :: k < 4096 ==>
      ByteOf(r, store, q, k) == ByteOf(f, store, q, k)
  }

  /** `lc_truncate` to a size that is not smaller: nothing is zeroed. */
  method ExtendFile(f: File, ghost store: map<nat, Page>, to: nat) returns (r: File)
    requires f.Valid() && f.size <= to && ZeroPast(f, store)
    ensures r == f.(size := to) && r.Valid() && ZeroPast(r, store)
    ensures Extended(f, r, store) <==> !Reappears(f, store, to)
  {
    GrownValid(f, to);
    r := f.(size := to);
    forall q: nat ensures PageClear(r, store, q) {
      assert PageClear(f, store, q);
    }
    ExtendedIff(f, store, r);
  }

  lemma ExtendedIff(f: File, store: map<nat, Page>, r: File)
    requires f.Valid() && r == f.(size := r.size) && f.size <= r.size && ZeroPast(f, store)
    ensures Extended(f, r, store) <==> !Reappears(f, store, r.size)
  {
    var pg := f.size / 4096;
    var d := Get(f.table, pg);
    assert d.Fits(pg, f.size);
    if Reappears(f, store, r.size) {
      var k: nat :| f.size % 4096 <= k < 4096 && 4096 * pg + k < r.size && Under(f.bmap, store, pg)[k] != 0;
      assert ByteOf(r, store, pg, k) != 0 && ByteOf(f, store, pg, k) == 0;
    } else {
      forall q: nat, k: nat | k < 4096 ensures ByteOf(r, store, q, k) == ByteOf(f, store, q, k) {
        if f.size <= 4096 * q + k < r.size && !(Filled(f) && q == pg) {
          assert PageClear(f, store, q);
          PastEnd(f, store, q, k);
        }
      }
    }
  }

  // ----- A write -----

  /** The pieces of a write follow one another, as `lc_copyPages` cuts them at page boundaries. */
  predicate OneWrite(pieces: seq<Piece>) {
    && pieces != []
    && forall i :: 0 <= i < |pieces| ==>
         && pieces[i].psize > 0 && pieces[i].poffset + pieces[i].psize <= 4096 && (i > 0 ==> pieces[i].poffset == 0)
         && (i < |pieces| - 1 ==> pieces[i].poffset + pieces[i].psize == 4096)
  }

  function StartOf(page: nat, pieces: seq<Piece>): nat
    requires pieces != []
  {
    4096 * page + pieces[0].poffset
  }

  function EndOf(page: nat, pieces: seq<Piece>): nat
    requires pieces != []
  {
    4096 * (page + |pieces| - 1) + pieces[|pieces| - 1].poffset + pieces[|pieces| - 1].psize
  }

  lemma EndFits(page: nat, pieces: seq<Piece>, size: nat)
    requires OneWrite(pieces) && EndOf(page, pieces) <= size
    ensures WriteFits(size, page, pieces)
  {
    forall i | 0 <= i < |pieces| ensures 4096 * (page + i) + pieces[i].poffset + pieces[i].psize <= size {
      assert i < |pieces| - 1 ==> 4096 * (page + i) + 4096 <= 4096 * (page + |pieces| - 1);
    }
  }

  /** Exactly the bytes from the start to the end of a write are overwritten. */
  lemma Covers(page: nat, pieces: seq<Piece>, q: nat, k: nat)
    requires OneWrite(pieces) && k < 4096
    ensures StartOf(page, pieces) <= 4096 * q + k < EndOf(page, pieces) <==>
            page <= q < page + |pieces| &&
            pieces[q - page].poffset <= k < pieces[q - page].poffset + pieces[q - page].psize
  {
    var n := |pieces| - 1;
    if page <= q <= page + n {
      assert q - page < n ==> pieces[q - page].poffset + pieces[q - page].psize == 4096;
    }
  }

  /** The write shows, the file has grown if need be, and everything else is as it was; what was added before the start
      of the write is zero. */
  ghost predicate Wrote(f: File, r: File, store: map<nat, Page>, page: nat, pieces: seq<Piece>)
    requires ValidTable(f.table) && ValidTable(r.table) && pieces != []
  {
    && r.size == (if EndOf(page, pieces) > f.size then EndOf(page, pieces) else f.size)
    && forall q: nat, k: nat {:trigger r.ByteAt(store, q, k)} :: k < 4096 && 4096 * q + k < r.size ==>
         r.ByteAt(store, q, k) == Overwrite(page, pieces, q, k, ByteOf(f, store, q, k))
  }

  /** The byte a write finds: bytes of the page in which the file ends are zeroed from the end of its dirty part on, if
      the write starts past the end of the file. */
  function Found(f: File, store: map<nat, Page>, zero: bool, q: nat, k: nat): Byte
    requires ValidTable(f.table) && k < 4096
  {
    var d := Get(f.table, q);
    if zero && Filled(f) && q == f.size / 4096 && k >= d.poffset + d.psize then 0 else ByteOf(f, store, q, k)
  }

  /** Dirty page `q` after a write: as it was, or filled, or written to. */
  ghost predicate PageAfter(f: File, r: File, page: nat, pieces: seq<Piece>, q: nat)
    requires f.Valid() && ValidTable(r.table) && pieces != []
  {
    var d := Get(f.table, q);
    && (d.Dirty() ==> Get(r.table, q).Dirty())
    && (!(page <= q < page + |pieces|) ==>
          Get(r.table, q) == if StartOf(page, pieces) > f.size && Filled(f) && q == f.size / 4096
                             then WhenFilled(d) else d)
  }

  ghost predicate PagesAfter(f: File, r: File, page: nat, pieces: seq<Piece>)
    requires f.Valid() && ValidTable(r.table) && pieces != []
  {
    forall q: nat {:trigger PageAfter(f, r, page, pieces, q)} :: PageAfter(f, r, page, pieces, q)
  }

  /** The page with zeros from the end of its dirty part on, if it has a buffer of its own. */
  function WhenFilled(d: DPage): DPage {
    if d.data.Data? && d.poffset + d.psize <= 4096 then ZeroFilled(d) else d
  }

  /** `lc_addPages`. The write shows as it should, unless it starts past the end of the file and the page in which the
      file ends loses bytes. */
  method WriteFile(f: File, store: map<nat, Page>, page: nat, pieces: seq<Piece>) returns (r: File, added: nat)
    requires f.Valid() && ZeroPast(f, store) && OneWrite(pieces)
    ensures r.Valid() && r.bmap == f.bmap && ZeroPast(r, store)
    ensures Wrote(f, r, store, page, pieces) <==> !(StartOf(page, pieces) > f.size && Loses(f, store))
    ensures r.size == if EndOf(page, pieces) > f.size then EndOf(page, pieces) else f.size
    ensures forall q: nat, k: nat {:trigger r.ByteAt(store, q, k)} :: k < 4096 && 4096 * q + k < r.size ==>
              r.ByteAt(store, q, k) ==
              Overwrite(page, pieces, q, k, Found(f, store, StartOf(page, pieces) > f.size, q, k))
    ensures PagesAfter(f, r, page, pieces)
  {
    var zero, end := StartOf(page, pieces) > f.size, EndOf(page, pieces);
    var g := UpdateInodeSize(f, zero, end);
    EndFits(page, pieces, g.size);
    r, added := AddPages(g, store, page, pieces);
    AllPagesAfter(f, g, r, page, pieces);
    StaysClear(f, store, r, page, pieces);
    forall q: nat, k: nat | k < 4096 && 4096 * q + k < r.size
      ensures r.ByteAt(store, q, k) == Overwrite(page, pieces, q, k, Found(f, store, zero, q, k))
    {
      FoundByte(f, store, zero, g, page, pieces, q, k);
    }
    WroteIff(f, store, r, page, pieces);
  }

  /** What the size of a file was changed to before a write. */
  ghost predicate Grown(f: File, zero: bool, end: nat, g: File)
    requires f.Valid()
  {
    && g.Valid() && g.size == (if end > f.size then end else f.size) && g == f.(size := g.size, table := g.table)
    && (Filled(f) ==> Get(f.table, f.size / 4096).Fits(f.size / 4096, f.size))
    && if end > f.size && zero && Filled(f)
       then Changed(f.table, f.size / 4096, ZeroFilled(Get(f.table, f.size / 4096)), g.table)
       else g.table == f.table
  }

  lemma AllPagesAfter(f: File, g: File, r: File, page: nat, pieces: seq<Piece>)
    requires f.Valid() && pieces != [] && Grown(f, StartOf(page, pieces) > f.size, EndOf(page, pieces), g)
    requires EndOf(page, pieces) > StartOf(page, pieces)
    requires ValidTable(r.table) && Beside(g.table, r.table, page, |pieces|)
    ensures PagesAfter(f, r, page, pieces)
  {
    forall q: nat ensures PageAfter(f, r, page, pieces, q) {
      assert BesideAt(g.table, r.table, page, |pieces|, q);
      assert Get(f.table, q).Fits(q, f.size);
      assert Get(g.table, q) == Get(g.table, q);
    }
  }

  lemma StaysClear(f: File, store: map<nat, Page>, r: File, page: nat, pieces: seq<Piece>)
    requires f.Valid() && r.Valid() && ZeroPast(f, store) && f.size <= r.size && r.bmap == f.bmap
    requires pieces != [] && PagesAfter(f, r, page, pieces)
    ensures ZeroPast(r, store)
  {
    forall q: nat ensures PageClear(r, store, q) {
      assert PageClear(f, store, q) && PageAfter(f, r, page, pieces, q);
    }
  }

  lemma FoundByte(f: File, store: map<nat, Page>, zero: bool, g: File, page: nat, pieces: seq<Piece>, q: nat, k: nat)
    requires f.Valid() && ZeroPast(f, store) && OneWrite(pieces) && zero == (StartOf(page, pieces) > f.size)
    requires Grown(f, zero, EndOf(page, pieces), g) && k < 4096 && 4096 * q + k < g.size
    ensures Overwrite(page, pieces, q, k, g.ByteAt(store, q, k)) ==
            Overwrite(page, pieces, q, k, Found(f, store, zero, q, k))
  {
    Covers(page, pieces, q, k);
    if g.size > f.size && (4096 * q + k >= f.size ==> zero) {
      GrownByte(f, store, zero, g, q, k);
    }
  }

  lemma WroteIff(f: File, store: map<nat, Page>, r: File, page: nat, pieces: seq<Piece>)
    requires f.Valid() && ValidTable(r.table) && OneWrite(pieces)
    requires r.size == if EndOf(page, pieces) > f.size then EndOf(page, pieces) else f.size
    requires forall q: nat, k: nat {:trigger r.ByteAt(store, q, k)} :: k < 4096 && 4096 * q + k < r.size ==>
               r.ByteAt(store, q, k) ==
               Overwrite(page, pieces, q, k, Found(f, store, StartOf(page, pieces) > f.size, q, k))
    ensures Wrote(f, r, store, page, pieces) <==> !(StartOf(page, pieces) > f.size && Loses(f, store))
  {
    var zero, pg := StartOf(page, pieces) > f.size, f.size / 4096;
    var d := Get(f.table, pg);
    assert d.Fits(pg, f.size);
    if zero && Loses(f, store) {
      var k: nat :| d.poffset + d.psize <= k < f.size % 4096 && Under(f.bmap, store, pg)[k] != 0;
      Covers(page, pieces, pg, k);
      assert r.ByteAt(store, pg, k) == 0 && ByteOf(f, store, pg, k) != 0;
    } else {
      forall q: nat, k: nat | k < 4096 ensures Found(f, store, zero, q, k) == ByteOf(f, store, q, k) {
      }
    }
  }

  /** A truncated file keeps no bytes past its end, except in a page that is to be written. */
  lemma CutClear(f: File, store: map<nat, Page>, to: nat, junk: Page, r: File)
    requires f.Valid() && to <= f.size && TruncatedTo(f, to, junk, r)
    ensures ZeroPast(r, store)
  {
    PageCountIs(to);
    forall q: nat ensures PageClear(r, store, q) {
      assert Get(r.table, q) == EndPage(Get(f.table, q), q, to, EndMapped(f, to), junk);
      assert r.bmap.At(q) == if q < PageCount(to) then f.bmap.At(q) else HOLE;
    }
  }

  // ----- The loss -----

  lemma EndsFilled(f: File, to: nat, junk: Page, g: File)
    requires f.Valid() && TruncatedTo(f, to, junk, g) && EndMapped(f, to) && !Get(f.table, to / 4096).Dirty()
    ensures Filled(g) && Get(g.table, to / 4096) == DPage(Data(junk), 0, 0)
  {
    PageCountIs(to);
    var pg := to / 4096;
    assert Get(g.table, pg) == EndPage(Get(f.table, pg), pg, to, true, junk);
    assert g.bmap.At(pg) == f.bmap.At(pg);
  }

  /** A file is truncated inside a page that has a block and is not dirty, and then written to past its new end: all
      that is left of the page is gone. */
  method TruncateAndWrite(f: File, store: map<nat, Page>, to: nat, page: nat, pieces: seq<Piece>, junk: Page)
      returns (r: File)
    requires f.Valid() && to <= f.size && EndMapped(f, to) && !UsesHash(f, to) && !Get(f.table, to / 4096).Dirty()
    requires OneWrite(pieces) && StartOf(page, pieces) > to
    ensures r.Valid() && r.size == EndOf(page, pieces)
    ensures forall k: nat {:trigger r.ByteAt(store, to / 4096, k)} :: k < to % 4096 ==>
              r.ByteAt(store, to / 4096, k) == 0
  {
    var pg := to / 4096;
    var g, freed, ok := TruncateFile(f, to, false, junk);
    CutClear(f, store, to, junk, g);
    var added;
    r, added := WriteFile(g, store, page, pieces);
    EndsFilled(f, to, junk, g);
    forall k: nat | k < to % 4096 ensures r.ByteAt(store, pg, k) == 0 {
      FilledGone(g, store, page, pieces, junk, k);
    }
  }

  lemma FilledGone(g: File, store: map<nat, Page>, page: nat, pieces: seq<Piece>, junk: Page, k: nat)
    requires ValidTable(g.table) && OneWrite(pieces) && StartOf(page, pieces) > g.size && k < g.size % 4096
    requires Filled(g) && Get(g.table, g.size / 4096) == DPage(Data(junk), 0, 0)
    ensures Overwrite(page, pieces, g.size / 4096, k, Found(g, store, true, g.size / 4096, k)) == 0
  {
    Covers(page, pieces, g.size / 4096, k);
  }

  /** A file of 5000 bytes in two blocks. */
  method TwoBlocks(block: nat) returns (f: File)
    requires block > 0
    ensures f.Valid() && f.size == 5000 && f.bmap == BlockMap([], block, 2, 2) && f.table == Array([])
  {
    f := File(5000, BlockMap([], block, 2, 2), Array([]), 0, 0, 0);
    CountNone(f.table, PageCount(f.size));
  }

  /** The first 100 bytes of such a file, which are what is left after a truncation, read as zeros after a write at
      offset 12288, whatever they were. */
  method FirstBytesLost(store: map<nat, Page>, block: nat, piece: Page, junk: Page) returns (f: File, r: File)
    requires block > 0 && ReadBlock(store, block)[0] != 0
    ensures f.Valid() && f.size == 5000 && f.ByteAt(store, 0, 0) != 0
    ensures r.Valid() && r.size > 5000 && r.ByteAt(store, 0, 0) == 0
  {
    f := TwoBlocks(block);
    r := TruncateAndWrite(f, store, 100, 3, [Piece(piece, 0, 1)], junk);
    assert 0 < 100 % 4096 && r.ByteAt(store, 100 / 4096, 0) == 0;
  }

  /** A file is truncated inside a page that has a block and is not dirty, and then made larger again: what was cut off
      of the page is back. */
  method TruncateAndExtend(f: File, store: map<nat, Page>, to: nat, size: nat, junk: Page) returns (r: File)
    requires f.Valid() && to <= f.size && EndMapped(f, to) && !UsesHash(f, to) && !Get(f.table, to / 4096).Dirty()
    requires to <= size
    ensures r.Valid() && r.size == size
    ensures forall k: nat {:trigger r.ByteAt(store, to / 4096, k)} :: k < 4096 ==>
              r.ByteAt(store, to / 4096, k) == f.ByteAt(store, to / 4096, k)
  {
    var g, freed, ok := TruncateFile(f, to, false, junk);
    CutClear(f, store, to, junk, g);
    r := ExtendFile(g, store, size);
    EndsFilled(f, to, junk, g);
    assert r.bmap.At(to / 4096) == g.bmap.At(to / 4096) == f.bmap.At(to / 4096) by {
      PageCountIs(to);
    }
  }

  /** A file of 5000 bytes that is truncated to 100 and then made 200 bytes long has its old byte 150. */
  method CutBytesBack(store: map<nat, Page>, block: nat, junk: Page) returns (f: File, r: File)
    requires block > 0 && ReadBlock(store, block)[150] != 0
    ensures f.Valid() && f.size == 5000 && r.Valid() && r.size == 200
    ensures r.ByteAt(store, 0, 150) == f.ByteAt(store, 0, 150) != 0
  {
    f := TwoBlocks(block);
    r := TruncateAndExtend(f, store, 100, 200, junk);
    assert r.ByteAt(store, 100 / 4096, 150) == f.ByteAt(store, 100 / 4096, 150);
  }
}
