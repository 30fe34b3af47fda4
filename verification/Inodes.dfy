/** Writing to a file and reading it back: the dirty pages of an inode over its block map (lcfs/page.c). */
module Inodes {
  import opened Extents
  import opened Emap
  import opened Pages

  /** Two tables hold the same dirty pages. */
  ghost predicate SameTable(t: Table, r: Table)
    requires ValidTable(t) && ValidTable(r)
  {
    forall q: nat {:trigger Get(r, q)} :: Get(r, q) == Get(t, q)
  }

  lemma SameFile(f: File, t: Table)
    requires f.Valid() && ValidTable(t) && SameTable(f.table, t)
    requires t.Hashed? || PageCount(f.size) < |t.pages|
    ensures f.(table := t).Valid()
  {
    CountSame(f.table, t, PageCount(f.size));
  }

  /** The part of `lc_inodeAllocPages` that moves the dirty pages to a hash table. */
  method HashPages(f: File) returns (t: Table)
    requires f.Valid() && f.table.Array?
    ensures ValidTable(t) && t.Hashed? && SameTable(f.table, t)
  {
    t := Hashed(seq(1024, i => []));
    if f.dirty > 0 {
      var i := f.first;
      while i <= f.last
        invariant i <= f.last + 1 && ValidTable(t) && t.Hashed?
        invariant forall q: nat {:trigger Get(t, q)} :: Get(t, q) == if q < i then Get(f.table, q) else EMPTY
      {
        assert Get(f.table, f.last).Dirty();
        if f.table.pages[i].Dirty() {
          assert Get(f.table, i) == f.table.pages[i];
          t := SetPage(t, i, f.table.pages[i]);
        }
        i := i + 1;
      }
    } else {
      CountNone(f.table, PageCount(f.size));
    }
  }

  /** `lc_inodeAllocPages`: room for all pages of the file, in a longer array or a hash table. */
  method AllocPages(f: File) returns (r: File)
    requires f.Valid()
    ensures r.Valid() && r == f.(table := r.table) && SameTable(f.table, r.table)
    ensures r.table.Hashed? || PageCount(f.size) < |r.table.pages|
    ensures r.table.Hashed? <==> f.table.Hashed? || f.size > 1024 * 4096
  {
    r := f;
    if f.table.Hashed? {
      return;
    }
    if f.size > 1024 * 4096 {
      var t := HashPages(f);
      SameFile(f, t);
      r := f.(table := t);
    } else {
      var lpage, have := PageCount(f.size), |f.table.pages|;
      if have <= lpage {
        var count := if have > 0 then 2 * have else if lpage > 0 then lpage + 1 else 32;
        while count <= lpage
          invariant have <= count && count > 0
        {
          count := 2 * count;
        }
        var t := Array(f.table.pages + seq(count - have, i => EMPTY));
        SameFile(f, t);
        r := f.(table := t);
      }
    }
  }

  /** `lc_findDirtyPage`. */
  method FindDirtyPage(f: File, pg: nat) returns (d: DPage)
    requires f.Valid()
    ensures d == Get(f.table, pg)
  {
    if f.table.Hashed? {
      if f.dirty == 0 || pg < f.first || pg > f.last {
        CountNone(f.table, PageCount(f.size));
        GetEmpty(f.table, pg);
        return EMPTY;
      }
      var c := f.table.chains[Hash(pg)];
      var i := FindInChain(c, pg);
      d := if i < |c| && c[i].pg == pg then c[i].page else EMPTY;
    } else {
      d := if pg < |f.table.pages| && f.table.pages[pg].Dirty() then f.table.pages[pg] else EMPTY;
    }
  }

  /** The table has room for every page of the file and the markers are set up. */
  predicate Ready(f: File) {
    && (f.table.Hashed? || PageCount(f.size) < |f.table.pages|)
    && (f.dirty == 0 ==> f.first == PageCount(f.size) + 1 && f.last == 0)
  }

  /** Page `pg` is now `d` and the markers cover it. */
  lemma FileSet(f: File, pg: nat, d: DPage, r: File)
    requires f.Valid() && Ready(f) && d.Dirty() && d.Fits(pg, f.size)
    requires ValidTable(r.table) && Changed(f.table, pg, d, r.table)
    requires r.table.Hashed? || PageCount(f.size) < |r.table.pages|
    requires r == f.(table := r.table, dirty := r.dirty, first := r.first, last := r.last)
    requires r.dirty == f.dirty + if Get(f.table, pg).Dirty() then 0 else 1
    requires r.first == (if f.first > pg then pg else f.first) && r.last == if f.last < pg then pg else f.last
    ensures r.Valid() && Ready(r)
  {
    CountChanged(f.table, pg, d, r.table, PageCount(f.size));
    CountNone(f.table, PageCount(f.size));
    assert Get(r.table, pg) == d;
    if f.dirty > 0 {
      assert Get(f.table, f.first).Dirty() && Get(f.table, f.last).Dirty();
      assert Get(r.table, f.first).Dirty() && Get(r.table, f.last).Dirty();
    }
  }

  /** Pages other than `n` pages from `page` on are as they were, and pages that were dirty still are. */
  ghost predicate Beside(t: Table, r: Table, page: nat, n: nat)
    requires ValidTable(t) && ValidTable(r)
  {
    forall q: nat {:trigger BesideAt(t, r, page, n, q)} :: BesideAt(t, r, page, n, q)
  }

  ghost predicate BesideAt(t: Table, r: Table, page: nat, n: nat, q: nat)
    requires ValidTable(t) && ValidTable(r)
  {
    (!(page <= q < page + n) ==> Get(r, q) == Get(t, q)) && (Get(t, q).Dirty() ==> Get(r, q).Dirty())
  }

  lemma BesideNext(t: Table, r: Table, r': Table, page: nat, n: nat)
    requires ValidTable(t) && ValidTable(r) && ValidTable(r') && Beside(t, r, page, n) && Beside(r, r', page + n, 1)
    ensures Beside(t, r', page, n + 1)
  {
    var one, more := page + n, n + 1;
    forall q: nat ensures BesideAt(t, r', page, more, q) {
      assert BesideAt(t, r, page, n, q) && BesideAt(r, r', one, 1, q);
    }
  }

  lemma BesideSame(t: Table, g: Table, r: Table, page: nat, n: nat)
    requires ValidTable(t) && ValidTable(g) && ValidTable(r) && SameTable(t, g) && Beside(g, r, page, n)
    ensures Beside(t, r, page, n)
  {
    forall q: nat ensures BesideAt(t, r, page, n, q) {
      assert BesideAt(g, r, page, n, q) && Get(g, q) == Get(t, q);
    }
  }

  /** Bytes of page `pg` of file `r` are those of `f` with `psize` bytes at `poffset` replaced. */
  ghost predicate Written(f: File, r: File, store: map<nat, Page>, pg: nat, bytes: Page, poffset: nat, psize: nat)
    requires ValidTable(f.table) && ValidTable(r.table)
  {
    forall q: nat, k: nat {:trigger r.ByteAt(store, q, k)} :: k < 4096 && 4096 * q + k < f.size ==>
      r.ByteAt(store, q, k) == if q == pg && poffset <= k < poffset + psize then bytes[k] else f.ByteAt(store, q, k)
  }

  /** `lc_mergePage`: what a reader sees of the page is overwritten on the given range, and the answer counts the
      pages that were not dirty before. */
  method MergePage(f: File, store: map<nat, Page>, pg: nat, bytes: Page, poffset: nat, psize: nat)
    returns (r: File, added: nat)
    requires f.Valid() && Ready(f) && psize > 0 && poffset + psize <= 4096 && 4096 * pg + poffset + psize <= f.size
    ensures r.Valid() && Ready(r) && r.size == f.size && r.bmap == f.bmap
    ensures Written(f, r, store, pg, bytes, poffset, psize) && Beside(f.table, r.table, pg, 1)
    ensures r.dirty == f.dirty + added && added == if Get(f.table, pg).Dirty() then 0 else 1
  {
    var d := FindDirtyPage(f, pg);
    assert d.Fits(pg, f.size);
    var d';
    d', added := MergeData(f.bmap, store, f.size, pg, d, bytes, poffset, psize);
    var t := SetPage(f.table, pg, d');
    r := f.(table := t, dirty := f.dirty + added,
            first := if f.first > pg then pg else f.first, last := if f.last < pg then pg else f.last);
    FileSet(f, pg, d', r);
  }

  /** One page of a write: a buffer and the range of it that is written. */
  datatype Piece = Piece(bytes: Page, poffset: nat, psize: nat)

  /** `lc_initInodePageMarkers`. */
  function InitMarkers(f: File): File {
    f.(first := PageCount(f.size) + 1, last := 0)
  }

  /** The pieces of a write lie within the file, one page after the other. */
  predicate WriteFits(size: nat, page: nat, pieces: seq<Piece>) {
    forall i :: 0 <= i < |pieces| ==>
      && pieces[i].psize > 0 && pieces[i].poffset + pieces[i].psize <= 4096
      && 4096 * (page + i) + pieces[i].poffset + pieces[i].psize <= size
  }

  /** The byte a write leaves at offset `k` of page `q`. */
  function Overwrite(page: nat, pieces: seq<Piece>, q: nat, k: nat, was: Byte): Byte
    requires k < 4096
  {
    if page <= q < page + |pieces| && pieces[q - page].poffset <= k < pieces[q - page].poffset + pieces[q - page].psize
    then pieces[q - page].bytes[k] else was
  }

  ghost predicate AllWritten(f: File, r: File, store: map<nat, Page>, page: nat, pieces: seq<Piece>)
    requires ValidTable(f.table) && ValidTable(r.table)
  {
    forall q: nat, k: nat {:trigger r.ByteAt(store, q, k)} :: k < 4096 && 4096 * q + k < f.size ==>
      r.ByteAt(store, q, k) == Overwrite(page, pieces, q, k, f.ByteAt(store, q, k))
  }

  /** All pieces are zeros on the range they write. */
  predicate AllZero(pieces: seq<Piece>)
    requires forall i :: 0 <= i < |pieces| ==> pieces[i].poffset + pieces[i].psize <= 4096
  {
    forall i :: 0 <= i < |pieces| ==> ZeroPiece(pieces[i])
  }

  predicate ZeroPiece(p: Piece)
    requires p.poffset + p.psize <= 4096
  {
    forall k :: p.poffset <= k < p.poffset + p.psize ==> p.bytes[k] == 0
  }

  lemma EmptyFile(f: File, store: map<nat, Page>, q: nat, k: nat)
    requires f.Valid() && f.dirty == 0 && f.bmap.blocks == 0 && k < 4096
    ensures f.ByteAt(store, q, k) == 0
  {
    CountNone(f.table, PageCount(f.size));
    assert !Get(f.table, q).Dirty();
    LookupHole(f.bmap.list, q);
    if f.bmap.list != [] {
      EmapIs(f.bmap.list);
    }
  }

  lemma WrittenNext(f: File, r: File, r': File, store: map<nat, Page>, page: nat, pieces: seq<Piece>, i: nat)
    requires ValidTable(f.table) && ValidTable(r.table) && ValidTable(r'.table) && i < |pieces| && r.size == f.size
    requires AllWritten(f, r, store, page, pieces[..i])
    requires Written(r, r', store, page + i, pieces[i].bytes, pieces[i].poffset, pieces[i].psize)
    ensures AllWritten(f, r', store, page, pieces[..i + 1])
  {
    forall q: nat, k: nat | k < 4096 && 4096 * q + k < f.size
      ensures r'.ByteAt(store, q, k) == Overwrite(page, pieces[..i + 1], q, k, f.ByteAt(store, q, k))
    {
      assert r.ByteAt(store, q, k) == Overwrite(page, pieces[..i], q, k, f.ByteAt(store, q, k));
    }
  }

  /** The loop of `lc_addPages`. */
  method MergePages(f: File, store: map<nat, Page>, page: nat, pieces: seq<Piece>) returns (r: File, added: nat)
    requires f.Valid() && Ready(f) && WriteFits(f.size, page, pieces)
    ensures r.Valid() && r.size == f.size && r.bmap == f.bmap
    ensures AllWritten(f, r, store, page, pieces) && Beside(f.table, r.table, page, |pieces|)
    ensures r.dirty == f.dirty + added
  {
    r, added := f, 0;
    var i := 0;
    while i < |pieces|
      invariant i <= |pieces| && r.Valid() && Ready(r) && r.size == f.size && r.bmap == f.bmap
      invariant AllWritten(f, r, store, page, pieces[..i]) && r.dirty == f.dirty + added
      invariant Beside(f.table, r.table, page, i)
    {
      var r', n := MergePage(r, store, page + i, pieces[i].bytes, pieces[i].poffset, pieces[i].psize);
      WrittenNext(f, r, r', store, page, pieces, i);
      BesideNext(f.table, r.table, r'.table, page, i);
      r, added, i := r', added + n, i + 1;
    }
    assert pieces[..i] == pieces;
  }

  /** Room for the pages of a write. */
  method PreparePages(f: File) returns (r: File)
    requires f.Valid()
    ensures r.Valid() && Ready(r) && r.size == f.size && r.bmap == f.bmap && r.dirty == f.dirty
    ensures SameTable(f.table, r.table)
  {
    r := f;
    if f.dirty == 0 {
      CountNone(f.table, PageCount(f.size));
      r := InitMarkers(f);
    }
    r := AllocPages(r);
  }

  lemma ZerosWritten(f: File, store: map<nat, Page>, page: nat, pieces: seq<Piece>)
    requires f.Valid() && f.bmap.blocks == 0 && f.dirty == 0 && WriteFits(f.size, page, pieces) && AllZero(pieces)
    ensures AllWritten(f, f, store, page, pieces)
  {
    forall q: nat, k: nat | k < 4096 ensures f.ByteAt(store, q, k) == 0 {
      EmptyFile(f, store, q, k);
    }
  }

  /** `lc_addPages` once the size of the file is right. */
  method AddPages(f: File, store: map<nat, Page>, page: nat, pieces: seq<Piece>) returns (r: File, added: nat)
    requires f.Valid() && WriteFits(f.size, page, pieces)
    ensures r.Valid() && r.size == f.size && r.bmap == f.bmap
    ensures AllWritten(f, r, store, page, pieces) && Beside(f.table, r.table, page, |pieces|)
    ensures r.dirty == f.dirty + added
  {
    r, added := f, 0;
    if f.bmap.blocks == 0 && f.dirty == 0 && AllZero(pieces) {
      ZerosWritten(f, store, page, pieces);
      return;
    }
    var r1 := PreparePages(f);
    r, added := MergePages(r1, store, page, pieces);
    SameWritten(f, r1, r, store, page, pieces);
    BesideSame(f.table, r1.table, r.table, page, |pieces|);
  }

  lemma SameWritten(f: File, r1: File, r: File, store: map<nat, Page>, page: nat, pieces: seq<Piece>)
    requires ValidTable(f.table) && ValidTable(r1.table) && ValidTable(r.table) && SameTable(f.table, r1.table)
    requires r1.bmap == f.bmap && r1.size == f.size && AllWritten(r1, r, store, page, pieces)
    ensures AllWritten(f, r, store, page, pieces)
  {
    forall q: nat, k: nat | k < 4096 && 4096 * q + k < f.size
      ensures r.ByteAt(store, q, k) == Overwrite(page, pieces, q, k, f.ByteAt(store, q, k))
    {
      assert r1.ByteAt(store, q, k) == f.ByteAt(store, q, k);
    }
  }
}
