/**
  * Dirty pages of a file (lcfs/page.c). A dirty page may hold only part of a page; what it does not hold shows
  * through from the block of the page, or reads as zeros if there is none.
  */
module Pages {
  import opened Extents
  import opened Emap

  newtype Byte = b: int | 0 <= b < 256

  type Page = s: seq<Byte> | |s| == 4096 witness seq(4096, i => 0)

  /** `gfs_zPage` as bytes. */
  function Zeros(): (z: Page)
    ensures forall k :: 0 <= k < 4096 ==> z[k] == 0
  {
    seq(4096, i => 0)
  }

  /** `dp_data`: no buffer, the shared page of zeros, or a buffer. */
  datatype PData = NoData | ZeroPage | Data(bytes: Page) {
    function At(k: nat): Byte
      requires k < 4096
    {
      if Data? then bytes[k] else 0
    }
  }

  /** `struct dpage`: the buffer is valid on psize bytes from poffset on. */
  datatype DPage = DPage(data: PData, poffset: nat, psize: nat) {
    predicate Dirty() {
      !data.NoData?
    }

    predicate Full() {
      poffset == 0 && psize == 4096
    }

    predicate Has(k: nat) {
      poffset <= k < poffset + psize
    }

    /** What a reader sees at offset `k` when the page below has `under` there. */
    function Over(k: nat, under: Byte): Byte
      requires k < 4096
    {
      if Dirty() && Has(k) then data.At(k) else under
    }

    /** Past the end of a file of `size` bytes there are zeros. */
    predicate ClearPast(pg: nat, size: nat) {
      forall k: nat :: k < 4096 && size <= 4096 * pg + k ==> data.At(k) == 0
    }

    /** A dirty page ends within a file of `size` bytes, or at its own end and has zeros past the end of the file; the
        shared page of zeros is never partial. */
    predicate Fits(pg: nat, size: nat) {
      Dirty() ==>
        && 4096 * pg < size && 4096 * pg + poffset <= size && poffset + psize <= 4096 && (data.ZeroPage? ==> Full())
        && (4096 * pg + poffset + psize <= size || (poffset + psize == 4096 && ClearPast(pg, size)))
    }
  }

  const EMPTY: DPage := DPage(NoData, 0, 0)

  // ----- Contents -----

  /** The content of a block, through the block cache. */
  function ReadBlock(store: map<nat, Page>, b: nat): Page {
    if b in store then store[b] else Zeros()
  }

  /** The content of page `pg` without its dirty data. */
  function Under(m: BlockMap, store: map<nat, Page>, pg: nat): Page {
    if m.At(pg) < 0 then Zeros() else ReadBlock(store, m.At(pg))
  }

  /** The bytes of a file of `size` bytes in page `pg`: two versions agree below the end of the file. */
  ghost predicate SameBytes(size: nat, pg: nat, a: DPage, under: Page, b: DPage, under': Page) {
    forall k :: 0 <= k < 4096 && 4096 * pg + k < size ==> a.Over(k, under[k]) == b.Over(k, under'[k])
  }

  /** The buffer with `n` bytes from `off` on copied in from another. */
  function Copied(to: Page, from: Page, off: nat, n: nat): (r: Page)
    requires off + n <= 4096
    ensures forall k :: 0 <= k < 4096 ==> r[k] == if off <= k < off + n then from[k] else to[k]
  {
    to[..off] + from[off..off + n] + to[off + n..]
  }

  /** `lc_fillPage`: a partial page becomes a full one, from the block below or with zeros. */
  method FillPage(m: BlockMap, store: map<nat, Page>, size: nat, pg: nat, d: DPage) returns (r: DPage)
    requires d.data.Data? && d.Fits(pg, size)
    ensures r.Full() && r.data.Data? && r.ClearPast(pg, size)
    ensures SameBytes(size, pg, r, Under(m, store, pg), d, Under(m, store, pg))
  {
    var have, data := false, Zeros();
    if d.poffset != 0 || 4096 * pg + d.psize < size {
      var b := m.At(pg);
      if b >= 0 {
        have, data := true, ReadBlock(store, b);
      }
    }
    var pdata := Copied(d.data.bytes, data, 0, d.poffset);
    var end := d.poffset + d.psize;
    if end == 4096 {
      forall k: nat | k < 4096 && size <= 4096 * pg + k ensures pdata[k] == 0 {
        assert d.data.At(k) == d.data.bytes[k];
      }
    } else if have {
      var eof := if pg == size / 4096 && size % 4096 != 0 then size % 4096 else 4096;
      pdata := Copied(pdata, Zeros(), eof, 4096 - eof);
      pdata := Copied(pdata, data, end, eof - end);
    } else {
      pdata := Copied(pdata, Zeros(), end, 4096 - end);
    }
    r := DPage(Data(pdata), 0, 4096);
  }

  /** `lc_mergePage` on the page it finds: writes `psize` bytes at `poffset` over what the file has there. */
  method MergeData(m: BlockMap, store: map<nat, Page>, size: nat, pg: nat, d: DPage, bytes: Page, poffset: nat,
                   psize: nat) returns (r: DPage, added: nat)
    requires psize > 0 && poffset + psize <= 4096 && 4096 * pg + poffset + psize <= size && d.Fits(pg, size)
    ensures r.Dirty() && r.Fits(pg, size)
    ensures forall k :: 0 <= k < 4096 && 4096 * pg + k < size ==>
              r.Over(k, Under(m, store, pg)[k]) ==
              if poffset <= k < poffset + psize then bytes[k] else d.Over(k, Under(m, store, pg)[k])
    ensures added == if d.Dirty() then 0 else 1
  {
    var whole := poffset == 0 && psize == 4096;
    var data := if whole && bytes == Zeros() then ZeroPage else Data(bytes);
    if !d.Dirty() {
      return DPage(data, poffset, psize), 1;
    }
    added := 0;
    if d.data.ZeroPage? {
      r := d;
      if data.Data? {
        r := DPage(Data(Copied(Zeros(), bytes, poffset, psize)), 0, 4096);
      }
      return;
    }
    if data.ZeroPage? || whole {
      return DPage(data, 0, 4096), 0;
    }
    r := d;
    if !d.Full() && (poffset < d.poffset || poffset + psize > d.poffset + d.psize) {
      if poffset + psize < d.poffset || poffset > d.poffset + d.psize {
        r := FillPage(m, store, size, pg, d);
      } else {
        var doff := if poffset < d.poffset then poffset else d.poffset;
        var dend := if poffset + psize > d.poffset + d.psize then poffset + psize else d.poffset + d.psize;
        r := DPage(d.data, doff, dend - doff);
      }
    }
    ghost var was := r;
    r := r.(data := Data(Copied(r.data.bytes, bytes, poffset, psize)));
    forall k: nat | k < 4096 && size <= 4096 * pg + k ensures r.data.At(k) == was.data.At(k) {
    }
  }

  // ----- The table of dirty pages -----

  /** `struct dhpage`. */
  datatype HPage = HPage(pg: nat, page: DPage)

  /** `i_page`, an array indexed by page, or `i_hpage`, LC_DHASH_MIN lists of pages. */
  datatype Table = Array(pages: seq<DPage>) | Hashed(chains: seq<seq<HPage>>)

  /** `lc_dpageHash`. */
  function Hash(pg: nat): nat {
    pg % 1024
  }

  /** A list of the hash table is sorted by descending page. */
  predicate Chain(c: seq<HPage>) {
    c == [] || (c[0].page.Dirty() && (|c| > 1 ==> c[1].pg < c[0].pg) && Chain(c[1..]))
  }

  function InChain(c: seq<HPage>, pg: nat): DPage {
    if c == [] then EMPTY else if c[0].pg == pg then c[0].page else InChain(c[1..], pg)
  }

  /** The pages of list `h` of the hash table belong there. */
  predicate InPlace(c: seq<HPage>, h: nat) {
    forall k {:trigger c[k]} :: 0 <= k < |c| ==> Hash(c[k].pg) == h
  }

  predicate ValidTable(t: Table) {
    t.Hashed? ==> |t.chains| == 1024 && forall h :: 0 <= h < 1024 ==> Chain(t.chains[h]) && InPlace(t.chains[h], h)
  }

  /** The dirty page `pg` of the file, or EMPTY. */
  function Get(t: Table, pg: nat): DPage
    requires ValidTable(t)
  {
    if t.Array? then (if pg < |t.pages| && t.pages[pg].Dirty() then t.pages[pg] else EMPTY)
    else InChain(t.chains[Hash(pg)], pg)
  }

  /** Only page `pg` of the table changed. */
  ghost predicate Changed(t: Table, pg: nat, d: DPage, r: Table)
    requires ValidTable(t) && ValidTable(r)
  {
    forall q: nat {:trigger Get(r, q)} :: Get(r, q) == if q == pg then d else Get(t, q)
  }

  lemma {:induction false} ChainBelow(c: seq<HPage>, pg: nat)
    requires Chain(c) && (c != [] ==> c[0].pg < pg)
    ensures InChain(c, pg) == EMPTY
  {
    if c != [] {
      ChainBelow(c[1..], pg);
    }
  }

  lemma {:induction false} ChainDirty(c: seq<HPage>, pg: nat)
    requires Chain(c)
    ensures InChain(c, pg).Dirty() || InChain(c, pg) == EMPTY
  {
    if c != [] {
      ChainDirty(c[1..], pg);
    }
  }

  lemma GetEmpty(t: Table, pg: nat)
    requires ValidTable(t) && !Get(t, pg).Dirty()
    ensures Get(t, pg) == EMPTY
  {
    if t.Hashed? {
      ChainDirty(t.chains[Hash(pg)], pg);
    }
  }

  /** `lc_findDirtyPage` in a list: stops when a smaller page is met. */
  method FindInChain(c: seq<HPage>, pg: nat) returns (i: nat)
    requires Chain(c)
    ensures i <= |c| && (i < |c| ==> c[i].pg <= pg)
    ensures i < |c| && c[i].pg == pg ==> InChain(c, pg) == c[i].page
    ensures !(i < |c| && c[i].pg == pg) ==> InChain(c, pg) == EMPTY
    ensures forall j :: 0 <= j < i ==> pg < c[j].pg
  {
    i := 0;
    while i < |c| && pg < c[i].pg
      invariant i <= |c| && Chain(c[i..]) && InChain(c, pg) == InChain(c[i..], pg)
      invariant forall j :: 0 <= j < i ==> pg < c[j].pg
    {
      assert c[i..][1..] == c[i + 1..];
      i := i + 1;
    }
    if i < |c| && c[i].pg != pg {
      ChainBelow(c[i..], pg);
    }
  }

  lemma {:induction false} ChainConcat(a: seq<HPage>, b: seq<HPage>)
    requires Chain(a) && Chain(b) && (a != [] && b != [] ==> b[0].pg < a[|a| - 1].pg)
    ensures Chain(a + b)
  {
    if a != [] {
      ChainConcat(a[1..], b);
      assert (a + b)[1..] == a[1..] + b;
    } else {
      assert a + b == b;
    }
  }

  lemma {:induction false} ChainSplit(c: seq<HPage>, i: nat)
    requires Chain(c) && i <= |c|
    ensures Chain(c[..i]) && Chain(c[i..]) && (0 < i < |c| ==> c[i].pg < c[i - 1].pg)
    ensures i < |c| ==> c[i].page.Dirty()
  {
    if i > 0 {
      ChainSplit(c[1..], i - 1);
      assert c[..i][1..] == c[1..][..i - 1];
    }
  }

  lemma {:induction false} InConcat(a: seq<HPage>, b: seq<HPage>, q: nat)
    ensures InChain(a + b, q) == if Listed(a, q) then InChain(a, q) else InChain(b, q)
  {
    if a != [] {
      InConcat(a[1..], b, q);
      assert (a + b)[1..] == a[1..] + b;
    } else {
      assert a + b == b;
    }
  }

  predicate Listed(c: seq<HPage>, q: nat) {
    c != [] && (c[0].pg == q || Listed(c[1..], q))
  }

  lemma {:induction false} ListedAbove(c: seq<HPage>, pg: nat)
    requires forall j :: 0 <= j < |c| ==> pg < c[j].pg
    ensures !Listed(c, pg)
  {
    if c != [] {
      ListedAbove(c[1..], pg);
    }
  }

  lemma {:induction false} InSplice(a: seq<HPage>, was: seq<HPage>, mid: seq<HPage>, z: seq<HPage>, pg: nat, q: nat)
    requires !Listed(a, pg) && InChain(z, pg) == EMPTY
    requires |was| <= 1 && (was != [] ==> was[0].pg == pg)
    requires |mid| <= 1 && (mid != [] ==> mid[0].pg == pg)
    ensures InChain(a + (mid + z), q) == if q == pg then InChain(mid, pg) else InChain(a + (was + z), q)
  {
    InConcat(a, mid + z, q);
    InConcat(mid, z, q);
    InConcat(a, was + z, q);
    InConcat(was, z, q);
  }

  lemma {:induction false} SpliceChain(a: seq<HPage>, mid: seq<HPage>, z: seq<HPage>, pg: nat)
    requires Chain(a) && Chain(z) && (a != [] ==> pg < a[|a| - 1].pg) && (z != [] ==> z[0].pg < pg)
    requires |mid| <= 1 && (mid != [] ==> mid[0].pg == pg && mid[0].page.Dirty())
    ensures Chain(a + (mid + z))
  {
    ChainConcat(mid, z);
    ChainConcat(a, mid + z);
  }

  /** A list cut at the index FindInChain gives. */
  lemma {:induction false} CutChain(c: seq<HPage>, i: nat, j: nat, pg: nat)
    requires Chain(c) && i <= |c| && (forall j :: 0 <= j < i ==> pg < c[j].pg) && (i < |c| ==> c[i].pg <= pg)
    requires j == if i < |c| && c[i].pg == pg then i + 1 else i
    ensures Chain(c[..i]) && Chain(c[j..]) && !Listed(c[..i], pg) && InChain(c[j..], pg) == EMPTY
    ensures (i > 0 ==> pg < c[..i][i - 1].pg) && (j < |c| ==> c[j..][0].pg < pg)
    ensures c == c[..i] + (c[i..j] + c[j..])
  {
    CutHead(c, i, pg);
    ChainSplit(c, j);
    CutTail(c, j, pg);
  }

  lemma {:induction false} CutHead(c: seq<HPage>, i: nat, pg: nat)
    requires Chain(c) && i <= |c| && forall j :: 0 <= j < i ==> pg < c[j].pg
    ensures Chain(c[..i]) && !Listed(c[..i], pg)
  {
    ChainSplit(c, i);
    ListedAbove(c[..i], pg);
  }

  lemma {:induction false} CutTail(c: seq<HPage>, j: nat, pg: nat)
    requires Chain(c) && j <= |c| && (j < |c| ==> c[j].pg < pg)
    ensures Chain(c[j..]) && InChain(c[j..], pg) == EMPTY
  {
    ChainSplit(c, j);
    ChainBelow(c[j..], pg);
  }

  /** `mid` in the place of what a list has for page `pg`. */
  lemma {:induction false} ChainSplice(a: seq<HPage>, was: seq<HPage>, mid: seq<HPage>, z: seq<HPage>, pg: nat)
    requires Chain(a) && Chain(z) && (a != [] ==> pg < a[|a| - 1].pg) && (z != [] ==> z[0].pg < pg)
    requires !Listed(a, pg) && InChain(z, pg) == EMPTY && |was| <= 1 && (was != [] ==> was[0].pg == pg)
    requires |mid| <= 1 && (mid != [] ==> mid[0].pg == pg && mid[0].page.Dirty())
    ensures Chain(a + (mid + z))
    ensures forall q: nat ::
              InChain(a + (mid + z), q) == if q == pg then InChain(mid, pg) else InChain(a + (was + z), q)
  {
    SpliceChain(a, mid, z, pg);
    forall q: nat ensures
      InChain(a + (mid + z), q) == if q == pg then InChain(mid, pg) else InChain(a + (was + z), q)
    {
      InSplice(a, was, mid, z, pg, q);
    }
  }

  /** Puts page `pg` into its list, or takes it out if `d` is EMPTY. */
  method SetInChain(c: seq<HPage>, pg: nat, d: DPage) returns (r: seq<HPage>)
    requires Chain(c) && InPlace(c, Hash(pg)) && (!d.Dirty() ==> d == EMPTY)
    ensures Chain(r) && InPlace(r, Hash(pg))
    ensures forall q: nat {:trigger InChain(r, q)} :: InChain(r, q) == if q == pg then d else InChain(c, q)
  {
    var i := FindInChain(c, pg);
    var j := if i < |c| && c[i].pg == pg then i + 1 else i;
    var mid := if d.Dirty() then [HPage(pg, d)] else [];
    CutChain(c, i, j, pg);
    ChainSplice(c[..i], c[i..j], mid, c[j..], pg);
    r := c[..i] + (mid + c[j..]);
    SplicePlaced(c, i, j, mid, Hash(pg));
  }

  lemma SplicePlaced(c: seq<HPage>, i: nat, j: nat, mid: seq<HPage>, h: nat)
    requires InPlace(c, h) && InPlace(mid, h) && i <= j <= |c|
    ensures InPlace(c[..i] + (mid + c[j..]), h)
  {
  }

  /** Puts page `pg` into the table, or takes it out if `d` is EMPTY: `lc_addDirtyPage`, and the updates the code
      makes through the pointer `lc_findDirtyPage` answers. */
  method SetPage(t: Table, pg: nat, d: DPage) returns (r: Table)
    requires ValidTable(t) && (t.Array? ==> pg < |t.pages|) && (!d.Dirty() ==> d == EMPTY)
    ensures ValidTable(r) && Changed(t, pg, d, r)
    ensures r.Array? == t.Array? && (t.Array? ==> |r.pages| == |t.pages|)
  {
    if t.Array? {
      r := Array(t.pages[pg := d]);
    } else {
      var h := Hash(pg);
      var c := SetInChain(t.chains[h], pg, d);
      r := Hashed(t.chains[h := c]);
    }
  }

  // ----- Counting dirty pages -----

  /** Number of dirty pages below `n`. */
  ghost function Count(t: Table, n: nat): nat
    requires ValidTable(t)
  {
    if n == 0 then 0 else Count(t, n - 1) + if Get(t, n - 1).Dirty() then 1 else 0
  }

  lemma {:induction false} CountSame(t: Table, r: Table, n: nat)
    requires ValidTable(t) && ValidTable(r)
    requires forall q: nat {:trigger Get(r, q)} :: q < n ==> Get(r, q).Dirty() == Get(t, q).Dirty()
    ensures Count(r, n) == Count(t, n)
  {
    if n > 0 {
      CountSame(t, r, n - 1);
    }
  }

  lemma {:induction false} CountChanged(t: Table, pg: nat, d: DPage, r: Table, n: nat)
    requires ValidTable(t) && ValidTable(r) && Changed(t, pg, d, r)
    ensures pg < n ==> Count(r, n) + (if Get(t, pg).Dirty() then 1 else 0) == Count(t, n) + if d.Dirty() then 1 else 0
    ensures pg >= n ==> Count(r, n) == Count(t, n)
  {
    if n > 0 {
      CountChanged(t, pg, d, r, n - 1);
    }
  }

  lemma {:induction false} CountNone(t: Table, n: nat)
    requires ValidTable(t)
    ensures Count(t, n) == 0 <==> forall q: nat :: q < n ==> !Get(t, q).Dirty()
  {
    if n > 0 {
      CountNone(t, n - 1);
    }
  }

  /** Between `lo` and `hi` there are no more dirty pages than pages, and as many only if all are dirty. */
  lemma {:induction false} CountFull(t: Table, lo: nat, hi: nat)
    requires ValidTable(t) && lo <= hi
    ensures Count(t, lo) <= Count(t, hi) <= Count(t, lo) + (hi - lo)
    ensures Count(t, hi) == Count(t, lo) + (hi - lo) ==> forall q: nat :: lo <= q < hi ==> Get(t, q).Dirty()
    decreases hi
  {
    if lo < hi {
      CountFull(t, lo, hi - 1);
    }
  }

  lemma {:induction false} CountBeyond(t: Table, n: nat, m: nat)
    requires ValidTable(t) && n <= m && forall q: nat {:trigger Get(t, q)} :: n <= q < m ==> !Get(t, q).Dirty()
    ensures Count(t, n) == Count(t, m)
  {
    if n < m {
      CountBeyond(t, n, m - 1);
    }
  }

  // ----- The file -----

  /** The fields of an inode that say what its data is. */
  datatype File = File(size: nat, bmap: BlockMap, table: Table, dirty: nat, first: nat, last: nat) {
    ghost predicate Valid() {
      && bmap.Valid() && ValidTable(table) && dirty == Count(table, PageCount(size))
      && (forall p: nat {:trigger Get(table, p)} :: Get(table, p).Fits(p, size))
      && (forall p: nat {:trigger bmap.At(p)} :: bmap.At(p) >= 0 ==> p < Covered())
      && (forall p: nat {:trigger Get(table, p)} :: Get(table, p).Dirty() ==> first <= p <= last && p < Covered())
      && if dirty > 0 then Get(table, first).Dirty() && Get(table, last).Dirty() else last == 0
    }

    /** Pages from here on are neither dirty nor mapped. */
    function Covered(): nat {
      if table.Array? && 0 < |table.pages| <= PageCount(size) then |table.pages| - 1 else PageCount(size)
    }

    /** What a reader sees in page `pg`. */
    function ByteAt(store: map<nat, Page>, pg: nat, k: nat): Byte
      requires ValidTable(table) && k < 4096
    {
      Get(table, pg).Over(k, Under(bmap, store, pg)[k])
    }
  }
}
