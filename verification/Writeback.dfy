/**
  * The flush of a file through the block cache (lcfs/page.c, lcfs/bcache.c): the pages it writes enter the cache, are
  * queued, and reach the disk.
  */
module Writeback {
  import opened Extents
  import opened Emap
  import opened Pages
  import opened Checkpoint
  import opened Blocks
  import opened Allocator
  import opened Rooms
  import opened Flush
  import C = Bcache

  /** What a file is read from is what was last given to the cache, for blocks in use that hold data. */
  ghost predicate Agrees(store: map<nat, Page>, latest: map<nat, Page>, meta: set<nat>, own: map<nat, Owner>) {
    forall b: nat {:trigger ReadBlock(store, b)} :: b in InUse(own) && b !in meta ==>
      ReadBlock(store, b) == C.Content(latest, b)
  }

  ghost predicate Unused(p: Option<C.Page>) {
    p.Some? ==> p.value.refs == 0
  }

  /** No one refers to the cached page of a block that is not in use, as `lc_getPageNew` asserts. */
  ghost predicate Unreferenced(pages: map<nat, C.Page>, own: map<nat, Owner>) {
    forall b: nat {:trigger C.Look(pages, b)} :: b !in InUse(own) ==> Unused(C.Look(pages, b))
  }

  /** A new page of a file goes into the cache and on the list of dirty pages. */
  method QueuePage(cache: C.Cache, b: nat, data: Page)
    requires cache.Valid() && Unused(C.Look(cache.pages, b))
    modifies cache
    ensures cache.Valid() && cache.latest == old(cache.latest)[b := data] && cache.meta == old(cache.meta) - {b}
    ensures cache.held == old(cache.held)
    ensures forall x: nat {:trigger C.Look(cache.pages, x)} :: x != b ==>
              C.Look(cache.pages, x) == old(C.Look(cache.pages, x))
  {
    assert cache.PageOk(b);
    cache.GetPageNew(b, data, false);
    cache.AddPage(b);
  }

  /** `b` is the block a dirty page before `i` was written to. */
  ghost predicate NewBefore(f: File, r: File, i: nat, b: nat)
    requires ValidTable(f.table)
  {
    exists p: nat :: p < i && Get(f.table, p).Dirty() && r.bmap.At(p) == b
  }

  /** What the cache has of block `b` when the pages before `i` are queued. */
  ghost predicate Queued(f: File, r: File, now: map<nat, Page>, i: nat, latest0: map<nat, Page>, meta0: set<nat>,
                         pages0: map<nat, C.Page>, latest: map<nat, Page>, meta: set<nat>, pages: map<nat, C.Page>,
                         b: nat)
    requires ValidTable(f.table)
  {
    if NewBefore(f, r, i, b) then b !in meta && C.Content(latest, b) == ReadBlock(now, b)
    else
      && C.Content(latest, b) == C.Content(latest0, b) && (b in meta <==> b in meta0)
      && C.Look(pages, b) == C.Look(pages0, b)
  }

  ghost predicate AllQueued(f: File, r: File, now: map<nat, Page>, i: nat, latest0: map<nat, Page>, meta0: set<nat>,
                            pages0: map<nat, C.Page>, latest: map<nat, Page>, meta: set<nat>, pages: map<nat, C.Page>)
    requires ValidTable(f.table)
  {
    forall b: nat {:trigger Queued(f, r, now, i, latest0, meta0, pages0, latest, meta, pages, b)} ::
      Queued(f, r, now, i, latest0, meta0, pages0, latest, meta, pages, b)
  }

  /** The page of the loop has no new block, or its block was queued. */
  lemma NextQueued(f: File, r: File, now: map<nat, Page>, i: nat, latest0: map<nat, Page>, meta0: set<nat>,
                   pages0: map<nat, C.Page>, latest: map<nat, Page>, meta: set<nat>, pages: map<nat, C.Page>,
                   latest': map<nat, Page>, meta': set<nat>, pages': map<nat, C.Page>)
    requires ValidTable(f.table) && AllQueued(f, r, now, i, latest0, meta0, pages0, latest, meta, pages)
    requires if Get(f.table, i).Dirty() && r.bmap.At(i) >= 0
             then ChangedAt(r.bmap.At(i), ReadBlock(now, r.bmap.At(i)), latest, meta, pages, latest', meta', pages')
             else latest' == latest && meta' == meta && pages' == pages
    ensures AllQueued(f, r, now, i + 1, latest0, meta0, pages0, latest', meta', pages')
  {
    var next := i + 1;
    forall b: nat ensures Queued(f, r, now, next, latest0, meta0, pages0, latest', meta', pages', b) {
      assert Queued(f, r, now, i, latest0, meta0, pages0, latest, meta, pages, b);
      assert NewBefore(f, r, next, b) <==> NewBefore(f, r, i, b) || (Get(f.table, i).Dirty() && r.bmap.At(i) == b);
    }
  }

  /** Only block `b` was given new data. */
  ghost predicate ChangedAt(b: nat, data: Page, latest: map<nat, Page>, meta: set<nat>, pages: map<nat, C.Page>,
                            latest': map<nat, Page>, meta': set<nat>, pages': map<nat, C.Page>)
  {
    && latest' == latest[b := data] && meta' == meta - {b}
    && forall x: nat {:trigger C.Look(pages', x)} :: x != b ==> C.Look(pages', x) == C.Look(pages, x)
  }

  lemma FreshBlock(f: File, r: File, now: map<nat, Page>, own0: map<nat, Owner>, own: map<nat, Owner>, l: nat, i: nat,
                   latest0: map<nat, Page>, meta0: set<nat>, pages0: map<nat, C.Page>, latest: map<nat, Page>,
                   meta: set<nat>, pages: map<nat, C.Page>)
    requires ValidTable(f.table) && Accounted(f, r, own0, own, l, 0, 0) && Injective(r.bmap)
    requires Unreferenced(pages0, own0) && AllQueued(f, r, now, i, latest0, meta0, pages0, latest, meta, pages)
    requires Get(f.table, i).Dirty() && r.bmap.At(i) >= 0
    ensures Unused(C.Look(pages, r.bmap.At(i)))
  {
    ghost var b: nat := r.bmap.At(i);
    assert NewBlock(f, r, b) && AccountOf(f, r, own0, own, l, 0, 0, b);
    assert b !in InUse(own0);
    forall p: nat ensures !(p < i && Get(f.table, p).Dirty() && r.bmap.At(p) == b) {
    }
    assert Queued(f, r, now, i, latest0, meta0, pages0, latest, meta, pages, b);
  }

  /** The pages a flush has written are queued. */
  method QueuePages(cache: C.Cache, f: File, r: File, now: map<nat, Page>, ghost own0: map<nat, Owner>,
                    ghost own: map<nat, Owner>, ghost l: nat)
    requires f.Valid() && cache.Valid() && Accounted(f, r, own0, own, l, 0, 0) && Injective(r.bmap)
    requires Unreferenced(cache.pages, own0)
    modifies cache
    ensures cache.Valid() && cache.held == old(cache.held)
    ensures AllQueued(f, r, now, f.last + 1, old(cache.latest), old(cache.meta), old(cache.pages), cache.latest,
                      cache.meta, cache.pages)
  {
    ghost var latest0, meta0, pages0, held0 := cache.latest, cache.meta, cache.pages, cache.held;
    var i := 0;
    while i <= f.last
      invariant 0 <= i <= f.last + 1 && cache.Valid() && cache.held == held0
      invariant AllQueued(f, r, now, i, latest0, meta0, pages0, cache.latest, cache.meta, cache.pages)
    {
      QueueNext(cache, f, r, now, own0, own, l, i, latest0, meta0, pages0);
      i := i + 1;
    }
  }

  method QueueNext(cache: C.Cache, f: File, r: File, now: map<nat, Page>, ghost own0: map<nat, Owner>,
                   ghost own: map<nat, Owner>, ghost l: nat, i: nat, ghost latest0: map<nat, Page>,
                   ghost meta0: set<nat>, ghost pages0: map<nat, C.Page>)
    requires f.Valid() && cache.Valid() && Accounted(f, r, own0, own, l, 0, 0) && Injective(r.bmap)
    requires Unreferenced(pages0, own0)
    requires AllQueued(f, r, now, i, latest0, meta0, pages0, cache.latest, cache.meta, cache.pages)
    modifies cache
    ensures cache.Valid() && cache.held == old(cache.held)
    ensures AllQueued(f, r, now, i + 1, latest0, meta0, pages0, cache.latest, cache.meta, cache.pages)
  {
    ghost var latest, meta, pages := cache.latest, cache.meta, cache.pages;
    if Get(f.table, i).Dirty() && r.bmap.At(i) >= 0 {
      var b := r.bmap.At(i);
      FreshBlock(f, r, now, own0, own, l, i, latest0, meta0, pages0, latest, meta, pages);
      QueuePage(cache, b, ReadBlock(now, b));
    }
    NextQueued(f, r, now, i, latest0, meta0, pages0, latest, meta, pages, cache.latest, cache.meta, cache.pages);
  }

  /** The blocks of a file hold data, and no writer has yet to queue one of them. */
  ghost predicate DataBlocks(m: BlockMap, meta: set<nat>, held: set<nat>) {
    forall p: nat {:trigger m.At(p)} :: m.At(p) >= 0 ==> m.At(p) !in meta && m.At(p) !in held
  }

  lemma NotHeld(cache: C.Cache, own: map<nat, Owner>)
    requires cache.Valid() && Unreferenced(cache.pages, own)
    ensures forall b: nat {:trigger b in cache.held} :: b in cache.held ==> b in InUse(own)
  {
    forall b: nat | b in cache.held ensures b in InUse(own) {
      assert cache.PageOk(b);
      assert !Unused(C.Look(cache.pages, b));
    }
  }

  lemma AgreesAfter(f: File, r: File, store: map<nat, Page>, now: map<nat, Page>, own0: map<nat, Owner>,
                    own: map<nat, Owner>, l: nat, latest0: map<nat, Page>, meta0: set<nat>, pages0: map<nat, C.Page>,
                    latest: map<nat, Page>, meta: set<nat>, pages: map<nat, C.Page>)
    requires f.Valid() && Accounted(f, r, own0, own, l, 0, 0) && Agrees(store, latest0, meta0, own0)
    requires forall b: nat {:trigger ReadBlock(now, b)} :: b in InUse(own0) ==> ReadBlock(now, b) == ReadBlock(store, b)
    requires AllQueued(f, r, now, f.last + 1, latest0, meta0, pages0, latest, meta, pages)
    ensures Agrees(now, latest, meta, own)
    ensures forall p: nat {:trigger r.bmap.At(p)} :: Get(f.table, p).Dirty() && r.bmap.At(p) >= 0 ==>
              r.bmap.At(p) !in meta
    ensures meta <= meta0
  {
    var end := f.last + 1;
    forall b: nat
      ensures NewBlock(f, r, b) <==> NewBefore(f, r, end, b)
      ensures b in InUse(own) && b !in meta ==> ReadBlock(now, b) == C.Content(latest, b)
      ensures b in meta ==> b in meta0
      ensures NewBlock(f, r, b) ==> b !in meta
    {
      assert Queued(f, r, now, end, latest0, meta0, pages0, latest, meta, pages, b);
      assert AccountOf(f, r, own0, own, l, 0, 0, b);
      if NewBlock(f, r, b) {
        var p: nat :| Get(f.table, p).Dirty() && r.bmap.At(p) == b;
        assert p <= f.last;
      }
    }
    forall p: nat | Get(f.table, p).Dirty() && r.bmap.At(p) >= 0 ensures r.bmap.At(p) !in meta {
      ghost var b: nat := r.bmap.At(p);
      assert NewBlock(f, r, b);
    }
  }

  lemma StayData(f: File, r: File, own0: map<nat, Owner>, own: map<nat, Owner>, l: nat, meta0: set<nat>, meta: set<nat>,
                 held: set<nat>)
    requires f.Valid() && Accounted(f, r, own0, own, l, 0, 0) && DataBlocks(f.bmap, meta0, held) && meta <= meta0
    requires forall p: nat {:trigger r.bmap.At(p)} :: !Get(f.table, p).Dirty() ==> r.bmap.At(p) == f.bmap.At(p)
    requires forall p: nat {:trigger r.bmap.At(p)} :: Get(f.table, p).Dirty() && r.bmap.At(p) >= 0 ==>
               r.bmap.At(p) !in meta
    requires forall b: nat {:trigger b in held} :: b in held ==> b in InUse(own0)
    ensures DataBlocks(r.bmap, meta, held)
  {
    forall p: nat | r.bmap.At(p) >= 0 ensures r.bmap.At(p) !in meta && r.bmap.At(p) !in held {
      ghost var b: nat := r.bmap.At(p);
      if Get(f.table, p).Dirty() {
        assert NewBlock(f, r, b) && AccountOf(f, r, own0, own, l, 0, 0, b);
        assert b !in InUse(own0);
      } else {
        assert f.bmap.At(p) == b;
      }
    }
  }

  /** `lc_flushPages` with the block cache: what was last given to the cache is what the file is read from
      afterwards. */
  method FlushThrough(gfs: Gfs, l: nat, f: File, cache: C.Cache, store: map<nat, Page>, release: bool)
      returns (r: File, now: map<nat, Page>)
    requires f.Valid() && gfs.Valid() && IsLayer(gfs.Now(), l)
    requires BlocksInUse(f.bmap, gfs.owner) && f.dirty <= |Room(gfs.owner, l)| && Injective(f.bmap)
    requires l == ROOT ==> && NotAside(f.bmap, gfs.owner, Keys(gfs.Aside(l).fextents))
                           && Owns(f.bmap, gfs.owner, ROOT, Range(gfs.mapBlock, gfs.mapCount))
    requires cache.Valid() && Unreferenced(cache.pages, gfs.owner) && DataBlocks(f.bmap, cache.meta, cache.held)
    requires Agrees(store, cache.latest, cache.meta, gfs.owner)
    modifies gfs, cache
    ensures gfs.Valid() && IsLayer(gfs.Now(), l)
    ensures r.Valid() && r.size == f.size && r.dirty == 0 && SameData(f, store, r, now)
    ensures BlocksInUse(r.bmap, gfs.owner) && Injective(r.bmap)
    ensures cache.Valid() && Agrees(now, cache.latest, cache.meta, gfs.owner)
    ensures DataBlocks(r.bmap, cache.meta, cache.held)
  {
    ghost var own0, latest0, meta0, pages0 := gfs.owner, cache.latest, cache.meta, cache.pages;
    NotHeld(cache, own0);
    r, now := FlushFile(gfs, l, f, store, release);
    QueuePages(cache, f, r, now, own0, gfs.owner, l);
    AgreesAfter(f, r, store, now, own0, gfs.owner, l, latest0, meta0, pages0, cache.latest, cache.meta, cache.pages);
    StayData(f, r, own0, gfs.owner, l, meta0, cache.meta, cache.held);
  }

  /** Flush and writeback: the file is on disk as it was read before, byte by byte. */
  method FlushToDisk(gfs: Gfs, l: nat, f: File, cache: C.Cache, store: map<nat, Page>, release: bool) returns (r: File)
    requires f.Valid() && gfs.Valid() && IsLayer(gfs.Now(), l)
    requires BlocksInUse(f.bmap, gfs.owner) && f.dirty <= |Room(gfs.owner, l)| && Injective(f.bmap)
    requires l == ROOT ==> && NotAside(f.bmap, gfs.owner, Keys(gfs.Aside(l).fextents))
                           && Owns(f.bmap, gfs.owner, ROOT, Range(gfs.mapBlock, gfs.mapCount))
    requires cache.Valid() && Unreferenced(cache.pages, gfs.owner) && DataBlocks(f.bmap, cache.meta, cache.held)
    requires Agrees(store, cache.latest, cache.meta, gfs.owner)
    modifies gfs, cache
    ensures gfs.Valid() && cache.Valid() && r.Valid() && r.size == f.size && r.dirty == 0 && cache.dirty == []
    ensures SameData(f, store, r, cache.disk)
  {
    var now;
    r, now := FlushThrough(gfs, l, f, cache, store, release);
    cache.FlushDirtyPages();
    OnDisk(f, r, store, now, gfs.owner, cache.latest, cache.meta, cache.held, cache.disk);
  }

  lemma OnDisk(f: File, r: File, store: map<nat, Page>, now: map<nat, Page>, own: map<nat, Owner>,
               latest: map<nat, Page>, meta: set<nat>, held: set<nat>, disk: map<nat, Page>)
    requires ValidTable(f.table) && r.Valid() && r.dirty == 0 && SameData(f, store, r, now)
    requires BlocksInUse(r.bmap, own) && Agrees(now, latest, meta, own) && DataBlocks(r.bmap, meta, held)
    requires forall b: nat {:trigger C.Content(disk, b)} :: b !in held ==> C.Content(disk, b) == C.Content(latest, b)
    ensures SameData(f, store, r, disk)
  {
    forall q: nat | r.bmap.At(q) >= 0 ensures ReadBlock(now, r.bmap.At(q)) == ReadBlock(disk, r.bmap.At(q)) {
      ghost var b: nat := r.bmap.At(q);
      assert ReadBlock(now, b) == C.Content(latest, b) == C.Content(disk, b);
    }
    forall q: nat | PageClear(f, store, q) ensures PageClear(r, disk, q) {
      assert PageClear(r, now, q);
    }
    forall q: nat, k: nat | k < 4096 && 4096 * q + k < f.size
      ensures r.ByteAt(disk, q, k) == f.ByteAt(store, q, k)
    {
      assert r.ByteAt(now, q, k) == f.ByteAt(store, q, k);
    }
  }
}
