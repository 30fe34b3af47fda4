/**
  * The block cache (lcfs/bcache.c): pages of data blocks by block, the list of pages waiting to be written, and the
  * disk. Data pages are found through the cache; metadata pages are only queued for writing.
  */
module Bcache {
  import P = Pages
  import opened Blocks

  type Data = P.Page

  const READ_CLUSTER_SIZE: nat := 32
  const WRITE_CLUSTER_SIZE: nat := 256

  const PURGE_COUNT: nat := 4096

  type Disk = map<nat, Data>

  function Content(disk: Disk, b: nat): Data {
    P.ReadBlock(disk, b)
  }

  // ----- Writing in clusters -----

  /** A page on the list of dirty pages; `hashed` if it is also in the cache. */
  datatype Dirty = Dirty(block: nat, hashed: bool, data: Data)

  /** The pages written one after the other. */
  function WriteAll(disk: Disk, list: seq<Dirty>): Disk {
    if list == [] then disk else WriteAll(disk, list[..|list| - 1])[list[|list| - 1].block := list[|list| - 1].data]
  }

  /** `lc_writeBlocks`: consecutive blocks from `block` on, in one request. */
  function WriteBlocks(disk: Disk, block: nat, iovec: seq<Data>): Disk {
    if iovec == [] then disk
    else WriteBlocks(disk, block, iovec[..|iovec| - 1])[block + |iovec| - 1 := iovec[|iovec| - 1]]
  }

  /** The pages of `list` are on consecutive blocks from `block` on. */
  ghost predicate Run(list: seq<Dirty>, block: nat, iovec: seq<Data>) {
    |list| == |iovec| && forall i {:trigger list[i]} ::
      0 <= i < |list| ==> list[i].block == block + i && list[i].data == iovec[i]
  }

  lemma {:induction false} RunWrites(disk: Disk, list: seq<Dirty>, block: nat, iovec: seq<Data>)
    requires Run(list, block, iovec)
    ensures WriteBlocks(disk, block, iovec) == WriteAll(disk, list)
  {
    if list != [] {
      var n := |list| - 1;
      RunWrites(disk, list[..n], block, iovec[..n]);
    }
  }

  lemma {:induction false} WriteConcat(disk: Disk, a: seq<Dirty>, b: seq<Dirty>)
    ensures WriteAll(disk, a + b) == WriteAll(WriteAll(disk, a), b)
  {
    if b == [] {
      assert a + b == a;
    } else {
      var n := |b| - 1;
      WriteConcat(disk, a, b[..n]);
      assert (a + b)[..|a + b| - 1] == a + b[..n];
    }
  }

  /** The pages before index `i` are written, except for the last ones, which are in `iovec`. */
  ghost predicate Writing(disk: Disk, d: Disk, list: seq<Dirty>, i: nat, block: nat, iovec: seq<Data>) {
    && |iovec| <= i <= |list| && d == WriteAll(disk, list[..i - |iovec|]) && Run(list[i - |iovec|..i], block, iovec)
  }

  lemma WriteOut(disk: Disk, d: Disk, list: seq<Dirty>, i: nat, block: nat, iovec: seq<Data>)
    requires Writing(disk, d, list, i, block, iovec)
    ensures WriteBlocks(d, block, iovec) == WriteAll(disk, list[..i])
  {
    var n := i - |iovec|;
    RunWrites(d, list[n..i], block, iovec);
    WriteConcat(disk, list[..n], list[n..i]);
    assert list[..n] + list[n..i] == list[..i];
  }

  /** The loop of `lc_flushPageCluster`: requests of up to `WRITE_CLUSTER_SIZE` consecutive blocks write what page by
      page writing would. */
  method FlushPageCluster(disk: Disk, list: seq<Dirty>) returns (d: Disk)
    ensures d == WriteAll(disk, list)
  {
    d := disk;
    var block: nat, iovec: seq<Data> := 0, [];
    var i := 0;
    while i < |list|
      invariant i <= |list| && Writing(disk, d, list, i, block, iovec)
    {
      if |iovec| >= WRITE_CLUSTER_SIZE || (iovec != [] && block + |iovec| != list[i].block) {
        WriteOut(disk, d, list, i, block, iovec);
        d, iovec := WriteBlocks(d, block, iovec), [];
        assert list[i..i] == [];
      }
      if iovec == [] {
        block := list[i].block;
      }
      NextPage(list, i, block, iovec);
      iovec := iovec + [list[i].data];
      i := i + 1;
    }
    WriteOut(disk, d, list, i, block, iovec);
    assert list[..i] == list;
    d := WriteBlocks(d, block, iovec);
  }

  lemma NextPage(list: seq<Dirty>, i: nat, block: nat, iovec: seq<Data>)
    requires |iovec| <= i < |list| && Run(list[i - |iovec|..i], block, iovec) && list[i].block == block + |iovec|
    ensures Run(list[i - |iovec|..i + 1], block, iovec + [list[i].data])
  {
    var n := i - |iovec|;
    assert list[n..i + 1] == list[n..i] + [list[i]];
  }

  // ----- Reading in clusters -----

  /** A page a reader wants: its block, and its data if it is valid. */
  datatype Wanted = Wanted(block: nat, valid: bool, data: Data)

  /** `lc_readBlocks`: the blocks from `block` on, in one request, into the buffers of the pages in `slots`. */
  function ReadBlocks(disk: Disk, pages: seq<Wanted>, slots: seq<nat>, block: nat): (r: seq<Wanted>)
    requires forall s {:trigger slots[s]} :: 0 <= s < |slots| ==> slots[s] < |pages|
    ensures |r| == |pages|
  {
    if slots == [] then pages
    else
      var n := |slots| - 1;
      var r := ReadBlocks(disk, pages, slots[..n], block);
      r[slots[n] := r[slots[n]].(data := Content(disk, block + n))]
  }

  /** A page once it is read by itself. */
  function Fetched(disk: Disk, p: Wanted): Wanted {
    if p.valid then p else Wanted(p.block, true, Content(disk, p.block))
  }

  /** Page `k` before the request is issued: done before `j`, waiting in the request or skipped as valid from `j` on. */
  ghost predicate Waits(disk: Disk, pages: seq<Wanted>, r: seq<Wanted>, j: nat, i: nat, slots: seq<nat>, k: nat)
    requires k < |pages| == |r|
  {
    if k < j then r[k] == Fetched(disk, pages[k]) else r[k] == pages[k] && (k < i && !r[k].valid ==> k in slots)
  }

  /** The pages in `slots` are invalid pages between `j` and `i`, on consecutive blocks from `block` on. */
  ghost predicate Request(r: seq<Wanted>, j: nat, i: nat, slots: seq<nat>, block: nat) {
    && i <= |r|
    && (forall s {:trigger slots[s]} :: 0 <= s < |slots| ==> j <= slots[s] < i && r[slots[s]].block == block + s)
    && (forall s {:trigger slots[s]} :: 0 <= s < |slots| ==> !r[slots[s]].valid)
  }

  ghost predicate Reading(disk: Disk, pages: seq<Wanted>, r: seq<Wanted>, j: nat, i: nat, slots: seq<nat>, block: nat) {
    && |r| == |pages| && j <= i <= |r| && Request(r, j, i, slots, block)
    && forall k {:trigger Waits(disk, pages, r, j, i, slots, k)} :: 0 <= k < |r| ==>
            Waits(disk, pages, r, j, i, slots, k)
  }

  /** A request reads for each of its pages what is on the page's own block, and nothing else. */
  lemma {:induction false} RequestReads(disk: Disk, r: seq<Wanted>, j: nat, i: nat, slots: seq<nat>, block: nat, k: nat)
    requires Request(r, j, i, slots, block) && k < |r|
    ensures ReadBlocks(disk, r, slots, block)[k] == if k in slots then r[k].(data := Content(disk, r[k].block))
              else r[k]
  {
    if slots != [] {
      var n := |slots| - 1;
      assert slots == slots[..n] + [slots[n]];
      RequestReads(disk, r, j, i, slots[..n], block, k);
    }
  }

  /** The request is issued and the pages up to `i` are marked as valid. */
  method IssueRead(disk: Disk, ghost pages: seq<Wanted>, r: seq<Wanted>, j: nat, i: nat, slots: seq<nat>, block: nat)
      returns (t: seq<Wanted>)
    requires Reading(disk, pages, r, j, i, slots, block)
    ensures Reading(disk, pages, t, i, i, [], block)
  {
    t := ReadBlocks(disk, r, slots, block);
    forall k | 0 <= k < |r|
      ensures t[k] == if k in slots then r[k].(data := Content(disk, r[k].block)) else r[k]
    {
      RequestReads(disk, r, j, i, slots, block, k);
    }
    ghost var filled := t;
    var k := j;
    while k < i
      invariant j <= k <= i && |t| == |r|
      invariant forall x {:trigger t[x]} :: 0 <= x < |t| ==>
                t[x] == if j <= x < k then filled[x].(valid := true) else filled[x]
    {
      t := t[k := t[k].(valid := true)];
      k := k + 1;
    }
    forall x | 0 <= x < |t|
      ensures Waits(disk, pages, t, i, i, [], x)
    {
      assert Waits(disk, pages, r, j, i, slots, x);
      assert x in slots ==> exists s :: 0 <= s < |slots| && slots[s] == x;
    }
  }

  /** The pages still to be read. */
  function Missing(pages: seq<Wanted>): nat {
    if pages == [] then 0 else Missing(pages[..|pages| - 1]) + if pages[|pages| - 1].valid then 0 else 1
  }

  lemma MissingNext(pages: seq<Wanted>, i: nat)
    requires i < |pages|
    ensures Missing(pages[..i + 1]) == Missing(pages[..i]) + if pages[i].valid then 0 else 1
  {
    assert pages[..i + 1][..i] == pages[..i];
  }

  /** `lc_readPages`: requests of consecutive blocks within a read cluster give every page what reading it by itself
      would, and read no block of a page that is already valid. */
  method ReadPages(disk: Disk, pages: seq<Wanted>) returns (r: seq<Wanted>, count: nat)
    ensures |r| == |pages| && forall k {:trigger r[k]} :: 0 <= k < |r| ==> r[k] == Fetched(disk, pages[k])
    ensures count == Missing(pages)
  {
    r, count := pages, 0;
    var j, i := 0, 0;
    var block: nat, slots: seq<nat> := 0, [];
    while i < |pages|
      invariant i <= |pages| && Reading(disk, pages, r, j, i, slots, block)
      invariant count + |slots| == Missing(pages[..i])
    {
      assert Waits(disk, pages, r, j, i, slots, i);
      MissingNext(pages, i);
      if !r[i].valid {
        if slots != []
           && (block + |slots| != r[i].block || block / READ_CLUSTER_SIZE != r[i].block / READ_CLUSTER_SIZE
               || |slots| >= READ_CLUSTER_SIZE)
        {
          count := count + |slots|;
          r := IssueRead(disk, pages, r, j, i, slots, block);
          j, slots := i, [];
          assert Waits(disk, pages, r, j, i, slots, i);
        }
        if slots == [] {
          block := r[i].block;
          assert Reading(disk, pages, r, j, i, slots, block);
        }
        AddSlot(disk, pages, r, j, i, slots, block);
        slots := slots + [i];
      } else {
        SkipPage(disk, pages, r, j, i, slots, block);
      }
      i := i + 1;
    }
    assert pages[..i] == pages;
    count := count + |slots|;
    if slots != [] {
      r := IssueRead(disk, pages, r, j, i, slots, block);
      j, slots := i, [];
    }
    forall k | 0 <= k < |r|
      ensures r[k] == Fetched(disk, pages[k])
    {
      assert Waits(disk, pages, r, j, i, slots, k);
    }
  }

  lemma AddSlot(disk: Disk, pages: seq<Wanted>, r: seq<Wanted>, j: nat, i: nat, slots: seq<nat>, block: nat)
    requires Reading(disk, pages, r, j, i, slots, block)
    requires i < |r| && !r[i].valid && r[i].block == block + |slots|
    ensures Reading(disk, pages, r, j, i + 1, slots + [i], block)
  {
    var next, more := i + 1, slots + [i];
    forall k | 0 <= k < |r|
      ensures Waits(disk, pages, r, j, next, more, k)
    {
      assert Waits(disk, pages, r, j, i, slots, k);
    }
  }

  lemma SkipPage(disk: Disk, pages: seq<Wanted>, r: seq<Wanted>, j: nat, i: nat, slots: seq<nat>, block: nat)
    requires Reading(disk, pages, r, j, i, slots, block) && i < |r| && r[i].valid
    ensures Reading(disk, pages, r, j, i + 1, slots, block)
  {
    var next := i + 1;
    forall k | 0 <= k < |r|
      ensures Waits(disk, pages, r, j, next, slots, k)
    {
      assert Waits(disk, pages, r, j, i, slots, k);
    }
  }

  // ----- The cache -----

  /** A page in the cache. */
  datatype Page = Page(data: Data, valid: bool, refs: nat, hits: nat, cache: bool, nocache: bool)

  /** `queued` holds the blocks of the cached pages on the list, each of which is there once. */
  ghost predicate QueuedAre(list: seq<Dirty>, queued: set<nat>) {
    if list == [] then queued == {}
    else if list[0].hashed then list[0].block in queued && QueuedAre(list[1..], queued - {list[0].block})
    else QueuedAre(list[1..], queued)
  }

  lemma {:induction false} QueueMore(list: seq<Dirty>, queued: set<nat>, d: Dirty)
    requires QueuedAre(list, queued) && (d.hashed ==> d.block !in queued)
    ensures QueuedAre(list + [d], if d.hashed then queued + {d.block} else queued)
  {
    if list != [] {
      assert (list + [d])[1..] == list[1..] + [d];
      var rest := if list[0].hashed then queued - {list[0].block} else queued;
      QueueMore(list[1..], rest, d);
      assert list[0].hashed && d.hashed ==> queued + {d.block} - {list[0].block} == rest + {d.block};
    } else {
      assert (list + [d])[1..] == [];
      assert {d.block} - {d.block} == {};
    }
  }

  lemma {:induction false} NotWritten(disk: Disk, list: seq<Dirty>, b: nat)
    requires forall i {:trigger list[i]} :: 0 <= i < |list| ==> list[i].block != b
    ensures Content(WriteAll(disk, list), b) == Content(disk, b)
  {
    if list != [] {
      NotWritten(disk, list[..|list| - 1], b);
    }
  }

  lemma WriteMore(disk: Disk, list: seq<Dirty>, d: Dirty)
    ensures WriteAll(disk, list + [d]) == WriteAll(disk, list)[d.block := d.data]
  {
    assert (list + [d])[..|list|] == list;
  }

  function Look(pages: map<nat, Page>, b: nat): Option<Page> {
    if b in pages then Some(pages[b]) else None
  }

  /** A page is referenced by its readers and by the list of dirty pages, or by the writer who filled it; a valid page
      of a data block has what was last given to the block. */
  ghost predicate Kept(p: Option<Page>, users: nat, queued: bool, held: bool, meta: bool, latest: Data) {
    match p
    case None => users == 0 && !queued && !held
    case Some(page) =>
      && page.refs == users + (if queued || held then 1 else 0)
      && !(queued && held)
      && (queued || held ==> page.valid)
      && (held ==> !meta)
      && (page.valid && !meta ==> page.data == latest)
  }

  predicate Pinned(p: Option<Page>) {
    p.Some? && p.value.cache
  }

  /** A page after one of its references is gone. */
  function Released(p: Option<Page>, read: bool, inval: bool): Option<Page> {
    if p.None? || p.value.refs == 0 then p
    else if (inval || p.value.nocache) && !p.value.cache && p.value.refs == 1 then None
    else Some(p.value.(refs := p.value.refs - 1, hits := if read then p.value.hits + 1 else p.value.hits))
  }

  /** A page once the list of dirty pages is written, if it was on the list. */
  function Written(p: Option<Page>, queued: bool): Option<Page> {
    if queued then Released(p, false, false) else p
  }

  /** A page marked to leave the cache once it is not in use. */
  function Marked(p: Option<Page>): Option<Page> {
    if p.Some? then Some(p.value.(cache := false, nocache := true)) else None
  }

  /** A page that can be purged: no one is using it, and it was not read lately unless `all` pages are to go. */
  predicate Idle(p: Option<Page>, all: bool) {
    p.Some? && p.value.refs == 0 && (all || p.value.hits == 0)
  }

  /** What a purge may do: a page in use stays in the cache with its data and its references. */
  ghost predicate Purged(before: Option<Page>, after: Option<Page>) {
    && (before.None? ==> after.None?)
    && (before.Some? && before.value.refs > 0 ==> after.Some?)
    && (before.Some? && after.Some? ==>
          after.value.data == before.value.data && after.value.valid == before.value.valid
          && after.value.refs == before.value.refs && after.value.hits <= before.value.hits)
  }

  /** The pages of the blocks as `lc_readPages` finds them. */
  function PagesOf(pages: map<nat, Page>, blocks: seq<nat>): (r: seq<Wanted>)
    requires forall i {:trigger blocks[i]} :: 0 <= i < |blocks| ==> blocks[i] in pages
    ensures |r| == |blocks|
    ensures forall i {:trigger r[i]} :: 0 <= i < |r| ==>
              r[i] == Wanted(blocks[i], pages[blocks[i]].valid, pages[blocks[i]].data)
  {
    seq(|blocks|, i requires 0 <= i < |blocks| => Wanted(blocks[i], pages[blocks[i]].valid, pages[blocks[i]].data))
  }

  class Cache {
    var pages: map<nat, Page>
    var dirty: seq<Dirty>
    var disk: Disk

    // What was last given to each block, the blocks whose last content is metadata, the data pages filled but not
    // queued yet, those queued, and the readers of each page.
    ghost var latest: Disk
    ghost var meta: set<nat>
    ghost var held: set<nat>
    ghost var queued: set<nat>
    ghost var users: map<nat, nat>

    ghost function Users(b: nat): nat
      reads this`users
    {
      if b in users then users[b] else 0
    }

    ghost predicate PageOk(b: nat)
      reads this`pages, this`latest, this`meta, this`held, this`queued, this`users
    {
      Kept(Look(pages, b), Users(b), b in queued, b in held, b in meta, Content(latest, b))
    }

    /** Once the dirty pages are written, the block has what was last given to it. */
    ghost predicate Settles(b: nat)
      reads this`disk, this`dirty, this`latest, this`held
    {
      b in held || Content(WriteAll(disk, dirty), b) == Content(latest, b)
    }

    ghost predicate DirtyOk(d: Dirty)
      reads this`queued, this`held, this`meta
    {
      d.block in queued || d.block in held || d.block in meta
    }

    ghost predicate Valid()
      reads this
    {
      && (forall b: nat {:trigger PageOk(b)} :: PageOk(b))
      && (forall b: nat {:trigger Settles(b)} :: Settles(b))
      && (forall i {:trigger dirty[i]} :: 0 <= i < |dirty| ==> DirtyOk(dirty[i]))
      && QueuedAre(dirty, queued)
    }

    constructor (disk: Disk)
      ensures Valid() && latest == disk && this.disk == disk && pages == map[] && dirty == [] && held == meta == {}
    {
      pages, dirty, this.disk := map[], [], disk;
      latest, meta, held, queued, users := disk, {}, {}, {}, map[];
    }

    /** What a page without valid data has to be read from: nothing is queued for its block. */
    lemma ReadsLatest(b: nat)
      requires Valid() && b !in meta && (b !in pages || !pages[b].valid)
      ensures Content(disk, b) == Content(latest, b)
    {
      assert PageOk(b) && Settles(b);
      forall i | 0 <= i < |dirty|
        ensures dirty[i].block != b
      {
        assert DirtyOk(dirty[i]);
      }
      NotWritten(disk, dirty, b);
    }

    /** A reference to the page of a block, which is new unless it is cached. */
    method Reference(block: nat)
      requires Valid()
      modifies this`pages, this`users
      ensures Valid() && users == old(users)[block := old(Users(block)) + 1]
      ensures block in pages
      ensures (block in old(pages) ==> pages[block] == old(pages[block].(refs := pages[block].refs + 1)))
      ensures block !in old(pages) ==> !pages[block].valid
      ensures pages == old(pages)[block := pages[block]]
    {
      assert PageOk(block);
      var page := if block in pages then pages[block].(refs := pages[block].refs + 1)
                  else Page(P.Zeros(), false, 1, 0, false, false);
      pages := pages[block := page];
      users := users[block := Users(block) + 1];
      forall b: nat ensures PageOk(b) {
        assert old(PageOk(b));
      }
    }

    /** The data of a page is read in. */
    method Fill(block: nat, data: Data)
      requires Valid() && block in pages && !pages[block].valid && data == Content(latest, block)
      modifies this`pages
      ensures Valid() && pages == old(pages)[block := old(pages[block]).(data := data, valid := true)]
      ensures forall b: nat {:trigger Look(pages, b)} :: b != block ==> Look(pages, b) == old(Look(pages, b))
    {
      pages := pages[block := pages[block].(data := data, valid := true)];
      forall b: nat ensures PageOk(b) {
        assert old(PageOk(b));
      }
    }

    /** `lc_getPage`: a reader of a data block gets what was last given to the block, wherever that is. */
    method GetPage(block: nat, read: bool) returns (data: Data)
      requires Valid() && block !in meta
      modifies this`pages, this`users
      ensures Valid() && users == old(users)[block := old(Users(block)) + 1]
      ensures block in pages && (read ==> pages[block].valid && data == Content(latest, block))
      ensures pages == old(pages)[block := pages[block]]
    {
      Reference(block);
      assert PageOk(block);
      data := pages[block].data;
      if read && !pages[block].valid {
        ReadsLatest(block);
        data := Content(disk, block);
        Fill(block, data);
      }
    }

    /** `lc_getPageNew`: new data for a block no one is using. */
    method GetPageNew(block: nat, data: Data, cache: bool)
      requires Valid() && (block in pages ==> pages[block].refs == 0)
      modifies this`pages, this`latest, this`meta, this`held
      ensures Valid() && held == old(held) + {block} && meta == old(meta) - {block}
      ensures latest == old(latest)[block := data]
      ensures pages == old(pages)[block := Page(data, true, 1, 0, cache || old(Pinned(Look(pages, block))), false)]
    {
      assert PageOk(block);
      var keep := cache || Pinned(Look(pages, block));
      pages := pages[block := Page(data, true, 1, 0, keep, false)];
      latest, held, meta := latest[block := data], held + {block}, meta - {block};
      forall b: nat ensures PageOk(b) && Settles(b) {
        assert old(PageOk(b)) && old(Settles(b));
      }
      forall i | 0 <= i < |dirty| ensures DirtyOk(dirty[i]) {
        assert old(DirtyOk(dirty[i]));
      }
    }

    /** Data page `block` is added to the list of dirty pages (`lc_addPageForWriteBack`). */
    method AddPage(block: nat)
      requires Valid() && block in held
      modifies this`dirty, this`held, this`queued
      ensures Valid() && held == old(held) - {block} && queued == old(queued) + {block}
      ensures block in pages && dirty == old(dirty) + [Dirty(block, true, pages[block].data)]
    {
      assert PageOk(block);
      var d := Dirty(block, true, pages[block].data);
      QueueMore(dirty, queued, d);
      WriteMore(disk, dirty, d);
      dirty, held, queued := dirty + [d], held - {block}, queued + {block};
      forall b: nat ensures PageOk(b) && Settles(b) {
        assert old(PageOk(b)) && old(Settles(b));
      }
      forall i | 0 <= i < |dirty| ensures DirtyOk(dirty[i]) {
        assert i < |dirty| - 1 ==> old(DirtyOk(dirty[i]));
      }
    }

    /** A metadata page (`lc_getPageNoBlock`, `lc_setPageBlock`), which is not in the cache, is added to the list. */
    method AddMetadata(block: nat, data: Data)
      requires Valid() && block !in held
      modifies this`dirty, this`latest, this`meta
      ensures Valid() && meta == old(meta) + {block} && latest == old(latest)[block := data]
      ensures dirty == old(dirty) + [Dirty(block, false, data)]
    {
      var d := Dirty(block, false, data);
      QueueMore(dirty, queued, d);
      WriteMore(disk, dirty, d);
      dirty, latest, meta := dirty + [d], latest[block := data], meta + {block};
      forall b: nat ensures PageOk(b) && Settles(b) {
        assert old(PageOk(b)) && old(Settles(b));
      }
      forall i | 0 <= i < |dirty| ensures DirtyOk(dirty[i]) {
        assert i < |dirty| - 1 ==> old(DirtyOk(dirty[i]));
      }
    }

    /** One reference less: a page that is not to be cached leaves the cache with its last reference. */
    method Drop(block: nat, read: bool, inval: bool)
      requires block in pages && pages[block].refs > 0
      modifies this`pages
      ensures Look(pages, block) == Released(old(Look(pages, block)), read, inval)
      ensures forall b: nat {:trigger Look(pages, b)} :: b != block ==> Look(pages, b) == old(Look(pages, b))
    {
      var page := pages[block];
      if (inval || page.nocache) && !page.cache && page.refs == 1 {
        pages := pages - {block};
      } else {
        pages := pages[block := page.(refs := page.refs - 1, hits := if read then page.hits + 1 else page.hits)];
      }
    }

    /** `lc_releasePage`, by a reader. */
    method ReleasePage(block: nat, read: bool, inval: bool)
      requires Valid() && Users(block) > 0
      modifies this`pages, this`users
      ensures Valid() && users == old(users)[block := old(Users(block)) - 1]
      ensures Look(pages, block) == Released(old(Look(pages, block)), read, inval)
      ensures block in old(pages) && old(pages)[block].refs > 0
      ensures var page := old(pages)[block];
              if block in pages then
                pages[block] == page.(refs := page.refs - 1, hits := page.hits + if read then 1 else 0)
              else page.refs == 1 && (inval || page.nocache)
      ensures block in pages && pages[block].refs == 0 ==>
                old(pages)[block].cache || !(inval || old(pages)[block].nocache)
      ensures forall b: nat {:trigger Look(pages, b)} :: b != block ==> Look(pages, b) == old(Look(pages, b))
    {
      assert PageOk(block);
      Drop(block, read, inval);
      users := users[block := Users(block) - 1];
      forall b: nat ensures PageOk(b) {
        assert old(PageOk(b));
      }
    }

    /** `lc_invalPage`: a page in use stays, with its data, until its last reference is gone. */
    method InvalPage(block: nat) returns (freed: bool)
      requires Valid()
      modifies this`pages
      ensures Valid() && freed == (block in old(pages) && old(pages[block]).refs == 0)
      ensures Look(pages, block) == if freed then None else Marked(old(Look(pages, block)))
      ensures pages.Keys == if freed then old(pages).Keys - {block} else old(pages).Keys
      ensures block in pages ==> pages[block] == old(pages)[block].(cache := false, nocache := true)
      ensures forall b: nat {:trigger Look(pages, b)} :: b != block ==> Look(pages, b) == old(Look(pages, b))
    {
      assert PageOk(block);
      freed := false;
      if block in pages {
        if pages[block].refs > 0 {
          pages := pages[block := pages[block].(cache := false, nocache := true)];
        } else {
          pages, freed := pages - {block}, true;
        }
      }
      forall b: nat ensures PageOk(b) {
        assert old(PageOk(b));
      }
    }

    method LowerHits(block: nat)
      requires Valid() && block in pages && pages[block].refs == 0 && pages[block].hits > 0
      modifies this`pages
      ensures Valid()
      ensures Look(pages, block) == Some(old(pages[block]).(hits := old(pages[block]).hits - 1))
      ensures pages.Keys == old(pages).Keys
      ensures forall b: nat {:trigger Look(pages, b)} :: b != block ==> Look(pages, b) == old(Look(pages, b))
    {
      pages := pages[block := pages[block].(hits := pages[block].hits - 1)];
      forall b: nat ensures PageOk(b) {
        assert old(PageOk(b));
      }
    }

    /** The pages of the free list that are to go, and one hit less for those that are not. */
    method PickPages(list: seq<nat>, all: bool) returns (blocks: seq<nat>)
      requires Valid()
      modifies this`pages
      ensures Valid()
      ensures forall b: nat {:trigger Look(pages, b)} :: Purged(old(Look(pages, b)), Look(pages, b))
      ensures pages.Keys == old(pages).Keys
      ensures |list| <= PURGE_COUNT ==>
                forall k {:trigger list[k]} :: 0 <= k < |list| && Idle(old(Look(pages, list[k])), all) ==>
                  list[k] in blocks
    {
      var i: nat := 0;
      blocks := [];
      while i < |list| && |blocks| < PURGE_COUNT
        invariant |blocks| <= i <= |list| && Valid()
        invariant forall b: nat {:trigger Look(pages, b)} :: Purged(old(Look(pages, b)), Look(pages, b))
        invariant pages.Keys == old(pages).Keys
        invariant forall k {:trigger list[k]} :: 0 <= k < i && Idle(old(Look(pages, list[k])), all) ==>
                    list[k] in blocks
      {
        var b := list[i];
        assert Purged(old(Look(pages, b)), Look(pages, b));
        if b in pages && (all || pages[b].refs == 0) {
          if !all && pages[b].hits > 0 {
            LowerHits(b);
          } else {
            blocks := blocks + [b];
          }
        }
        i := i + 1;
      }
    }

    /** `lc_purgeTreePages` over the blocks of the free list: pages no one is using leave the cache, and no others. */
    method PurgeTreePages(list: seq<nat>, all: bool) returns (count: nat)
      requires Valid()
      modifies this`pages
      ensures Valid()
      ensures forall b: nat {:trigger Look(pages, b)} :: Purged(old(Look(pages, b)), Look(pages, b))
      ensures |list| <= PURGE_COUNT ==>
                forall k {:trigger list[k]} :: 0 <= k < |list| && Idle(old(Look(pages, list[k])), all) ==>
                  Look(pages, list[k]).None?
      ensures pages.Keys <= old(pages).Keys && count == |old(pages)| - |pages|
    {
      var blocks := PickPages(list, all);
      count := 0;
      var i := |blocks|;
      while i > 0
        invariant 0 <= i <= |blocks| && Valid()
        invariant pages.Keys <= old(pages).Keys && count == |old(pages).Keys| - |pages.Keys|
        invariant forall b: nat {:trigger Look(pages, b)} :: Purged(old(Look(pages, b)), Look(pages, b))
        invariant forall b {:trigger b in blocks[i..]} :: b in blocks[i..] && Idle(old(Look(pages, b)), all) ==>
                    Look(pages, b).None?
      {
        i := i - 1;
        assert blocks[i..] == [blocks[i]] + blocks[i + 1..];
        assert Purged(old(Look(pages, blocks[i])), Look(pages, blocks[i]));
        var freed := InvalPage(blocks[i]);
        count := if freed then count + 1 else count;
      }
      assert blocks[i..] == blocks;
    }

    /** A written page is released by the list; a metadata page is freed. */
    method ReleaseWritten(d: Dirty)
      requires (forall b: nat {:trigger PageOk(b)} :: PageOk(b)) && (d.hashed ==> d.block in queued)
      modifies this`pages, this`queued
      ensures forall b: nat {:trigger PageOk(b)} :: PageOk(b)
      ensures queued == if d.hashed then old(queued) - {d.block} else old(queued)
      ensures forall b: nat {:trigger Look(pages, b)} ::
                Look(pages, b) == Written(old(Look(pages, b)), b in old(queued) - queued)
    {
      if d.hashed {
        assert PageOk(d.block);
        Drop(d.block, false, false);
        queued := queued - {d.block};
        forall b: nat ensures PageOk(b) {
          assert old(PageOk(b));
        }
      }
    }

    /** `lc_flushDirtyPages`: every block has what was last given to it, unless its writer is still to queue the
        page. */
    method FlushDirtyPages()
      requires Valid()
      modifies this`pages, this`dirty, this`disk, this`queued
      ensures Valid() && dirty == [] && queued == {}
      ensures forall b: nat {:trigger Content(disk, b)} :: b !in held ==> Content(disk, b) == Content(latest, b)
      ensures forall b: nat {:trigger Look(pages, b)} ::
                Look(pages, b) == Written(old(Look(pages, b)), b in old(queued))
      ensures forall b: nat {:trigger b in pages} :: b in pages ==>
                && b in old(pages) && pages[b].data == old(pages)[b].data
                && pages[b].refs == old(pages)[b].refs - if b in old(queued) then 1 else 0
      ensures forall b: nat {:trigger b in pages} :: b in old(pages) && b !in pages ==>
                b in old(queued) && old(pages)[b].refs == 1 && old(pages)[b].nocache
    {
      var list := dirty;
      disk := FlushPageCluster(disk, list);
      dirty := [];
      forall b: nat ensures Settles(b) {
        assert old(Settles(b));
      }
      forall b: nat ensures PageOk(b) {
        assert old(PageOk(b));
      }
      var i := 0;
      while i < |list|
        invariant i <= |list| && (forall b: nat {:trigger PageOk(b)} :: PageOk(b)) && QueuedAre(list[i..], queued)
        invariant dirty == [] && queued <= old(queued) && forall b: nat {:trigger Settles(b)} :: Settles(b)
        invariant forall b: nat {:trigger Look(pages, b)} ::
                    Look(pages, b) == Written(old(Look(pages, b)), b in old(queued) - queued)
      {
        assert list[i..][0] == list[i] && list[i..][1..] == list[i + 1..];
        ReleaseWritten(list[i]);
        i := i + 1;
      }
      forall b: nat | b !in held ensures Content(disk, b) == Content(latest, b) {
        assert Settles(b);
      }
      forall b: nat
        ensures b in pages ==>
                  && b in old(pages) && pages[b].data == old(pages)[b].data
                  && pages[b].refs == old(pages)[b].refs - if b in old(queued) then 1 else 0
        ensures b in old(pages) && b !in pages ==>
                  b in old(queued) && old(pages)[b].refs == 1 && old(pages)[b].nocache
      {
        assert old(PageOk(b));
        assert Look(pages, b) == Written(old(Look(pages, b)), b in old(queued));
      }
    }

    /** A reader who holds the pages of several data blocks reads them in clusters, and has what was last given to
        each. */
    method ReadCluster(blocks: seq<nat>)
      requires Valid()
      requires forall i {:trigger blocks[i]} :: 0 <= i < |blocks| ==> blocks[i] in pages && blocks[i] !in meta
      modifies this`pages
      ensures Valid() && pages.Keys == old(pages).Keys
      ensures forall i {:trigger blocks[i]} :: 0 <= i < |blocks| ==>
                pages[blocks[i]].valid && pages[blocks[i]].data == Content(latest, blocks[i])
      ensures forall b: nat {:trigger Look(pages, b)} :: b !in blocks ==> Look(pages, b) == old(Look(pages, b))
    {
      var wanted := PagesOf(pages, blocks);
      var read, _ := ReadPages(disk, wanted);
      Reads(blocks, wanted, read);
      var i := 0;
      while i < |read|
        invariant i <= |read| && Valid()
        invariant pages.Keys == old(pages).Keys
        invariant forall k {:trigger blocks[k]} :: 0 <= k < i ==> pages[blocks[k]].valid
        invariant forall b: nat {:trigger Look(pages, b)} :: b !in blocks ==> Look(pages, b) == old(Look(pages, b))
      {
        if !pages[blocks[i]].valid {
          Fill(blocks[i], read[i].data);
        }
        i := i + 1;
      }
      forall k | 0 <= k < |blocks|
        ensures pages[blocks[k]].valid && pages[blocks[k]].data == Content(latest, blocks[k])
      {
        assert PageOk(blocks[k]);
      }
    }

    /** What the pages are read from is what was last given to their blocks. */
    lemma Reads(blocks: seq<nat>, wanted: seq<Wanted>, read: seq<Wanted>)
      requires Valid()
      requires forall i {:trigger blocks[i]} :: 0 <= i < |blocks| ==> blocks[i] in pages && blocks[i] !in meta
      requires wanted == PagesOf(pages, blocks) && |read| == |wanted|
      requires forall k {:trigger read[k]} :: 0 <= k < |read| ==> read[k] == Fetched(disk, wanted[k])
      ensures forall k {:trigger read[k]} :: 0 <= k < |read| ==> read[k].data == Content(latest, blocks[k])
    {
      forall k | 0 <= k < |read|
        ensures read[k].data == Content(latest, blocks[k])
      {
        assert PageOk(blocks[k]);
        if !pages[blocks[k]].valid {
          ReadsLatest(blocks[k]);
        }
      }
    }
  }
}
