/**
  * The inodes of a layer on disk (lcfs/inode.c). A sync appends the inodes that changed to a log; nothing is rewritten
  * in place. Reading the log newest first, the first version met of an inode counts, and a removed inode stands in the
  * log as a version without links.
  */
module InodeLog {
  import opened Blocks

  /** `struct dinode`: the inode number, whether it is a symbolic link, the number of links, and all else. The target of
      a symbolic link is part of it and is stored in the same block. */
  datatype DInode = DInode(ino: nat, link: bool, nlink: nat, rest: int) {
    /** A symbolic link that is not removed has a block of its own. */
    predicate OwnsBlock() {
      link && nlink > 0
    }
  }

  /** One of the 32 slots of an inode block: zeroed, an inode, or bytes that are not an inode. */
  datatype Slot = Empty | Node(d: DInode) | Raw

  type Block = seq<Slot>

  // ----- Blocks -----

  /** The inodes of the first `n` slots. */
  function NodesIn(b: Block, n: nat): seq<DInode>
    requires n <= |b|
  {
    if n == 0 then [] else NodesIn(b, n - 1) + if b[n - 1].Node? then [b[n - 1].d] else []
  }

  /** A block the writer has finished: a symbolic link alone, or other inodes and no stray bytes. */
  predicate Whole(b: Block) {
    |b| == 32 && ((b[0].Node? && b[0].d.OwnsBlock()) || Plain(b, 32))
  }

  predicate Plain(b: Block, n: nat)
    requires n <= |b|
  {
    forall i :: 0 <= i < n ==> !b[i].Raw? && (b[i].Node? ==> !b[i].d.OwnsBlock() && b[i].d.ino > 0)
  }

  /** What a reader finds in a block. */
  function Nodes(b: Block): seq<DInode> {
    if b != [] && b[0].Node? && b[0].d.OwnsBlock() then [b[0].d] else NodesIn(b, |b|)
  }

  /** The version of an inode that counts: the first one met. */
  function Latest(list: seq<DInode>, ino: nat): Option<DInode> {
    if list == [] then None else if list[0].ino == ino then Some(list[0]) else Latest(list[1..], ino)
  }

  lemma {:induction false} LatestConcat(a: seq<DInode>, b: seq<DInode>, ino: nat)
    ensures Latest(a + b, ino) == if Latest(a, ino).Some? then Latest(a, ino) else Latest(b, ino)
  {
    if a == [] {
      assert a + b == b;
    } else {
      assert (a + b)[1..] == a[1..] + b;
      LatestConcat(a[1..], b, ino);
    }
  }

  lemma {:induction false} LatestInsert(a: seq<DInode>, b: seq<DInode>, d: DInode)
    requires Latest(a + b, d.ino).None?
    ensures forall ino: nat :: Latest(a + [d] + b, ino) == if ino == d.ino then Some(d) else Latest(a + b, ino)
  {
    forall ino: nat ensures Latest(a + [d] + b, ino) == if ino == d.ino then Some(d) else Latest(a + b, ino) {
      LatestConcat(a + [d], b, ino);
      LatestConcat(a, [d], ino);
      LatestConcat(a, b, ino);
      LatestConcat(a, b, d.ino);
      assert [d][1..] == [];
    }
  }

  /** What a reader finds in the blocks of one sync, and in those of several, newest first. */
  function BlockNodes(blocks: seq<Block>): seq<DInode> {
    if blocks == [] then [] else Nodes(blocks[0]) + BlockNodes(blocks[1..])
  }

  predicate AllWhole(blocks: seq<Block>) {
    forall i :: 0 <= i < |blocks| ==> Whole(blocks[i])
  }

  // ----- Writing -----

  /** The pages a sync has filled, newest first; `index` slots of the newest are used, or all of it is when `index` is
      zero. */
  ghost predicate Filling(pages: seq<Block>, index: nat) {
    && index <= 32 && (pages == [] ==> index == 0)
    && (forall i :: 0 <= i < |pages| ==> |pages[i]| == 32)
    && AllWhole(if 0 < index < 32 then pages[1..] else pages)
    && (0 < index < 32 ==> Plain(pages[0], index))
  }

  /** The inodes written so far. */
  ghost function Batch(pages: seq<Block>, index: nat): seq<DInode>
    requires Filling(pages, index)
  {
    if 0 < index < 32 then NodesIn(pages[0], index) + BlockNodes(pages[1..]) else BlockNodes(pages)
  }

  lemma {:induction false} NodesSame(a: Block, b: Block, n: nat)
    requires n <= |a| && n <= |b| && forall i :: 0 <= i < n ==> a[i] == b[i]
    ensures NodesIn(a, n) == NodesIn(b, n)
  {
    if n > 0 {
      NodesSame(a, b, n - 1);
    }
  }

  lemma {:induction false} NodesEmpty(b: Block, n: nat, m: nat)
    requires n <= m <= |b| && forall i :: n <= i < m ==> b[i] == Empty
    ensures NodesIn(b, m) == NodesIn(b, n)
    decreases m
  {
    if n < m {
      NodesEmpty(b, n, m - 1);
    }
  }

  /** `lc_fillupLastInodePage`: zeroes the rest of the newest page. */
  method FillupLastInodePage(pages: seq<Block>, index: nat) returns (pages': seq<Block>)
    requires Filling(pages, index)
    ensures Filling(pages', 0) && Batch(pages', 0) == Batch(pages, index)
  {
    pages' := pages;
    if pages != [] && 0 < index < 32 {
      var page := pages[0][..index] + seq(32 - index, i => Empty);
      NodesSame(page, pages[0], index);
      NodesEmpty(page, index, 32);
      assert Plain(page, 32) && Nodes(page) == NodesIn(page, 32);
      pages' := [page] + pages[1..];
      assert pages'[1..] == pages[1..];
    }
  }

  /** `fs_allocInodeSlot` and the rest of `lc_flushInode`: writes an inode to the next slot; a symbolic link gets a
      page. */
  method FlushInode(pages: seq<Block>, index: nat, d: DInode) returns (pages': seq<Block>, index': nat)
    requires Filling(pages, index) && d.ino > 0 && Latest(Batch(pages, index), d.ino).None?
    ensures Filling(pages', index') && index' > 0
    ensures forall ino: nat ::
              Latest(Batch(pages', index'), ino) == if ino == d.ino then Some(d) else Latest(Batch(pages, index), ino)
  {
    pages', index' := pages, index;
    if d.OwnsBlock() {
      pages' := FillupLastInodePage(pages, index);
      index' := 0;
    }
    if index' == 0 || index' >= 32 {
      NewPage(pages', index', d);
      assert [] + Batch(pages', index') == Batch(pages, index);
      LatestInsert([], Batch(pages', index'), d);
      pages', index' := [[Node(d)] + seq(31, i => Raw)] + pages', 1;
    } else {
      NextSlot(pages', index', d);
      LatestInsert(NodesIn(pages[0], index), BlockNodes(pages[1..]), d);
      pages', index' := [pages'[0][index' := Node(d)]] + pages'[1..], index' + 1;
    }
    if d.OwnsBlock() {
      index' := 32;
    }
  }

  lemma {:induction false} NewPage(pages: seq<Block>, index: nat, d: DInode)
    requires Filling(pages, index) && (index == 0 || index == 32) && d.ino > 0
    ensures var r := [[Node(d)] + seq(31, i => Raw)] + pages; var n := if d.OwnsBlock() then 32 else 1;
            Filling(r, n) && Batch(r, n) == [] + [d] + Batch(pages, index)
  {
    var page := [Node(d)] + seq(31, i => Raw);
    var r := [page] + pages;
    assert r[1..] == pages && page[0] == Node(d);
    assert NodesIn(page, 1) == [d];
  }

  lemma {:induction false} NextSlot(pages: seq<Block>, index: nat, d: DInode)
    requires Filling(pages, index) && 0 < index < 32 && !d.OwnsBlock() && d.ino > 0
    ensures var r := [pages[0][index := Node(d)]] + pages[1..];
            Filling(r, index + 1) && Batch(r, index + 1) == NodesIn(pages[0], index) + [d] + BlockNodes(pages[1..])
  {
    var page := pages[0][index := Node(d)];
    var r := [page] + pages[1..];
    assert r[1..] == pages[1..];
    NodesSame(page, pages[0], index);
    assert NodesIn(page, index + 1) == NodesIn(pages[0], index) + [d];
  }

  // ----- Reading -----

  /** The cache has the versions of `list` that count. */
  ghost predicate Caches(cache: map<nat, DInode>, list: seq<DInode>) {
    forall ino: nat {:trigger Latest(list, ino)} ::
      Latest(list, ino) == if ino in cache then Some(cache[ino]) else None
  }

  lemma {:induction false} NodesFrom(b: Block, i: nat)
    requires i < |b|
    ensures NodesIn(b, i + 1) == NodesIn(b, i) + if b[i].Node? then [b[i].d] else []
  {
  }

  lemma {:induction false} CachesMore(cache: map<nat, DInode>, list: seq<DInode>, d: DInode)
    requires Caches(cache, list)
    ensures Caches(if d.ino in cache then cache else cache[d.ino := d], list + [d])
  {
    var cache' := if d.ino in cache then cache else cache[d.ino := d];
    assert [d][1..] == [];
    forall ino: nat ensures Latest(list + [d], ino) == if ino in cache' then Some(cache'[ino]) else None {
      LatestConcat(list, [d], ino);
    }
  }

  /** `lc_readInodesBlock`: adds the inodes of a block that are not in the cache. Stray bytes are never taken for
      inodes. */
  method ReadInodesBlock(b: Block, cache: map<nat, DInode>, ghost list: seq<DInode>) returns (cache': map<nat, DInode>)
    requires Whole(b) && Caches(cache, list)
    ensures Caches(cache', list + Nodes(b))
  {
    cache' := cache;
    assert list + [] == list;
    var i := 0;
    while i < 32
      invariant i <= 32 && Caches(cache', list + NodesIn(b, i))
      invariant i > 0 ==> Plain(b, 32) && Nodes(b) == NodesIn(b, 32)
    {
      assert !b[i].Raw?;
      NodesFrom(b, i);
      assert NodesIn(b, i) + [] == NodesIn(b, i);
      if b[i].Node? {
        var d := b[i].d;
        CachesMore(cache', list + NodesIn(b, i), d);
        assert list + NodesIn(b, i + 1) == list + NodesIn(b, i) + [d];
        if d.ino !in cache' {
          cache' := cache'[d.ino := d];
        }
        if d.OwnsBlock() {
          assert i == 0 && NodesIn(b, 1) == [d] == Nodes(b);
          return;
        }
      }
      i := i + 1;
    }
  }

  /** `struct iblock` as a sync writes it: the inode blocks of the sync, and the inode blocks of the sync before it. */
  datatype IBlock = IBlock(start: nat, count: nat, next: nat)

  datatype Disk = Disk(iblocks: map<nat, IBlock>, data: map<nat, Block>)

  /** The blocks of `blocks` are on disk from `start` on. */
  ghost predicate OnDisk(disk: Disk, start: nat, blocks: seq<Block>) {
    forall i {:trigger blocks[i]} :: 0 <= i < |blocks| ==> BlockStored(disk.data, start + i, blocks[i])
  }

  ghost predicate BlockStored(data: map<nat, Block>, at: nat, block: Block) {
    at in data && data[at] == block
  }

  /** The chain of inode blocks from `head` on has the blocks of the syncs of `log`, newest first. */
  ghost predicate Chain(disk: Disk, head: nat, log: seq<seq<Block>>)
    decreases log
  {
    if log == [] then head == INVALID_BLOCK
    else
      && head != INVALID_BLOCK && head in disk.iblocks && AllWhole(log[0])
      && disk.iblocks[head].count == |log[0]| && OnDisk(disk, disk.iblocks[head].start, log[0])
      && Chain(disk, disk.iblocks[head].next, log[1..])
  }

  /** The inodes of a log in the order they are read. */
  ghost function LogNodes(log: seq<seq<Block>>): seq<DInode> {
    if log == [] then [] else BlockNodes(log[0]) + LogNodes(log[1..])
  }

  lemma {:induction false} BlockNodesMore(blocks: seq<Block>, i: nat)
    requires i < |blocks|
    ensures BlockNodes(blocks[..i + 1]) == BlockNodes(blocks[..i]) + Nodes(blocks[i])
  {
    assert blocks[..i + 1] == blocks[..i] + [blocks[i]];
    BlockNodesConcat(blocks[..i], [blocks[i]]);
    assert [blocks[i]][1..] == [];
  }

  lemma {:induction false} BlockNodesConcat(a: seq<Block>, b: seq<Block>)
    ensures BlockNodes(a + b) == BlockNodes(a) + BlockNodes(b)
  {
    if a == [] {
      assert a + b == b;
    } else {
      assert (a + b)[1..] == a[1..] + b;
      BlockNodesConcat(a[1..], b);
    }
  }

  /** The inode blocks of one sync. */
  method ReadBatch(disk: Disk, start: nat, count: nat, cache: map<nat, DInode>, ghost list: seq<DInode>,
                   ghost blocks: seq<Block>)
    returns (cache': map<nat, DInode>)
    requires Caches(cache, list) && count == |blocks| && OnDisk(disk, start, blocks) && AllWhole(blocks)
    ensures Caches(cache', list + BlockNodes(blocks))
  {
    cache' := cache;
    assert list + [] == list;
    var i := 0;
    while i < count
      invariant i <= count && Caches(cache', list + BlockNodes(blocks[..i]))
    {
      ghost var b := blocks[i];
      BlockNodesMore(blocks, i);
      assert list + (BlockNodes(blocks[..i]) + Nodes(blocks[i])) == list + BlockNodes(blocks[..i]) + Nodes(blocks[i]);
      cache' := ReadInodesBlock(disk.data[start + i], cache', list + BlockNodes(blocks[..i]));
      i := i + 1;
    }
    assert blocks[..i] == blocks;
  }

  lemma Regroup(a: seq<DInode>, b: seq<DInode>, c: seq<DInode>)
    ensures a + (b + c) == (a + b) + c
  {
  }

  /** The loop of `lc_readInodes`: the cache, removed inodes included. */
  method ReadChain(disk: Disk, head: nat, ghost log: seq<seq<Block>>) returns (cache: map<nat, DInode>)
    requires Chain(disk, head, log)
    ensures Caches(cache, LogNodes(log))
  {
    cache := map[];
    var block := head;
    ghost var seen: seq<DInode>, rest := [], log;
    while block != INVALID_BLOCK
      invariant Chain(disk, block, rest) && Caches(cache, seen) && LogNodes(log) == seen + LogNodes(rest)
      decreases |rest|
    {
      var ib := disk.iblocks[block];
      cache := ReadBatch(disk, ib.start, ib.count, cache, seen, rest[0]);
      Regroup(seen, BlockNodes(rest[0]), LogNodes(rest[1..]));
      seen, rest := seen + BlockNodes(rest[0]), rest[1..];
      block := ib.next;
    }
    assert seen + [] == seen;
  }

  /** The inodes a log stands for: those whose version that counts has links. */
  ghost predicate Restores(log: seq<DInode>, live: map<nat, DInode>) {
    forall ino: nat {:trigger Latest(log, ino)} ::
      && (ino in live <==> Latest(log, ino).Some? && Latest(log, ino).value.nlink > 0)
      && (ino in live ==> Latest(log, ino) == Some(live[ino]))
  }

  /** `lc_readInodes`: reads the log and then drops the removed inodes (`lc_purgeRemovedInodes`). */
  method ReadInodes(disk: Disk, head: nat, ghost log: seq<seq<Block>>) returns (live: map<nat, DInode>)
    requires Chain(disk, head, log)
    ensures Restores(LogNodes(log), live)
  {
    var cache := ReadChain(disk, head, log);
    live := map ino | ino in cache && cache[ino].nlink > 0 :: cache[ino];
  }

  // ----- Syncing -----

  /** `struct inode` in memory: LC_INODE_DIRTY, LC_INODE_REMOVED, and LC_INODE_DISK, which says that the log has the
      inode. */
  datatype CInode = CInode(d: DInode, dirty: bool, removed: bool, disk: bool)

  /** The log has inode `ino`, and has not seen it removed. */
  predicate Logged(list: seq<DInode>, ino: nat) {
    Latest(list, ino).Some? && Latest(list, ino).value.nlink > 0
  }

  /** An inode in memory against the log: its flags are right, and unless it is dirty the log is up to date. */
  ghost predicate InodeOk(inodes: map<nat, CInode>, list: seq<DInode>, ino: nat) {
    if ino in inodes then
      var c := inodes[ino];
      && c.d.ino == ino > 0 && (c.removed <==> c.d.nlink == 0) && (c.disk <==> Logged(list, ino))
      && (!c.dirty ==> if c.removed then !c.disk else Latest(list, ino) == Some(c.d))
    else !Logged(list, ino)
  }

  /** The inodes of the layer. */
  function LiveInodes(inodes: map<nat, CInode>): map<nat, DInode> {
    map ino | ino in inodes && !inodes[ino].removed :: inodes[ino].d
  }

  function LiveAt(inodes: map<nat, CInode>, ino: nat): Option<DInode> {
    if ino in inodes && !inodes[ino].removed then Some(inodes[ino].d) else None
  }

  /** The loop of `lc_syncInodes` has yet to visit the inodes of `todo`. */
  ghost predicate Synced(inodes: map<nat, CInode>, was: map<nat, CInode>, batch: seq<DInode>, list: seq<DInode>,
                         todo: set<nat>, ino: nat)
  {
    if ino in todo then ino in was && ino in inodes && inodes[ino] == was[ino] && Latest(batch,
      ino).None? && InodeOk(was, list, ino)
    else InodeOk(inodes, batch + list, ino) && (ino in inodes ==> !inodes[ino].dirty) && LiveAt(inodes,
      ino) == LiveAt(was, ino)
  }

  ghost predicate Syncing(inodes: map<nat, CInode>, was: map<nat, CInode>, batch: seq<DInode>, list: seq<DInode>,
                          todo: set<nat>)
  {
    forall ino: nat {:trigger Synced(inodes, was, batch, list, todo, ino)} ::
      Synced(inodes, was, batch, list, todo, ino)
  }

  /** What a visit makes of an inode: written if it is dirty, unless it is removed and the log does not have it; dropped
      from memory if it is removed and not kept. */
  ghost predicate Visited(c: CInode, keep: bool, inodes: map<nat, CInode>, inodes': map<nat, CInode>, ino: nat) {
    && (forall i: nat {:trigger i in inodes'} :: i != ino ==>
            (i in inodes' <==> i in inodes) && (i in inodes ==> inodes'[i] == inodes[i]))
    && (if c.removed && !keep then ino !in inodes'
        else ino in inodes' && inodes'[ino] == if c.dirty then c.(dirty := false, disk := !c.removed) else c)
  }

  lemma VisitOther(inodes: map<nat, CInode>, was: map<nat, CInode>, batch: seq<DInode>, list: seq<DInode>,
                   todo: set<nat>, ino: nat, keep: bool, inodes': map<nat, CInode>, batch': seq<DInode>, i: nat)
    requires Syncing(inodes, was, batch, list, todo) && ino in todo && ino in inodes
    requires Visited(inodes[ino], keep, inodes, inodes', ino)
    requires i != ino && Latest(batch', i) == Latest(batch, i)
    ensures Synced(inodes', was, batch', list, todo - {ino}, i)
  {
    assert Synced(inodes, was, batch, list, todo, i);
    LatestConcat(batch, list, i);
    LatestConcat(batch', list, i);
    assert i in inodes' <==> i in inodes;
  }

  lemma VisitOne(inodes: map<nat, CInode>, was: map<nat, CInode>, batch: seq<DInode>, list: seq<DInode>, todo: set<nat>,
                 ino: nat, keep: bool, inodes': map<nat, CInode>, batch': seq<DInode>)
    requires Syncing(inodes, was, batch, list, todo) && ino in todo && ino in inodes
    requires Visited(inodes[ino], keep, inodes, inodes', ino)
    requires var c := inodes[ino];
             Latest(batch', ino) == if c.dirty && (!c.removed || c.disk) then Some(c.d) else None
    ensures Synced(inodes', was, batch', list, todo - {ino}, ino)
  {
    assert Synced(inodes, was, batch, list, todo, ino);
    LatestConcat(batch', list, ino);
  }

  /** One visit of the loop of `lc_syncInodes`. */
  method SyncInode(inodes: map<nat, CInode>, ghost was: map<nat, CInode>, ghost list: seq<DInode>, ghost todo: set<nat>,
                   pages: seq<Block>, index: nat, ino: nat, keep: bool)
    returns (inodes': map<nat, CInode>, pages': seq<Block>, index': nat)
    requires Filling(pages, index) && Syncing(inodes, was, Batch(pages, index), list, todo) && ino in todo
    requires ino in inodes
    ensures Filling(pages', index') && Syncing(inodes', was, Batch(pages', index'), list, todo - {ino})
    ensures forall i: nat {:trigger i in inodes'} :: i in todo && i != ino ==> i in inodes'
    ensures forall i: nat {:trigger i in inodes'} ::
              i in inodes' <==> i in inodes && (i == ino && inodes[i].removed ==> keep)
    ensures forall i: nat {:trigger inodes'[i]} :: i in inodes' ==> inodes'[i].removed == inodes[i].removed
    ensures pages' == [] ==> pages == []
  {
    ghost var batch := Batch(pages, index);
    assert Synced(inodes, was, batch, list, todo, ino);
    var c := inodes[ino];
    inodes', pages', index' := inodes, pages, index;
    if c.dirty {
      if !c.removed || c.disk {
        pages', index' := FlushInode(pages, index, c.d);
      }
      inodes' := inodes[ino := c.(dirty := false, disk := !c.removed)];
    }
    if c.removed && !keep {
      inodes' := inodes' - {ino};
    }
    ghost var batch' := Batch(pages', index');
    ghost var rest := todo - {ino};
    VisitOne(inodes, was, batch, list, todo, ino, keep, inodes', batch');
    forall i: nat ensures Synced(inodes', was, batch', list, rest, i) && (i in rest ==> i in inodes') {
      if i != ino {
        VisitOther(inodes, was, batch, list, todo, ino, keep, inodes', batch', i);
      }
    }
  }

  /** None of `count` blocks from `block` on holds inodes. */
  ghost predicate Unused(disk: Disk, block: nat, count: nat) {
    forall b: nat {:trigger b in disk.data} :: block <= b < block + count ==> b !in disk.data
  }

  ghost predicate Keeps(data: map<nat, Block>, data': map<nat, Block>) {
    forall b: nat {:trigger b in data'} :: b in data ==> b in data' && data'[b] == data[b]
  }

  /** Writing elsewhere leaves a chain as it was. */
  lemma {:induction false} ChainSame(disk: Disk, disk': Disk, head: nat, log: seq<seq<Block>>)
    requires Chain(disk, head, log)
    requires forall b: nat {:trigger b in disk'.iblocks} :: b in disk.iblocks ==>
              b in disk'.iblocks && disk'.iblocks[b] == disk.iblocks[b]
    requires Keeps(disk.data, disk'.data)
    ensures Chain(disk', head, log)
    decreases log
  {
    if log != [] {
      ChainSame(disk, disk', disk.iblocks[head].next, log[1..]);
      forall i | 0 <= i < |log[0]|
        ensures BlockStored(disk'.data, disk.iblocks[head].start + i, log[0][i])
      {
        assert BlockStored(disk.data, disk.iblocks[head].start + i, log[0][i]);
      }
    }
  }

  method WriteBlocks(disk: Disk, pages: seq<Block>, block: nat) returns (data: map<nat, Block>)
    requires Unused(disk, block, |pages|)
    ensures Keeps(disk.data, data) && OnDisk(Disk(disk.iblocks, data), block, pages)
  {
    data := disk.data;
    var i := 0;
    while i < |pages|
      invariant i <= |pages| && Keeps(disk.data, data)
      invariant forall j {:trigger pages[j]} :: 0 <= j < i ==> BlockStored(data, block + j, pages[j])
    {
      var b: nat := block + i;
      assert b !in disk.data;
      data := data[b := pages[i]];
      i := i + 1;
    }
  }

  /** `lc_flushInodePages` and `lc_flushInodeBlocks`: the pages go to `block` and the blocks after it, and the block at
      `ib` names them and the blocks of the syncs before. */
  method FlushInodePages(disk: Disk, head: nat, pages: seq<Block>, block: nat, ib: nat, ghost log: seq<seq<Block>>)
    returns (disk': Disk)
    requires Chain(disk, head, log) && AllWhole(pages)
    requires Unused(disk, block, |pages|) && ib !in disk.iblocks && ib != INVALID_BLOCK
    ensures Chain(disk', ib, [pages] + log)
  {
    var data := WriteBlocks(disk, pages, block);
    disk' := Disk(disk.iblocks[ib := IBlock(block, |pages|, head)], data);
    ChainSame(disk, disk', head, log);
    assert ([pages] + log)[1..] == log;
  }

  lemma AllSynced(inodes: map<nat, CInode>, was: map<nat, CInode>, batch: seq<DInode>, list: seq<DInode>)
    requires Syncing(inodes, was, batch, list, {})
    ensures forall ino: nat {:trigger InodeOk(inodes, batch + list, ino)} :: InodeOk(inodes, batch + list, ino)
    ensures Restores(batch + list, LiveInodes(inodes)) && LiveInodes(inodes) == LiveInodes(was)
  {
    forall ino: nat
      ensures InodeOk(inodes, batch + list, ino) && (ino in inodes ==> !inodes[ino].dirty)
      ensures LiveAt(inodes, ino) == LiveAt(was, ino)
    {
      assert Synced(inodes, was, batch, list, {}, ino);
    }
    LiveSame(inodes, was);
    forall ino: nat
      ensures (ino in LiveInodes(inodes) <==> Logged(batch + list, ino))
      ensures (ino in LiveInodes(inodes) ==> Latest(batch + list, ino) == Some(LiveInodes(inodes)[ino]))
    {
      assert InodeOk(inodes, batch + list, ino);
    }
  }

  lemma LiveSame(inodes: map<nat, CInode>, was: map<nat, CInode>)
    requires forall ino: nat {:trigger LiveAt(inodes, ino)} :: LiveAt(inodes, ino) == LiveAt(was, ino)
    ensures LiveInodes(inodes) == LiveInodes(was)
  {
    forall ino: nat
      ensures ino in LiveInodes(inodes) <==> LiveAt(inodes, ino).Some?
      ensures ino in LiveInodes(was) <==> LiveAt(inodes, ino).Some?
    {
      assert LiveAt(inodes, ino) == LiveAt(was, ino);
    }
  }

  /** The loop of `lc_syncInodes` over the inodes in memory. */
  ghost predicate Stay(was: map<nat, CInode>, inodes: map<nat, CInode>, keep: set<nat>, todo: set<nat>) {
    && (forall i: nat {:trigger i in inodes} :: i in inodes <==> i in was && (was[i].removed ==> i in todo + keep))
    && (forall i: nat {:trigger inodes[i]} :: i in inodes ==> inodes[i].removed == was[i].removed)
  }

  method SyncAll(inodes: map<nat, CInode>, ghost list: seq<DInode>, keep: set<nat>)
    returns (inodes': map<nat, CInode>, pages: seq<Block>, index: nat)
    requires forall ino: nat {:trigger InodeOk(inodes, list, ino)} :: InodeOk(inodes, list, ino)
    ensures Filling(pages, index) && Syncing(inodes', inodes, Batch(pages, index), list, {})
    ensures Stay(inodes, inodes', keep, {})
  {
    inodes', pages, index := inodes, [], 0;
    var todo := inodes.Keys;
    assert [] + list == list;
    forall ino: nat ensures Synced(inodes, inodes, Batch(pages, index), list, todo, ino) {
      assert InodeOk(inodes, list, ino);
    }
    while todo != {}
      invariant Filling(pages, index) && Syncing(inodes', inodes, Batch(pages, index), list, todo)
      invariant Stay(inodes, inodes', keep, todo)
      decreases todo
    {
      var ino :| ino in todo;
      assert Synced(inodes', inodes, Batch(pages, index), list, todo, ino);
      inodes', pages, index := SyncInode(inodes', inodes, list, todo, pages, index, ino, ino in keep);
      todo := todo - {ino};
    }
  }

  /** The inodes of a layer, in memory and on disk. */
  class InodeTable {
    var inodes: map<nat, CInode>   // fs_icache
    var disk: Disk
    var head: nat                  // sb_inodeBlock

    ghost var log: seq<seq<Block>>

    ghost predicate Valid()
      reads this
    {
      Chain(disk, head, log) && forall ino: nat {:trigger InodeOk(inodes, LogNodes(log), ino)} ::
        InodeOk(inodes, LogNodes(log), ino)
    }

    /** The inodes of a new layer, of which there are none. */
    constructor (disk: Disk)
      ensures Valid() && LiveInodes(inodes) == map[] && log == [] && this.disk == disk
    {
      inodes, this.disk, head, log := map[], disk, INVALID_BLOCK, [];
    }

    /** A new or changed inode. */
    method Update(d: DInode)
      requires Valid() && d.ino > 0 && d.nlink > 0 && (d.ino in inodes ==> !inodes[d.ino].removed)
      modifies this`inodes
      ensures Valid() && LiveInodes(inodes) == LiveInodes(old(inodes))[d.ino := d]
    {
      assert InodeOk(inodes, LogNodes(log), d.ino);
      ghost var was := inodes;
      inodes := inodes[d.ino := CInode(d, true, false, d.ino in inodes && inodes[d.ino].disk)];
      forall ino: nat ensures InodeOk(inodes, LogNodes(log), ino) {
        assert InodeOk(was, LogNodes(log), ino);
      }
    }

    /** An inode loses its last link. */
    method Remove(ino: nat)
      requires Valid() && ino in inodes && !inodes[ino].removed
      modifies this`inodes
      ensures Valid() && LiveInodes(inodes) == LiveInodes(old(inodes)) - {ino}
    {
      ghost var was := inodes;
      inodes := inodes[ino := inodes[ino].(d := inodes[ino].d.(nlink := 0), dirty := true, removed := true)];
      forall i: nat ensures InodeOk(inodes, LogNodes(log), i) {
        assert InodeOk(was, LogNodes(log), i);
      }
    }

    /** `lc_markAllInodesDirty`: the log is given up and everything is to be written again. */
    method Rewrite()
      requires Valid() && forall i: nat {:trigger i in inodes} :: i in inodes ==> !inodes[i].removed
      modifies this
      ensures Valid() && LiveInodes(inodes) == LiveInodes(old(inodes)) && log == []
    {
      ghost var was := inodes;
      ghost var list := LogNodes(log);
      inodes := map i | i in inodes :: inodes[i].(dirty := true, disk := false);
      head, log := INVALID_BLOCK, [];
      forall i: nat ensures InodeOk(inodes, [], i) {
        assert InodeOk(was, list, i);
      }
    }

    /** `lc_syncInodes`. The inodes of `keep` stay in memory although they are removed, because they are open or hide an
        inode of a parent layer; `alloc` is the allocator's answer to a request for blocks, and `ib` a new block.
        Afterwards the log restores the inodes exactly. */
    method SyncInodes(keep: set<nat>, alloc: nat -> nat, ib: nat)
      requires Valid() && (forall n: nat {:trigger alloc(n)} :: Unused(disk, alloc(n), n)) && ib !in disk.iblocks
      requires ib != INVALID_BLOCK
      modifies this
      ensures Valid() && LiveInodes(inodes) == LiveInodes(old(inodes))
      ensures Restores(LogNodes(log), LiveInodes(inodes))
      ensures forall i: nat {:trigger i in inodes} ::
                i in inodes <==> i in old(inodes) && (old(inodes)[i].removed ==> i in keep)
    {
      ghost var list := LogNodes(log);
      var pages, index;
      inodes, pages, index := SyncAll(inodes, list, keep);
      ghost var batch := Batch(pages, index);
      AllSynced(inodes, old(inodes), batch, list);
      if pages == [] {
        assert batch + list == list;
      } else {
        pages := FillupLastInodePage(pages, index);
        disk := FlushInodePages(disk, head, pages, alloc(|pages|), ib, log);
        head, log := ib, [pages] + log;
        assert log[1..] == old(log);
      }
    }

    /** Mounting the layer again after a sync gives the inodes back. */
    method Remount() returns (live: map<nat, DInode>)
      requires Valid() && Restores(LogNodes(log), LiveInodes(inodes))
      ensures live == LiveInodes(inodes)
    {
      live := ReadInodes(disk, head, log);
      forall ino: nat
        ensures (ino in live <==> ino in LiveInodes(inodes)) && (ino in live ==> live[ino] == LiveInodes(inodes)[ino])
      {
        assert Latest(LogNodes(log), ino) == Latest(LogNodes(log), ino);
      }
    }
  }
}
