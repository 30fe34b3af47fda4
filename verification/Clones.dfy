/**
  * Regular files that share the block map of a parent layer (lcfs/inode.c, lcfs/emap.c, lcfs/page.c). The extents are
  * copied before they are changed for the first time.
  */
module Clones {
  import opened Extents
  import opened Emap
  import opened Pages
  import opened Inodes
  import opened Checkpoint
  import opened Blocks
  import opened Allocator
  import opened Rooms
  import opened Truncations
  import opened Growth
  import opened Flush

  /** The extents `rd_emap` points to. */
  class ExtentList {
    var items: seq<Extent>

    constructor (l: seq<Extent>)
      ensures items == l
    {
      items := l;
    }
  }

  /** A clone of the file shares its list of extents; a single extent is copied with the inode. */
  predicate SharesExtents(f: File) {
    f.bmap.blocks > 0 && f.bmap.length == 0
  }

  class FileInode {
    var emap: ExtentList
    var block: nat     // i_extentBlock
    var length: nat    // i_extentLength
    var blocks: nat    // di_blocks
    var shared: bool   // LC_INODE_SHARED
    var size: nat      // i_size
    var table: Table   // i_page or i_hpage
    var dirty: nat
    var first: nat
    var last: nat

    function Contents(): File
      reads this, emap
    {
      File(size, BlockMap(emap.items, block, length, blocks), table, dirty, first, last)
    }

    ghost predicate Valid()
      reads this, emap
    {
      Contents().Valid()
    }

    /** A new file, extended to `size` bytes: it has no blocks and reads as zeros. */
    constructor (size: nat)
      ensures Valid() && this.size == size && dirty == 0 && table == Array([]) && !shared && fresh(emap)
      ensures Contents().bmap == BlockMap([], 0, 0, 0)
    {
      emap := new ExtentList([]);
      block, length, blocks, shared := 0, 0, 0, false;
      this.size, table, dirty, first, last := size, Array([]), 0, 0, 0;
      new;
      EmptyValid(size);
    }

    /** `lc_cloneInode` of a file of a frozen layer, which has no dirty pages. */
    constructor Clone(parent: FileInode)
      requires parent.Valid() && parent.dirty == 0 && parent.table == Array([])
      ensures Valid() && Contents() == parent.Contents().(first := 0, last := 0)
      ensures shared == SharesExtents(parent.Contents())
      ensures forall store: map<nat, Page>, q: nat, k: nat {:trigger Contents().ByteAt(store, q, k)} :: k < 4096 ==>
                Contents().ByteAt(store, q, k) == parent.Contents().ByteAt(store, q, k)
      ensures if shared then emap == parent.emap else fresh(emap)
    {
      var share := parent.blocks > 0 && parent.length == 0;
      if share {
        emap := parent.emap;
      } else {
        emap := new ExtentList([]);
      }
      block, length, blocks, shared := parent.block, parent.length, parent.blocks, share;
      size, table, dirty, first, last := parent.size, Array([]), 0, 0, 0;
      new;
      if !share {
        NoExtents(parent.emap.items, parent.length, parent.blocks);
      }
    }

    /** `lc_copyEmap`, where the inode still shares extents. */
    method Own()
      requires Valid()
      modifies this`emap, this`shared
      ensures Valid() && !shared && Contents() == old(Contents())
      ensures if old(shared) then fresh(emap) else emap == old(emap)
    {
      if shared {
        var l := CopyEmap(emap.items);
        emap := new ExtentList(l);
        shared := false;
      }
    }

    /** New contents, in extents of its own. */
    method Put(f: File)
      requires !shared
      modifies this, emap
      ensures Contents() == f && emap == old(emap) && !shared
    {
      emap.items, block, length, blocks := f.bmap.list, f.bmap.block, f.bmap.length, f.bmap.blocks;
      size, table, dirty, first, last := f.size, f.table, f.dirty, f.first, f.last;
    }

    /** A write goes to dirty pages, and the file grows if need be. `ok` is false where bytes would be lost; the model
        stops there. */
    method Write(store: map<nat, Page>, page: nat, pieces: seq<Piece>) returns (ok: bool)
      requires Valid() && ZeroPast(Contents(), store) && OneWrite(pieces)
      modifies this`table, this`dirty, this`first, this`last, this`size
      ensures Valid() && ZeroPast(Contents(), store) && Contents().bmap == old(Contents().bmap)
      ensures ok <==> !(StartOf(page, pieces) > old(size) && Loses(old(Contents()), store))
      ensures if ok then Wrote(old(Contents()), Contents(), store, page, pieces) else Contents() == old(Contents())
      ensures ok ==> PagesAfter(old(Contents()), Contents(), page, pieces)
    {
      ok := !(StartOf(page, pieces) > size && Loses(Contents(), store));
      if ok {
        var f, _ := WriteFile(Contents(), store, page, pieces);
        table, dirty, first, last, size := f.table, f.dirty, f.first, f.last, f.size;
        assert Contents() == f;
      }
    }

    /** The file lives in layer `l`. */
    ghost predicate In(gfs: Gfs, l: nat)
      reads this, emap, gfs
    {
      && Valid() && gfs.Valid() && IsLayer(gfs.Now(), l) && l != ROOT
      && Settled(Contents().bmap, gfs.owner, Keys(gfs.Aside(l).fextents))
    }

    /** `lc_flushPages`: the extents are copied before blocks are added to them. */
    method FlushDirtyPages(gfs: Gfs, l: nat, store: map<nat, Page>, release: bool) returns (now: map<nat, Page>)
      requires In(gfs, l) && dirty <= |Room(gfs.owner, l)|
      modifies this, gfs, if shared then {} else {emap}
      ensures In(gfs, l) && WrittenOut(old(At(gfs, store)), At(gfs, now), l)
      ensures ForeignKept(old(gfs.owner), store, gfs.owner, now, l)
      ensures (emap == old(emap) && shared == old(shared)) || (fresh(emap) && !shared)
    {
      if dirty == 0 {
        NothingFlushed(Contents(), store, gfs.owner, l, Keys(gfs.Aside(l).fextents));
        return store;
      }
      Own();
      var f := Contents();
      ghost var own0, was := gfs.owner, Keys(gfs.Aside(l).fextents);
      SettledInUse(f.bmap, own0, was);
      var r;
      r, now := FlushFile(gfs, l, f, store, release);
      FlushSettles(f, r, own0, gfs.owner, l, was, Keys(gfs.Aside(l).fextents));
      FlushKeeps(f, r, own0, store, gfs.owner, now, l);
      Put(r);
    }

    /** `lc_truncateFile`. Shared extents are dropped, or copied before they are cut off. `ok` is false where the code
        fails an assert, here or when the file is flushed; the model stops there. */
    method Truncate(to: nat, junk: Page) returns (freed: seq<Extent>, ok: bool)
      requires Valid() && to <= size
      modifies this, if shared then {} else {emap}
      ensures Valid() && (ok <==> !Fails(old(Contents()), to) && !CutsZeros(old(Contents()), to))
      ensures if ok then TruncatedTo(old(Contents()), to, junk, Contents())
              else Contents() == old(Contents()) && shared == old(shared)
      ensures if !ok || (old(shared) && to == 0) then freed == []
              else FreesBeyond(old(Contents()).bmap, PageCount(to), freed)
      ensures (emap == old(emap) && shared == old(shared)) || (fresh(emap) && !shared)
    {
      var f := Contents();
      var r;
      r, freed, ok := TruncateFile(f, to, shared, junk);
      if !ok || CutsZeros(f, to) {
        return [], false;
      }
      if shared && to == 0 {
        emap := new ExtentList([]);
        shared := false;
      } else {
        Own();
      }
      Put(r);
    }

    /** A truncation in layer `l`: the blocks cut off are put aside. */
    method TruncateIn(gfs: Gfs, l: nat, to: nat, junk: Page) returns (ok: bool)
      requires In(gfs, l) && to <= size
      modifies this, gfs, if shared then {} else {emap}
      ensures In(gfs, l) && gfs.View() == old(gfs.View())
      ensures ok <==> !Fails(old(Contents()), to) && !CutsZeros(old(Contents()), to)
      ensures if ok then TruncatedTo(old(Contents()), to, junk, Contents())
              else Contents() == old(Contents()) && gfs.Now() == old(gfs.Now()) && shared == old(shared)
      ensures ok ==> CutsAside(old(At(gfs, map[])), to, old(Keys(gfs.Aside(l).fextents)), Keys(gfs.Aside(l).fextents))
      ensures (emap == old(emap) && shared == old(shared)) || (fresh(emap) && !shared)
    {
      ghost var m, was, dropped := Contents().bmap, Keys(gfs.Aside(l).fextents), shared && to == 0;
      var freed;
      freed, ok := Truncate(to, junk);
      if ok {
        CutSettles(m, Contents().bmap, gfs.owner, was, PageCount(to), freed, dropped);
        FreeInodeDataBlocks(gfs, l, freed);
      }
    }

    /** `lc_truncate` to a size that is not smaller. `ok` is false where the code fails the assert that the extents are
        not shared, and where bytes cut off before would show; the model stops there. */
    method Extend(store: map<nat, Page>, to: nat) returns (ok: bool)
      requires Valid() && ZeroPast(Contents(), store) && size <= to
      modifies this`size
      ensures Valid() && ZeroPast(Contents(), store)
      ensures ok <==> !shared && !Reappears(old(Contents()), store, to)
      ensures Contents() == if ok then old(Contents()).(size := to) else old(Contents())
      ensures ok ==> Extended(old(Contents()), Contents(), store)
    {
      ok := !shared && !Reappears(Contents(), store, to);
      if ok {
        var r := ExtendFile(Contents(), store, to);
        size := to;
        assert Contents() == r;
      }
    }

    /** The state of the file, of what it is read from and of the allocator. */
    ghost function At(gfs: Gfs, store: map<nat, Page>): Moment
      reads this, emap, gfs
    {
      Moment(Contents(), shared, store, gfs.Now(), gfs.View())
    }

    method ApplyWrite(gfs: Gfs, ghost l: nat, store: map<nat, Page>, page: nat, pieces: seq<Piece>)
        returns (done: bool)
      requires In(gfs, l) && ZeroPast(Contents(), store) && OneWrite(pieces)
      modifies this`table, this`dirty, this`first, this`last, this`size
      ensures In(gfs, l) && ZeroPast(Contents(), store)
      ensures TookPlace(Op.Write(page, pieces), done, old(At(gfs, store)), At(gfs, store), l)
    {
      done := Write(store, page, pieces);
    }

    method ApplySync(gfs: Gfs, l: nat, ghost store: map<nat, Page>)
      requires In(gfs, l)
      modifies gfs
      ensures In(gfs, l) && TookPlace(Sync, true, old(At(gfs, store)), At(gfs, store), l)
      ensures ForeignKept(old(gfs.owner), store, gfs.owner, store, l)
    {
      SyncLayer(gfs, l, Contents().bmap, store);
    }

    method ApplyCheckpoint(gfs: Gfs, l: nat, ghost store: map<nat, Page>) returns (done: bool)
      requires In(gfs, l)
      modifies gfs
      ensures In(gfs, l) && TookPlace(Checkpoint, done, old(At(gfs, store)), At(gfs, store), l)
      ensures ForeignKept(old(gfs.owner), store, gfs.owner, store, l)
    {
      done := WriteOut(gfs, l, Contents().bmap, store);
    }

    method ApplyFlush(gfs: Gfs, l: nat, store: map<nat, Page>, release: bool) returns (now: map<nat, Page>, done: bool)
      requires In(gfs, l) && ZeroPast(Contents(), store)
      modifies this, gfs, if shared then {} else {emap}
      ensures In(gfs, l) && ZeroPast(Contents(), now)
      ensures TookPlace(Op.Flush(release), done, old(At(gfs, store)), At(gfs, now), l)
      ensures ForeignKept(old(gfs.owner), store, gfs.owner, now, l)
      ensures (emap == old(emap) && shared == old(shared)) || (fresh(emap) && !shared)
    {
      now := store;
      var room := CountRoom(gfs, l);
      done := dirty <= room;
      if done {
        now := FlushDirtyPages(gfs, l, store, release);
        FlushClear(old(Contents()), store, Contents(), now);
      }
    }

    method ApplyTruncate(gfs: Gfs, l: nat, store: map<nat, Page>, to: nat, junk: Page) returns (done: bool)
      requires In(gfs, l) && ZeroPast(Contents(), store)
      modifies this, gfs, if shared then {} else {emap}
      ensures In(gfs, l) && ZeroPast(Contents(), store) && gfs.View() == old(gfs.View())
      ensures TookPlace(Op.Truncate(to, junk), done, old(At(gfs, store)), At(gfs, store), l)
      ensures (emap == old(emap) && shared == old(shared)) || (fresh(emap) && !shared)
    {
      if to < size {
        done := ApplyCut(gfs, l, store, to, junk);
      } else {
        done := Extend(store, to);
      }
    }

    method ApplyCut(gfs: Gfs, l: nat, store: map<nat, Page>, to: nat, junk: Page) returns (done: bool)
      requires In(gfs, l) && ZeroPast(Contents(), store) && to < size
      modifies this, gfs, if shared then {} else {emap}
      ensures In(gfs, l) && ZeroPast(Contents(), store) && gfs.View() == old(gfs.View())
      ensures TookPlace(Op.Truncate(to, junk), done, old(At(gfs, store)), At(gfs, store), l)
      ensures (emap == old(emap) && shared == old(shared)) || (fresh(emap) && !shared)
    {
      done := TruncateIn(gfs, l, to, junk);
      if done {
        CutClear(old(Contents()), store, to, junk, Contents());
      }
    }

    /** One operation on the file or its layer, if it is carried out. */
    method Apply(gfs: Gfs, l: nat, store: map<nat, Page>, op: Op) returns (now: map<nat, Page>, done: bool)
      requires In(gfs, l) && ZeroPast(Contents(), store) && op.Valid()
      modifies this, gfs, if shared then {} else {emap}
      ensures In(gfs, l) && ZeroPast(Contents(), now)
      ensures TookPlace(op, done, old(At(gfs, store)), At(gfs, now), l)
      ensures ForeignKept(old(gfs.owner), store, gfs.owner, now, l)
      ensures (emap == old(emap) && shared == old(shared)) || (fresh(emap) && !shared)
    {
      now := store;
      match op
      case Write(page, pieces) =>
        done := ApplyWrite(gfs, l, store, page, pieces);
      case Flush(release) =>
        now, done := ApplyFlush(gfs, l, store, release);
      case Truncate(to, junk) =>
        done := ApplyTruncate(gfs, l, store, to, junk);
      case Sync =>
        done := true;
        ApplySync(gfs, l, store);
      case Checkpoint =>
        done := ApplyCheckpoint(gfs, l, store);
    }

    /** Any run of operations: which of them are carried out depends on the state each finds, and the file reads as if
        exactly these were applied to its bytes. */
    method Run(gfs: Gfs, l: nat, store: map<nat, Page>, ops: seq<Op>)
        returns (now: map<nat, Page>, ghost did: seq<bool>, ghost at: seq<Moment>)
      requires In(gfs, l) && ZeroPast(Contents(), store)
      requires forall i {:trigger ops[i]} :: 0 <= i < |ops| ==> ops[i].Valid()
      modifies this, gfs, if shared then {} else {emap}
      ensures In(gfs, l) && ZeroPast(Contents(), now)
      ensures Path(ops, did, at, l) && at[0] == old(At(gfs, store)) && at[|ops|] == At(gfs, now)
      ensures Reads(old(Contents()), store, Contents(), now, Chosen(ops, did))
      ensures ForeignKept(old(gfs.owner), store, gfs.owner, now, l)
    {
      now, did, at := store, [], [At(gfs, store)];
      ghost var own0 := gfs.owner;
      assert ops[..0] == [];
      for i := 0 to |ops|
        invariant In(gfs, l) && ZeroPast(Contents(), now)
        invariant Path(ops[..i], did, at, l) && at[0] == old(At(gfs, store)) && at[i] == At(gfs, now)
        invariant ForeignKept(own0, store, gfs.owner, now, l)
        invariant (emap == old(emap) && shared == old(shared)) || fresh(emap)
      {
        ghost var m, own := At(gfs, now), gfs.owner;
        ghost var was := now;
        var done;
        now, done := Apply(gfs, l, now, ops[i]);
        PathMore(ops, i, did, at, l, done, m, At(gfs, now));
        KeptMore(own0, store, own, was, gfs.owner, now, l);
        did, at := did + [done], at + [At(gfs, now)];
      }
      assert ops[..|ops|] == ops;
      PathReads(ops, did, at, l);
    }
  }

  // ----- The blocks of other layers -----

  /** `b` is allocated by a layer other than the root. */
  ghost predicate OfLayer(own: map<nat, Owner>, b: nat) {
    b in own && own[b].Alloc? && own[b].layer != ROOT
  }

  /** `b` is allocated by a layer other than the root and `l`. */
  ghost predicate Foreign(own: map<nat, Owner>, l: nat, b: nat) {
    OfLayer(own, b) && own[b].layer != l
  }

  /** Blocks of other layers stay with their owners and keep their content. */
  ghost predicate ForeignKept(own0: map<nat, Owner>, store: map<nat, Page>, own: map<nat, Owner>, now: map<nat, Page>,
                              l: nat)
  {
    forall b: nat {:trigger Foreign(own0, l, b)} :: Foreign(own0, l, b) ==>
      b in own && own[b] == own0[b] && ReadBlock(now, b) == ReadBlock(store, b)
  }

  lemma KeptMore(own0: map<nat, Owner>, store: map<nat, Page>, own: map<nat, Owner>, was: map<nat, Page>,
                 own': map<nat, Owner>, now: map<nat, Page>, l: nat)
    requires ForeignKept(own0, store, own, was, l) && ForeignKept(own, was, own', now, l)
    ensures ForeignKept(own0, store, own', now, l)
  {
    forall b: nat | Foreign(own0, l, b)
      ensures b in own' && own'[b] == own0[b] && ReadBlock(now, b) == ReadBlock(store, b)
    {
      assert Foreign(own, l, b);
    }
  }

  /** No block of the file is shared by two pages, belongs to the root layer or is put aside. */
  ghost predicate Settled(m: BlockMap, own: map<nat, Owner>, aside: set<nat>) {
    && Injective(m) && (forall p: nat {:trigger m.At(p)} :: m.At(p) >= 0 ==> OfLayer(own, m.At(p)) && m.At(p) !in aside)
    && forall b: nat {:trigger b in aside} :: b in aside ==> OfLayer(own, b)
  }

  lemma SettledInUse(m: BlockMap, own: map<nat, Owner>, aside: set<nat>)
    requires Settled(m, own, aside)
    ensures BlocksInUse(m, own) && NotAside(m, own, aside) && aside <= InUse(own)
  {
  }

  lemma FlushSettles(f: File, r: File, own0: map<nat, Owner>, own: map<nat, Owner>, l: nat, was: set<nat>,
                     now: set<nat>)
    requires ValidTable(f.table) && Accounted(f, r, own0, own, l, 0, 0) && PutsAside(f, was, now) && l != ROOT
    requires forall p: nat {:trigger r.bmap.At(p)} :: !Get(f.table, p).Dirty() ==> r.bmap.At(p) == f.bmap.At(p)
    requires Settled(f.bmap, own0, was) && Injective(r.bmap)
    ensures Settled(r.bmap, own, now)
  {
    SettledInUse(f.bmap, own0, was);
    StaysNotAside(f, r, own0, own, l, was, now);
    forall b: nat | b in now ensures OfLayer(own, b) {
      if Replaced(f, b) {
        var p: nat :| Get(f.table, p).Dirty() && f.bmap.At(p) == b;
      }
      assert AccountOf(f, r, own0, own, l, 0, 0, b);
    }
    forall p: nat | r.bmap.At(p) >= 0 ensures OfLayer(own, r.bmap.At(p)) {
      ghost var b: nat := r.bmap.At(p);
      assert AccountOf(f, r, own0, own, l, 0, 0, b);
      if Get(f.table, p).Dirty() {
        assert NewBlock(f, r, b);
      } else {
        assert f.bmap.At(p) == b;
      }
    }
  }

  lemma FlushKeeps(f: File, r: File, own0: map<nat, Owner>, store: map<nat, Page>, own: map<nat, Owner>,
                   now: map<nat, Page>, l: nat)
    requires ValidTable(f.table) && Accounted(f, r, own0, own, l, 0, 0)
    requires forall b: nat {:trigger ReadBlock(now, b)} :: b in InUse(own0) ==> ReadBlock(now, b) == ReadBlock(store, b)
    ensures ForeignKept(own0, store, own, now, l)
  {
    forall b: nat | Foreign(own0, l, b)
      ensures b in own && own[b] == own0[b] && ReadBlock(now, b) == ReadBlock(store, b)
    {
      assert AccountOf(f, r, own0, own, l, 0, 0, b);
    }
  }

  lemma CutSettles(m: BlockMap, r: BlockMap, own: map<nat, Owner>, aside: set<nat>, cut: nat, freed: seq<Extent>,
                   dropped: bool)
    requires Settled(m, own, aside) && CutAt(m, cut, r) && if dropped then freed == [] else FreesBeyond(m, cut, freed)
    ensures Settled(r, own, aside + Keys(freed)) && Loose(freed)
  {
    forall p: nat, q: nat | r.At(p) >= 0 && r.At(p) == r.At(q) ensures p == q {
      assert m.At(p) == r.At(p) && m.At(q) == r.At(q);
    }
    forall p: nat | r.At(p) >= 0 ensures OfLayer(own, r.At(p)) && r.At(p) !in aside + Keys(freed) {
      assert m.At(p) == r.At(p);
      ghost var b: nat := r.At(p);
      forall q: nat ensures !PageBeyond(m, cut, b, q) {
      }
    }
    forall b: nat | b in aside + Keys(freed) ensures OfLayer(own, b) {
      if b in Keys(freed) {
        var q: nat :| PageBeyond(m, cut, b, q);
      }
    }
  }

  /** `lc_processLayerBlocks` of layer `l` at a sync: its reserve goes back, and of the blocks put aside those it
      allocated itself become pending. */
  method SyncLayer(gfs: Gfs, l: nat, ghost m: BlockMap, ghost store: map<nat, Page>)
    requires gfs.Valid() && IsLayer(gfs.Now(), l) && l != ROOT && Settled(m, gfs.owner, Keys(gfs.Aside(l).fextents))
    modifies gfs
    ensures gfs.Valid() && IsLayer(gfs.Now(), l) && Settled(m, gfs.owner, Keys(gfs.Aside(l).fextents))
    ensures Synced(old(gfs.View()), old(Keys(gfs.Aside(l).fextents)), gfs.View(), l) && gfs.Aside(l).fextents == []
    ensures ForeignKept(old(gfs.owner), store, gfs.owner, store, l)
  {
    ghost var s, aside := gfs.View(), Keys(gfs.Aside(l).fextents);
    var freed := gfs.ReleaseReservedBlocks(l);
    ghost var t := gfs.View();
    gfs.ProcessFreed(l);
    SyncSettles(m, s, t, gfs.View(), l, aside);
  }

  ghost predicate Synced(s: State, aside: set<nat>, u: State, l: nat) {
    && Enabled(s, Release(l)) && Enabled(Apply(s, Release(l)), FreeOwned(l, aside))
    && u == Apply(Apply(s, Release(l)), FreeOwned(l, aside))
  }

  lemma SyncSettles(m: BlockMap, s: State, t: State, u: State, l: nat, aside: set<nat>)
    requires Enabled(s, Release(l)) && t == Apply(s, Release(l)) && Enabled(t, FreeOwned(l, aside))
    requires u == Apply(t, FreeOwned(l, aside))
    requires Settled(m, s.owner, aside)
    ensures Settled(m, u.owner, {})
    ensures forall b: nat {:trigger Foreign(s.owner, l, b)} :: Foreign(s.owner, l, b) ==>
              b in u.owner && u.owner[b] == s.owner[b]
  {
    forall b: nat | OfLayer(s.owner, b) && (b !in aside || Foreign(s.owner, l, b))
      ensures b in u.owner && u.owner[b] == s.owner[b]
    {
    }
  }

  /** A checkpoint, if there is room for its map: what is pending can be handed out again afterwards. */
  method WriteOut(gfs: Gfs, l: nat, ghost m: BlockMap, ghost store: map<nat, Page>) returns (ok: bool)
    requires gfs.Valid() && IsLayer(gfs.Now(), l) && l != ROOT && Settled(m, gfs.owner, Keys(gfs.Aside(l).fextents))
    modifies gfs
    ensures gfs.Valid() && IsLayer(gfs.Now(), l) && Settled(m, gfs.owner, Keys(gfs.Aside(l).fextents))
    ensures (ok <==> CanPublish(old(gfs.Now()))) && gfs.layers == old(gfs.layers)
    ensures if ok then Published(old(gfs.Now()), old(gfs.View()), gfs.Now(), gfs.View())
            else gfs.Now() == old(gfs.Now()) && gfs.View() == old(gfs.View())
    ensures ForeignKept(old(gfs.owner), store, gfs.owner, store, l)
  {
    ghost var s, g := gfs.View(), gfs.Now();
    ok := gfs.ProcessFreeExtents();
    if ok {
      ghost var step := Publish(gfs.mapBlock, gfs.mapCount, g.mapBlock, g.mapCount, MapBlocks(|gfs.extents|));
      PublishSettles(m, s, step, l, Keys(gfs.Aside(l).fextents));
    }
  }

  /** The step of a checkpoint, with the counts of the lists. */
  ghost predicate Published(g: Lists, s: State, h: Lists, t: State) {
    var step := Publish(h.mapBlock, h.mapCount, g.mapBlock, g.mapCount, MapBlocks(|h.extents|));
    Enabled(s, step) && t == Apply(s, step)
  }

  lemma PublishSettles(m: BlockMap, s: State, step: Step, l: nat, aside: set<nat>)
    requires step.Publish? && Enabled(s, step) && Settled(m, s.owner, aside)
    ensures Settled(m, Apply(s, step).owner, aside)
    ensures forall b: nat {:trigger Foreign(s.owner, l, b)} :: Foreign(s.owner, l, b) ==>
              b in Apply(s, step).owner && Apply(s, step).owner[b] == s.owner[b]
  {
    var t := Apply(s, step);
    forall b: nat | OfLayer(s.owner, b) ensures b in t.owner && t.owner[b] == s.owner[b] {
      assert b in Range(step.mapBlock, step.mapCount) ==> b in Owned(s.owner, Free);
      assert b in Range(step.oldBlock, step.oldCount) ==> b in Owned(s.owner, Alloc(ROOT));
    }
  }

  /** An operation on a file, a sync of its layer, or a checkpoint. */
  datatype Op =
    | Write(page: nat, pieces: seq<Piece>)
    | Flush(release: bool)
    | Truncate(to: nat, junk: Page)
    | Sync
    | Checkpoint
  {
    predicate Valid() {
      Write? ==> OneWrite(pieces)
    }
  }

  /** A file and whether it shares extents, what it is read from, and the allocator. */
  datatype Moment = Moment(file: File, shared: bool, store: map<nat, Page>, lists: Lists, state: State)

  /** An operation is carried out: a write that loses no bytes, a flush with room, a truncation at which the code does
      not fail and by which no bytes show again, a checkpoint with room for its map. */
  ghost predicate CarriedOut(op: Op, m: Moment, l: nat)
    requires ValidTable(m.file.table) && op.Valid()
  {
    match op
    case Write(page, pieces) => !(StartOf(page, pieces) > m.file.size && Loses(m.file, m.store))
    case Flush(release) => m.file.dirty <= |Room(m.state.owner, l)|
    case Truncate(to, junk) =>
      if to < m.file.size then !Fails(m.file, to) && !CutsZeros(m.file, to)
      else !m.shared && !Reappears(m.file, m.store, to)
    case Sync => true
    case Checkpoint => CanPublish(m.lists)
  }

  /** The blocks layer `l` has put aside. */
  ghost function AsideIn(g: Lists, l: nat): set<nat>
    requires IsLayer(g, l)
  {
    Keys(g.layers[l].value.fextents)
  }

  /** A flush: the bytes stay, clean pages keep their blocks, the blocks now in use are those that were and the new
      ones, and the blocks replaced are put aside. */
  ghost predicate WrittenOut(m: Moment, m': Moment, l: nat)
    requires ValidTable(m.file.table) && ValidTable(m'.file.table) && IsLayer(m.lists, l) && IsLayer(m'.lists, l)
  {
    && m'.file.size == m.file.size && m'.file.dirty == 0 && SameData(m.file, m.store, m'.file, m'.store)
    && (forall p: nat {:trigger m'.file.bmap.At(p)} :: !Get(m.file.table, p).Dirty() ==>
          m'.file.bmap.At(p) == m.file.bmap.At(p))
    && Accounted(m.file, m'.file, m.state.owner, m'.state.owner, l, 0, 0)
    && PutsAside(m.file, AsideIn(m.lists, l), AsideIn(m'.lists, l)) && Holes(m.file, m'.file.bmap)
    && (m.file.dirty > 0 ==> Layout(m.file, Allotted(m.lists, l, m.file.dirty), m'.file.bmap))
  }

  /** The blocks past the new end are put aside, unless shared extents were dropped. */
  ghost predicate CutsAside(m: Moment, to: nat, was: set<nat>, now: set<nat>) {
    forall b: nat {:trigger b in now} ::
      b in now <==> b in was || (!(m.shared && to == 0) && Beyond(m.file.bmap, PageCount(to), b))
  }

  /** What an operation that is carried out does. */
  ghost predicate Did(op: Op, m: Moment, m': Moment, l: nat)
    requires m.file.Valid() && m'.file.Valid() && op.Valid() && IsLayer(m.lists, l) && IsLayer(m'.lists, l)
  {
    match op
    case Write(page, pieces) =>
      && m' == m.(file := m'.file) && m'.file.bmap == m.file.bmap
      && Wrote(m.file, m'.file, m.store, page, pieces)
      && PagesAfter(m.file, m'.file, page, pieces)
    case Flush(release) => WrittenOut(m, m', l)
    case Truncate(to, junk) =>
      && m'.store == m.store && m'.state == m.state
      && if to < m.file.size
         then TruncatedTo(m.file, to, junk, m'.file) && CutsAside(m, to, AsideIn(m.lists, l), AsideIn(m'.lists, l))
         else m' == m.(file := m.file.(size := to)) && Extended(m.file, m'.file, m.store)
    case Sync =>
      && m' == m.(lists := m'.lists, state := m'.state)
      && Synced(m.state, AsideIn(m.lists, l), m'.state, l) && AsideIn(m'.lists, l) == {}
    case Checkpoint =>
      && m' == m.(lists := m'.lists, state := m'.state) && Published(m.lists, m.state, m'.lists, m'.state)
      && m'.lists.layers == m.lists.layers
  }

  /** An operation, carried out or not. */
  ghost predicate TookPlace(op: Op, done: bool, m: Moment, m': Moment, l: nat) {
    && m.file.Valid() && m'.file.Valid() && op.Valid() && IsLayer(m.lists, l) && IsLayer(m'.lists, l)
    && (done <==> CarriedOut(op, m, l)) && if done then Did(op, m, m', l) else m' == m
  }

  /** A run through the states `at`. */
  ghost predicate Path(ops: seq<Op>, did: seq<bool>, at: seq<Moment>, l: nat) {
    && |did| == |ops| && |at| == |ops| + 1
    && forall i: nat {:trigger PathAt(ops, did, at, l, i)} :: i < |ops| ==> PathAt(ops, did, at, l, i)
  }

  ghost predicate PathAt(ops: seq<Op>, did: seq<bool>, at: seq<Moment>, l: nat, i: nat)
    requires i < |ops| == |did| && |at| == |ops| + 1
  {
    TookPlace(ops[i], did[i], at[i], at[i + 1], l)
  }

  /** The operations that were carried out. */
  ghost function Chosen(ops: seq<Op>, did: seq<bool>): seq<Op>
    requires |did| == |ops|
  {
    if ops == [] then []
    else
      var n := |ops| - 1;
      Chosen(ops[..n], did[..n]) + if did[n] then [ops[n]] else []
  }

  lemma PathMore(ops: seq<Op>, i: nat, did: seq<bool>, at: seq<Moment>, l: nat, done: bool, m: Moment, m': Moment)
    requires i < |ops| && Path(ops[..i], did, at, l) && at[i] == m && TookPlace(ops[i], done, m, m', l)
    ensures Path(ops[..i + 1], did + [done], at + [m'], l)
  {
    var ops', did', at' := ops[..i + 1], did + [done], at + [m'];
    forall j: nat | j < i + 1 ensures PathAt(ops', did', at', l, j) {
      if j < i {
        assert PathAt(ops[..i], did, at, l, j);
      }
    }
  }

  /** What an operation shows. */
  lemma StepReads(op: Op, done: bool, m: Moment, m': Moment, l: nat)
    requires TookPlace(op, done, m, m', l)
    ensures Reads(m.file, m.store, m'.file, m'.store, if done then [op] else [])
  {
    if done {
      match op
      case Write(page, pieces) => WriteShows(m.file, m'.file, m.store, page, pieces);
      case Flush(release) => FlushShows(m.file, m.store, m'.file, m'.store, release);
      case Truncate(to, junk) =>
        if to < m.file.size {
          CutShows(m.file, m'.file, m.store, to, junk);
        } else {
          ExtendShows(m.file, m'.file, m.store, to, junk);
        }
      case Sync => SameShows(m.file, m.store, op);
      case Checkpoint => SameShows(m.file, m.store, op);
    }
  }

  lemma PathLess(ops: seq<Op>, did: seq<bool>, at: seq<Moment>, l: nat, n: nat)
    requires Path(ops, did, at, l) && n <= |ops|
    ensures Path(ops[..n], did[..n], at[..n + 1], l)
  {
    var ops', did', at' := ops[..n], did[..n], at[..n + 1];
    forall i: nat | i < n ensures PathAt(ops', did', at', l, i) {
      assert PathAt(ops, did, at, l, i);
    }
  }

  /** A run reads as the operations that were carried out. */
  lemma {:induction false} PathReads(ops: seq<Op>, did: seq<bool>, at: seq<Moment>, l: nat)
    requires Path(ops, did, at, l) && at[0].file.Valid()
    ensures at[|ops|].file.Valid()
    ensures Reads(at[0].file, at[0].store, at[|ops|].file, at[|ops|].store, Chosen(ops, did))
  {
    if ops != [] {
      var n := |ops| - 1;
      assert PathAt(ops, did, at, l, n);
      PathLess(ops, did, at, l, n);
      PathReads(ops[..n], did[..n], at[..n + 1], l);
      StepReads(ops[n], did[n], at[n], at[n + 1], l);
      ShowsMore(at[0].file, at[0].store, at[n].file, at[n].store, Chosen(ops[..n], did[..n]), at[n + 1].file,
                at[n + 1].store, if did[n] then [ops[n]] else []);
    }
  }

  /** The byte and the size that an operation leaves. */
  ghost function ByteAfter(op: Op, q: nat, k: nat, b: Byte): Byte
    requires k < 4096
  {
    if op.Write? then Overwrite(op.page, op.pieces, q, k, b)
    else if op.Truncate? && 4096 * q + k >= op.to then 0
    else b
  }

  ghost function SizeAfter(op: Op, n: nat): nat {
    if op.Write? && op.pieces != [] && EndOf(op.page, op.pieces) > n then EndOf(op.page, op.pieces)
    else if op.Truncate? then op.to
    else n
  }

  /** The same for a run of operations. */
  ghost function Seen(ops: seq<Op>, q: nat, k: nat, was: Byte): Byte
    requires k < 4096
  {
    if ops == [] then was else ByteAfter(ops[|ops| - 1], q, k, Seen(ops[..|ops| - 1], q, k, was))
  }

  ghost function Resized(ops: seq<Op>, size: nat): nat {
    if ops == [] then size else SizeAfter(ops[|ops| - 1], Resized(ops[..|ops| - 1], size))
  }

  /** A reader of file `r` sees what the operations made of file `f`; past the end of a file there are zeros. */
  ghost predicate Reads(f: File, store: map<nat, Page>, r: File, now: map<nat, Page>, ops: seq<Op>)
    requires ValidTable(f.table) && ValidTable(r.table)
  {
    r.size == Resized(ops, f.size) &&
    forall q: nat, k: nat {:trigger ByteOf(r, now, q, k)} :: k < 4096 ==>
      ByteOf(r, now, q, k) == Seen(ops, q, k, ByteOf(f, store, q, k))
  }

  lemma OneOp(op: Op, q: nat, k: nat, was: Byte, size: nat)
    requires k < 4096
    ensures Seen([op], q, k, was) == ByteAfter(op, q, k, was) && Resized([op], size) == SizeAfter(op, size)
  {
    assert [op][..0] == [];
  }

  /** An operation that leaves the file alone. */
  lemma SameShows(f: File, store: map<nat, Page>, op: Op)
    requires ValidTable(f.table) && (op.Sync? || op.Checkpoint?)
    ensures Reads(f, store, f, store, [op]) && Reads(f, store, f, store, [])
  {
    assert [op][..0] == [];
  }

  lemma WriteShows(f: File, r: File, store: map<nat, Page>, page: nat, pieces: seq<Piece>)
    requires ValidTable(f.table) && ValidTable(r.table) && OneWrite(pieces) && Wrote(f, r, store, page, pieces)
    ensures Reads(f, store, r, store, [Write(page, pieces)])
  {
    OneOp(Write(page, pieces), 0, 0, 0, f.size);
    forall q: nat, k: nat | k < 4096
      ensures ByteOf(r, store, q, k) == Seen([Write(page, pieces)], q, k, ByteOf(f, store, q, k))
    {
      OneOp(Write(page, pieces), q, k, ByteOf(f, store, q, k), f.size);
      Covers(page, pieces, q, k);
    }
  }

  lemma FlushShows(f: File, store: map<nat, Page>, r: File, now: map<nat, Page>, release: bool)
    requires ValidTable(f.table) && ValidTable(r.table) && r.size == f.size && SameData(f, store, r, now)
    ensures Reads(f, store, r, now, [Flush(release)])
  {
    OneOp(Flush(release), 0, 0, 0, f.size);
    forall q: nat, k: nat | k < 4096
      ensures ByteOf(r, now, q, k) == Seen([Flush(release)], q, k, ByteOf(f, store, q, k))
    {
      OneOp(Flush(release), q, k, ByteOf(f, store, q, k), f.size);
    }
  }

  lemma FlushClear(f: File, store: map<nat, Page>, r: File, now: map<nat, Page>)
    requires ValidTable(f.table) && ValidTable(r.table) && SameData(f, store, r, now) && ZeroPast(f, store)
    ensures ZeroPast(r, now)
  {
    forall q: nat ensures PageClear(r, now, q) {
      assert PageClear(f, store, q);
    }
  }

  lemma NothingFlushed(f: File, store: map<nat, Page>, own: map<nat, Owner>, l: nat, aside: set<nat>)
    requires f.Valid() && f.dirty == 0
    ensures SameData(f, store, f, store) && Accounted(f, f, own, own, l, 0, 0) && PutsAside(f, aside, aside)
    ensures Holes(f, f.bmap)
  {
    BelowSize(f);
    forall q: nat ensures !Get(f.table, q).Dirty() {
      NoneLeft(f.table, f.dirty, PageCount(f.size), q);
    }
    forall b: nat ensures AccountOf(f, f, own, own, l, 0, 0, b) {
    }
  }

  lemma ExtendShows(f: File, r: File, store: map<nat, Page>, to: nat, junk: Page)
    requires f.Valid() && r.Valid() && f.size <= to && r.size == to && Extended(f, r, store)
    ensures Reads(f, store, r, store, [Truncate(to, junk)])
  {
    OneOp(Truncate(to, junk), 0, 0, 0, f.size);
    forall q: nat, k: nat | k < 4096
      ensures ByteOf(r, store, q, k) == Seen([Truncate(to, junk)], q, k, ByteOf(f, store, q, k))
    {
      OneOp(Truncate(to, junk), q, k, ByteOf(f, store, q, k), f.size);
    }
  }

  lemma CutShows(f: File, r: File, store: map<nat, Page>, to: nat, junk: Page)
    requires f.Valid() && to <= f.size && TruncatedTo(f, to, junk, r)
    ensures Reads(f, store, r, store, [Truncate(to, junk)])
  {
    OneOp(Truncate(to, junk), 0, 0, 0, f.size);
    forall q: nat, k: nat | k < 4096
      ensures ByteOf(r, store, q, k) == Seen([Truncate(to, junk)], q, k, ByteOf(f, store, q, k))
    {
      OneOp(Truncate(to, junk), q, k, ByteOf(f, store, q, k), f.size);
      if 4096 * q + k < to {
        CutBytes(f, to, EndMapped(f, to), junk, r, store, q, k);
      }
    }
  }

  lemma {:induction false} SeenConcat(a: seq<Op>, b: seq<Op>, q: nat, k: nat, was: Byte, size: nat)
    requires k < 4096 && |b| <= 1
    ensures Seen(a + b, q, k, was) == Seen(b, q, k, Seen(a, q, k, was))
    ensures Resized(a + b, size) == Resized(b, Resized(a, size))
  {
    if b == [] {
      assert a + b == a;
    } else {
      assert (a + b)[..|a + b| - 1] == a && b[..0] == [];
    }
  }

  lemma ShowsMore(f: File, store: map<nat, Page>, r: File, now: map<nat, Page>, a: seq<Op>, r': File,
                  now': map<nat, Page>, b: seq<Op>)
    requires ValidTable(f.table) && ValidTable(r.table) && ValidTable(r'.table) && |b| <= 1
    requires Reads(f, store, r, now, a) && Reads(r, now, r', now', b)
    ensures Reads(f, store, r', now', a + b)
  {
    SeenConcat(a, b, 0, 0, 0, f.size);
    forall q: nat, k: nat | k < 4096
      ensures ByteOf(r', now', q, k) == Seen(a + b, q, k, ByteOf(f, store, q, k))
    {
      SeenConcat(a, b, q, k, ByteOf(f, store, q, k), f.size);
      assert ByteOf(r, now, q, k) == Seen(a, q, k, ByteOf(f, store, q, k));
    }
  }

  lemma {:induction false} NoPagesValid(f: File)
    requires f.bmap.list == [] && f.bmap.length == 0 && f.bmap.blocks == 0
    requires f.table.Array? && f.table.pages == [] && f.dirty == 0 && f.last == 0
    ensures f.Valid()
  {
    CountNone(f.table, PageCount(f.size));
  }

  lemma {:induction false} EmptyValid(size: nat)
    ensures File(size, BlockMap([], 0, 0, 0), Array([]), 0, 0, 0).Valid()
  {
    NoPagesValid(File(size, BlockMap([], 0, 0, 0), Array([]), 0, 0, 0));
  }

  lemma NoExtents(l: seq<Extent>, length: nat, blocks: nat)
    requires EmapList(l) && (length > 0 ==> l == []) && blocks == length + Total(l) && (blocks == 0 || length > 0)
    ensures l == []
  {
    if l != [] {
      EmapIs(l);
    }
  }

  /** Clone isolation: whatever is written, flushed and truncated in the clone of a file of a frozen layer, and however
      often its layer is synced and a checkpoint taken in between, only the allocator changes among the things that
      exist. Every byte of the parent is what it was, its blocks still belong to its layer, and the clone reads as the
      parent with exactly those operations applied that its state allows. */
  method CloneAndRun(parent: FileInode, gfs: Gfs, l: nat, store: map<nat, Page>, ops: seq<Op>)
    returns (child: FileInode, now: map<nat, Page>, ghost did: seq<bool>, ghost at: seq<Moment>)
    requires parent.In(gfs, l) && parent.dirty == 0 && parent.table == Array([]) && ZeroPast(parent.Contents(), store)
    requires forall i {:trigger ops[i]} :: 0 <= i < |ops| ==> ops[i].Valid()
    requires forall p: nat {:trigger parent.Contents().bmap.At(p)} :: parent.Contents().bmap.At(p) >= 0 ==>
               Foreign(gfs.owner, l, parent.Contents().bmap.At(p))
    modifies gfs
    ensures fresh(child) && child.In(gfs, l) && ZeroPast(child.Contents(), now)
    ensures Path(ops, did, at, l) && at[|ops|] == child.At(gfs, now)
    ensures at[0] == Moment(parent.Contents().(first := 0, last := 0), SharesExtents(parent.Contents()), store,
                            old(gfs.Now()), old(gfs.View()))
    ensures Reads(parent.Contents(), store, child.Contents(), now, Chosen(ops, did))
    ensures parent.Valid() && parent.Contents() == old(parent.Contents())
    ensures forall p: nat {:trigger parent.Contents().bmap.At(p)} :: parent.Contents().bmap.At(p) >= 0 ==>
              Foreign(gfs.owner, l, parent.Contents().bmap.At(p))
    ensures forall q: nat, k: nat {:trigger parent.Contents().ByteAt(now, q, k)} :: k < 4096 ==>
              parent.Contents().ByteAt(now, q, k) == parent.Contents().ByteAt(store, q, k)
  {
    child := new FileInode.Clone(parent);
    ghost var f := child.Contents();
    CloneClear(parent.Contents(), f, store);
    now, did, at := child.Run(gfs, l, store, ops);
    ParentKeeps(parent.Contents(), old(gfs.owner), store, gfs.owner, now, l);
    CloneShows(parent.Contents(), f, store, child.Contents(), now, Chosen(ops, did));
  }

  /** A clone is made larger before anything else is done to it: the code fails exactly if its parent is fragmented. */
  method CloneAndExtend(parent: FileInode, store: map<nat, Page>, to: nat) returns (child: FileInode, ok: bool)
    requires parent.Valid() && parent.dirty == 0 && parent.table == Array([]) && ZeroPast(parent.Contents(), store)
    requires parent.size <= to
    ensures fresh(child) && child.Valid() && (ok <==> !SharesExtents(parent.Contents()))
  {
    child := new FileInode.Clone(parent);
    CloneClear(parent.Contents(), child.Contents(), store);
    ok := child.Extend(store, to);
  }

  lemma ParentKeeps(f: File, own0: map<nat, Owner>, store: map<nat, Page>, own: map<nat, Owner>, now: map<nat, Page>,
                    l: nat)
    requires f.Valid() && ForeignKept(own0, store, own, now, l)
    requires forall p: nat {:trigger f.bmap.At(p)} :: f.bmap.At(p) >= 0 ==> Foreign(own0, l, f.bmap.At(p))
    ensures forall p: nat {:trigger f.bmap.At(p)} :: f.bmap.At(p) >= 0 ==> Foreign(own, l, f.bmap.At(p))
    ensures forall q: nat, k: nat {:trigger f.ByteAt(now, q, k)} :: k < 4096 ==>
              f.ByteAt(now, q, k) == f.ByteAt(store, q, k)
  {
    forall p: nat | f.bmap.At(p) >= 0
      ensures Foreign(own, l, f.bmap.At(p)) && ReadBlock(now, f.bmap.At(p)) == ReadBlock(store, f.bmap.At(p))
    {
      assert Foreign(own0, l, f.bmap.At(p));
    }
    forall q: nat, k: nat | k < 4096 ensures f.ByteAt(now, q, k) == f.ByteAt(store, q, k) {
      assert f.bmap.At(q) == f.bmap.At(q);
    }
  }

  lemma CloneClear(p: File, f: File, store: map<nat, Page>)
    requires p.Valid() && f.Valid() && f.bmap == p.bmap && f.size == p.size && p.dirty == 0 && ZeroPast(p, store)
    ensures ZeroPast(f, store)
  {
    BelowSize(p);
    forall q: nat ensures PageClear(f, store, q) {
      NoneLeft(p.table, p.dirty, PageCount(p.size), q);
      assert PageClear(p, store, q);
    }
  }

  lemma CloneShows(p: File, f: File, store: map<nat, Page>, r: File, now: map<nat, Page>, ops: seq<Op>)
    requires ValidTable(p.table) && ValidTable(f.table) && ValidTable(r.table) && p.size == f.size
    requires Reads(f, store, r, now, ops)
    requires forall q: nat, k: nat {:trigger f.ByteAt(store, q, k)} :: k < 4096 ==>
              f.ByteAt(store, q, k) == p.ByteAt(store, q, k)
    ensures Reads(p, store, r, now, ops)
  {
    forall q: nat, k: nat | k < 4096 ensures ByteOf(f, store, q, k) == ByteOf(p, store, q, k) {
    }
  }
}
