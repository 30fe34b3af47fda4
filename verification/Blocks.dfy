/** The block allocator (lcfs/block.c): extent lists that carry out the steps of `Checkpoint`. */
module Blocks {
  import opened Extents
  import opened Checkpoint

  /** `LC_INVALID_BLOCK`, what a failed allocation answers. */
  const INVALID_BLOCK: nat := 0x0000FFFFFFFFFFFF

  /** Blocks a layer reserves from the global pool at a time (`LC_BLOCK_RESERVE`). */
  const BLOCK_RESERVE: nat := 8192

  /** Extent records in a block of the free map (`LC_EXTENT_BLOCK`). */
  const EXTENT_BLOCK: nat := 255

  datatype Option<T> = None | Some(value: T)

  /** The space-management fields of `struct fs`. */
  datatype Layer = Layer(
    extents: seq<Extent>,   // unused blocks reserved by the layer
    aextents: seq<Extent>,  // blocks allocated by the layer; not used for the root layer
    fextents: seq<Extent>,  // blocks freed in the layer, waiting to be processed
    reserved: nat           // fs_reservedBlocks
  )

  /** The space-management fields of `struct gfs` other than the counter of used blocks. */
  datatype Lists = Lists(
    tblocks: nat,                // sb_tblocks
    extents: seq<Extent>,        // gfs_extents
    fextents: seq<Extent>,       // gfs_fextents
    layers: seq<Option<Layer>>,  // gfs_fs
    mapBlock: nat,               // sb_extentBlock, where the free map was last written
    mapCount: nat                // sb_extentCount
  )

  predicate IsLayer(g: Lists, l: nat) {
    l < |g.layers| && g.layers[l].Some?
  }

  function Live(layers: seq<Option<Layer>>): set<nat> {
    set l | 0 <= l < |layers| && layers[l].Some?
  }

  function SetLayer(g: Lists, l: nat, fs: Layer): Lists
    requires l < |g.layers|
  {
    g.(layers := g.layers[l := Some(fs)])
  }

  // ----- Lists agree with the owners of the blocks -----

  ghost predicate OwnersOk(g: Lists, owner: map<nat, Owner>) {
    && START_BLOCK <= g.tblocks < INVALID_BLOCK && IsLayer(g, ROOT)
    && owner.Keys == Device(g.tblocks)
    && forall b :: b in owner && (owner[b].Reserve? || owner[b].Alloc?) ==> IsLayer(g, owner[b].layer)
  }

  ghost predicate PoolsOk(owner: map<nat, Owner>, extents: seq<Extent>, fextents: seq<Extent>) {
    && Canonical(extents) && Keys(extents) == Owned(owner, Free)
    && Canonical(fextents) && Keys(fextents) == Owned(owner, Pending)
  }

  ghost predicate LayerOk(owner: map<nat, Owner>, l: nat, fs: Layer) {
    && Loose(fs.extents) && Apart(fs.extents)
    && Keys(fs.extents) == Owned(owner, Reserve(l)) && Total(fs.extents) == fs.reserved
    && Canonical(fs.aextents)
    && (if l == ROOT then fs.aextents == [] else Keys(fs.aextents) == Owned(owner, Alloc(l)))
    // The root layer has no list to check frees against: what it frees is its own and listed once.
    && Loose(fs.fextents)
    && (l == ROOT ==> Apart(fs.fextents) && Keys(fs.fextents) <= Owned(owner, Alloc(ROOT)))
  }

  /** The blocks of the free map belong to the root layer and are not waiting to be freed. */
  ghost predicate MapOk(g: Lists, owner: map<nat, Owner>) {
    && IsLayer(g, ROOT)
    && Range(g.mapBlock, g.mapCount) <= Owned(owner, Alloc(ROOT))
    && Range(g.mapBlock, g.mapCount) !! Keys(g.layers[ROOT].value.fextents)
  }

  /** The global lists and those of the layers before index `n` agree with `owner`. */
  ghost predicate Agree(g: Lists, owner: map<nat, Owner>, n: nat)
    requires n <= |g.layers|
  {
    if n == 0 then
      OwnersOk(g, owner) && PoolsOk(owner, g.extents, g.fextents) && MapOk(g, owner)
    else
      Agree(g, owner, n - 1) && (g.layers[n - 1].Some? ==> LayerOk(owner, n - 1, g.layers[n - 1].value))
  }

  ghost predicate AgreeFlat(g: Lists, owner: map<nat, Owner>, n: nat)
    requires n <= |g.layers|
  {
    && OwnersOk(g, owner) && PoolsOk(owner, g.extents, g.fextents) && MapOk(g, owner)
    && forall l :: 0 <= l < n && g.layers[l].Some? ==> LayerOk(owner, l, g.layers[l].value)
  }

  lemma {:induction false} AgreeIs(g: Lists, owner: map<nat, Owner>, n: nat)
    requires n <= |g.layers|
    ensures Agree(g, owner, n) <==> AgreeFlat(g, owner, n)
  {
    if n > 0 {
      AgreeIs(g, owner, n - 1);
    }
  }

  lemma PoolsCount(owner: map<nat, Owner>, extents: seq<Extent>, fextents: seq<Extent>)
    requires PoolsOk(owner, extents, fextents)
    ensures FreeCount(owner) == Total(extents) + Total(fextents)
  {
    CanonicalSize(extents);
    CanonicalSize(fextents);
  }

  /** `o` is a global list or belongs to layer `l`. */
  predicate Near(o: Owner, l: nat) {
    o.Free? || o.Pending? || o == Reserve(l) || o == Alloc(l)
  }

  /** `o` and `p` differ only in what the global lists and layer `l` hold. */
  ghost predicate SameElsewhere(o: map<nat, Owner>, p: map<nat, Owner>, l: nat) {
    o.Keys == p.Keys && forall x :: !Near(x, l) ==> Owned(p, x) == Owned(o, x)
  }

  lemma MoveSame(o: map<nat, Owner>, r: set<nat>, from: Owner, to: Owner, l: nat)
    requires Holds(o, r, from) && from != to && Near(from, l) && Near(to, l)
    ensures SameElsewhere(o, Move(o, r, to), l)
  {
    MoveAll(o, r, from, to);
    assert Move(o, r, to).Keys == o.Keys;
  }

  lemma FarLayer(o: map<nat, Owner>, p: map<nat, Owner>, l: nat, x: nat, fs: Layer)
    requires SameElsewhere(o, p, l) && x != l && LayerOk(o, x, fs)
    ensures LayerOk(p, x, fs)
  {
    assert Owned(p, Reserve(x)) == Owned(o, Reserve(x));
    assert Owned(p, Alloc(x)) == Owned(o, Alloc(x));
  }

  lemma FarOwner(g: Lists, o: map<nat, Owner>, p: map<nat, Owner>, l: nat, b: nat)
    requires OwnersOk(g, o) && SameElsewhere(o, p, l) && IsLayer(g, l)
    requires b in p && (p[b].Reserve? || p[b].Alloc?)
    ensures IsLayer(g, p[b].layer)
  {
    if !Near(p[b], l) {
      assert b in Owned(p, p[b]);
      assert b in Owned(o, p[b]);
    }
  }

  /** A change of owners that concerns the global lists and layer `l` keeps the agreement, if those
      lists follow. */
  lemma {:induction false} NearAgree(g: Lists, o: map<nat, Owner>, p: map<nat, Owner>, l: nat, h: Lists)
    requires Agree(g, o, |g.layers|) && IsLayer(g, l) && IsLayer(h, l)
    requires h.layers == g.layers[l := h.layers[l]] && h.tblocks == g.tblocks
    requires SameElsewhere(o, p, l)
    requires PoolsOk(p, h.extents, h.fextents) && LayerOk(p, l, h.layers[l].value)
    requires if l == ROOT then MapOk(h, p) else h.mapBlock == g.mapBlock && h.mapCount == g.mapCount
    ensures Agree(h, p, |h.layers|)
  {
    AgreeIs(g, o, |g.layers|);
    assert l != ROOT ==> Owned(p, Alloc(ROOT)) == Owned(o, Alloc(ROOT));
    OwnersFollow(g, o, p, l, h);
    LayersFollow(g, o, p, l, h);
    AgreeIs(h, p, |h.layers|);
  }

  lemma OwnersFollow(g: Lists, o: map<nat, Owner>, p: map<nat, Owner>, l: nat, h: Lists)
    requires OwnersOk(g, o) && IsLayer(g, l) && IsLayer(h, l)
    requires h.layers == g.layers[l := h.layers[l]] && h.tblocks == g.tblocks
    requires SameElsewhere(o, p, l)
    ensures OwnersOk(h, p)
  {
    forall b | b in p && (p[b].Reserve? || p[b].Alloc?) ensures IsLayer(h, p[b].layer) {
      FarOwner(g, o, p, l, b);
    }
  }

  lemma LayersFollow(g: Lists, o: map<nat, Owner>, p: map<nat, Owner>, l: nat, h: Lists)
    requires forall x :: 0 <= x < |g.layers| && g.layers[x].Some? ==> LayerOk(o, x, g.layers[x].value)
    requires IsLayer(g, l) && IsLayer(h, l) && h.layers == g.layers[l := h.layers[l]]
    requires SameElsewhere(o, p, l) && LayerOk(p, l, h.layers[l].value)
    ensures forall x :: 0 <= x < |h.layers| && h.layers[x].Some? ==> LayerOk(p, x, h.layers[x].value)
  {
    forall x | 0 <= x < |h.layers| && h.layers[x].Some? ensures LayerOk(p, x, h.layers[x].value) {
      if x != l {
        FarLayer(o, p, l, x, g.layers[x].value);
      }
    }
  }

  lemma SetLayerLive(g: Lists, l: nat, fs: Layer)
    requires IsLayer(g, l)
    ensures Live(SetLayer(g, l, fs).layers) == Live(g.layers)
  {
  }

  /** What the list operations need to know of a layer and the global lists. */
  ghost predicate Ready(g: Lists, l: nat) {
    && IsLayer(g, l)
    && var fs := g.layers[l].value;
    && Loose(fs.extents) && Apart(fs.extents) && Total(fs.extents) == fs.reserved
    && Canonical(fs.aextents) && Keys(fs.extents) !! Keys(fs.aextents) && (l == ROOT ==> fs.aextents == [])
    && Loose(fs.fextents) && (l == ROOT ==> Apart(fs.fextents))
    && Canonical(g.extents) && Canonical(g.fextents) && Keys(g.extents) !! Keys(g.fextents)
    && Keys(g.extents) !! Keys(fs.extents) && Keys(g.extents) !! Keys(fs.aextents)
    && Keys(g.fextents) !! Keys(fs.extents) && Keys(g.fextents) !! Keys(fs.aextents)
    && (l == ROOT ==> Keys(g.fextents) !! Keys(fs.fextents) && Keys(g.extents) !! Keys(fs.fextents))
  }

  lemma LayerFacts(g: Lists, owner: map<nat, Owner>, l: nat)
    requires Agree(g, owner, |g.layers|) && IsLayer(g, l)
    ensures LayerOk(owner, l, g.layers[l].value) && PoolsOk(owner, g.extents, g.fextents) && OwnersOk(g, owner)
    ensures MapOk(g, owner)
  {
    AgreeIs(g, owner, |g.layers|);
  }

  lemma LayerReady(g: Lists, owner: map<nat, Owner>, l: nat)
    requires Agree(g, owner, |g.layers|) && IsLayer(g, l)
    ensures Ready(g, l)
  {
    LayerFacts(g, owner, l);
    assert forall a, b :: a != b ==> Owned(owner, a) !! Owned(owner, b);
  }

  // ----- Allocation -----

  /** Some extent of the list has `count` blocks. */
  ghost predicate HasRun(list: seq<Extent>, count: nat) {
    exists e :: e in list && e.count >= count
  }

  /** How many blocks are taken from the global pool for a request of `count`. */
  ghost function ChunkFor(pool: seq<Extent>, count: nat): nat {
    if count > BLOCK_RESERVE || !HasRun(pool, BLOCK_RESERVE) then count else BLOCK_RESERVE
  }

  /** The blocks `lc_blockAlloc` answers with: the first that are enough, in the reserve of the layer or else the
      pool. */
  ghost function Allotted(g: Lists, l: nat, count: nat): nat
    requires IsLayer(g, l)
  {
    var reserve, chunk := g.layers[l].value.extents, ChunkFor(g.extents, count);
    if HasRun(reserve, count) then FirstFit(reserve, count)
    else if HasRun(g.extents, chunk) then FirstFit(g.extents, chunk)
    else INVALID_BLOCK
  }

  /** No extent before the one at `i` has `count` blocks. */
  ghost predicate FirstAt(list: seq<Extent>, count: nat, i: nat) {
    i < |list| && list[i].count >= count && forall j :: 0 <= j < i ==> list[j].count < count
  }

  /** A layer gets the start of the first extent of its reserve with enough blocks. Only if there is none, it gets the
      start of the first extent of the pool with 8192 blocks, or with enough if more are asked for or none has 8192. */
  lemma AllottedLaw(g: Lists, l: nat, count: nat, i: nat)
    requires IsLayer(g, l)
    ensures var reserve := g.layers[l].value.extents;
            && (FirstAt(reserve, count, i) ==> Allotted(g, l, count) == reserve[i].start)
            && ((forall e :: e in reserve ==> e.count < count) ==>
                  && (count <= 8192 && FirstAt(g.extents, 8192, i) ==> Allotted(g, l, count) == g.extents[i].start)
                  && ((count > 8192 || forall e :: e in g.extents ==> e.count < 8192) ==>
                        && (FirstAt(g.extents, count, i) ==> Allotted(g, l, count) == g.extents[i].start)
                        && ((forall e :: e in g.extents ==> e.count < count) ==>
                              Allotted(g, l, count) == INVALID_BLOCK)))
  {
    var reserve := g.layers[l].value.extents;
    if FirstAt(reserve, count, i) {
      FirstFitIs(reserve, count, i);
      assert reserve[i] in reserve;
    }
    if FirstAt(g.extents, 8192, i) {
      FirstFitIs(g.extents, 8192, i);
      assert g.extents[i] in g.extents;
    }
    if FirstAt(g.extents, count, i) {
      FirstFitIs(g.extents, count, i);
      assert g.extents[i] in g.extents;
    }
  }

  /** The layer's lists after it took `count` blocks at `block` from its reserve. */
  ghost predicate TookReserved(l: nat, fs: Layer, block: nat, count: nat, r: Layer) {
    && Range(block, count) <= Keys(fs.extents)
    && Loose(r.extents) && Apart(r.extents) && Total(r.extents) == r.reserved
    && Keys(r.extents) == Keys(fs.extents) - Range(block, count)
    && Canonical(r.aextents)
    && (if l == ROOT then r.aextents == [] else Keys(r.aextents) == Keys(fs.aextents) + Range(block, count))
    && r.fextents == fs.fextents
  }

  /** `lc_allocateBlock` from the reserve of a layer, on its lists. */
  method TakeFromReserve(g: Lists, l: nat, count: nat) returns (found: bool, block: nat, r: Layer)
    requires Ready(g, l) && count > 0
    ensures found ==> TookReserved(l, g.layers[l].value, block, count, r)
    ensures found <==> HasRun(g.layers[l].value.extents, count)
    ensures found ==> block == FirstFit(g.layers[l].value.extents, count)
  {
    var fs := g.layers[l].value;
    var rest;
    rest, found, block := TakeFirst(fs.extents, count);
    r := fs;
    if found {
      var a := TrackAllocated(l, fs.aextents, block, count);
      r := fs.(extents := rest, reserved := fs.reserved - count, aextents := a);
    }
  }

  lemma TakeReservedOk(g: Lists, owner: map<nat, Owner>, l: nat, block: nat, count: nat, fs: Layer)
    requires Agree(g, owner, |g.layers|) && IsLayer(g, l)
    requires TookReserved(l, g.layers[l].value, block, count, fs)
    ensures Holds(owner, Range(block, count), Reserve(l))
    ensures Agree(SetLayer(g, l, fs), Move(owner, Range(block, count), Alloc(l)), |g.layers|)
  {
    var r := Range(block, count);
    LayerFacts(g, owner, l);
    MoveAll(owner, r, Reserve(l), Alloc(l));
    MoveSame(owner, r, Reserve(l), Alloc(l), l);
    NearAgree(g, owner, Move(owner, r, Alloc(l)), l, SetLayer(g, l, fs));
  }

  /** The lists after `chunk` blocks at `block` were taken from the global pool for layer `l`, the
      first `count` of them in use and the rest in reserve. */
  ghost predicate TookPool(g: Lists, l: nat, block: nat, count: nat, chunk: nat, pool: seq<Extent>, r: Layer)
    requires IsLayer(g, l)
  {
    var fs := g.layers[l].value;
    && count <= chunk && Range(block, chunk) <= Keys(g.extents)
    && Canonical(pool) && Keys(pool) == Keys(g.extents) - Range(block, chunk) && Total(pool) + chunk == Total(g.extents)
    && Loose(r.extents) && Apart(r.extents) && Total(r.extents) == r.reserved
    && Keys(r.extents) == Keys(fs.extents) + Range(block + count, chunk - count)
    && Canonical(r.aextents)
    && (if l == ROOT then r.aextents == [] else Keys(r.aextents) == Keys(fs.aextents) + Range(block, count))
    && r.fextents == fs.fextents
  }

  /** The part of `lc_findFreeBlock` that reserves a chunk from the global pool: a full chunk if there
      is one, otherwise just what is asked for. */
  method TakeFromPool(g: Lists, l: nat, count: nat)
    returns (found: bool, block: nat, chunk: nat, pool: seq<Extent>, r: Layer)
    requires Ready(g, l) && count > 0
    ensures found ==> TookPool(g, l, block, count, chunk, pool, r)
    ensures found ==> chunk == ChunkFor(g.extents, count) && block == FirstFit(g.extents, chunk)
    ensures found <==> HasRun(g.extents, count)
    ensures found <==> HasRun(g.extents, ChunkFor(g.extents, count))
  {
    CanonicalApart(g.extents);
    chunk := if count > BLOCK_RESERVE then count else BLOCK_RESERVE;
    pool, found, block := TakeFirst(g.extents, chunk);
    if !found && count < chunk {
      chunk := count;
      pool, found, block := TakeFirst(g.extents, chunk);
    }
    r := g.layers[l].value;
    if found {
      r := GiveChunk(l, r, block, count, chunk);
    }
  }

  /** Adds a chunk just taken from the global pool to the lists of a layer. */
  method GiveChunk(l: nat, fs: Layer, block: nat, count: nat, chunk: nat) returns (r: Layer)
    requires 0 < count <= chunk && (l == ROOT ==> fs.aextents == [])
    requires Loose(fs.extents) && Apart(fs.extents) && Total(fs.extents) == fs.reserved && Canonical(fs.aextents)
    requires Range(block, chunk) !! Keys(fs.extents) && Range(block, chunk) !! Keys(fs.aextents)
    ensures Loose(r.extents) && Apart(r.extents) && Total(r.extents) == r.reserved
    ensures Keys(r.extents) == Keys(fs.extents) + Range(block + count, chunk - count)
    ensures Canonical(r.aextents) && r.fextents == fs.fextents
    ensures if l == ROOT then r.aextents == [] else Keys(r.aextents) == Keys(fs.aextents) + Range(block, count)
  {
    SplitRange(block, count, chunk);
    var a := TrackAllocated(l, fs.aextents, block, count);
    var e := TrackReserve(fs.extents, block + count, chunk - count);
    r := fs.(aextents := a, extents := e, reserved := fs.reserved + (chunk - count));
  }

  /** Blocks allocated by a layer are listed, except for the root layer. */
  method TrackAllocated(l: nat, aextents: seq<Extent>, block: nat, count: nat) returns (a: seq<Extent>)
    requires Canonical(aextents) && (l == ROOT ==> aextents == []) && count > 0 && Range(block, count) !! Keys(aextents)
    ensures Canonical(a)
    ensures if l == ROOT then a == [] else Keys(a) == Keys(aextents) + Range(block, count)
  {
    a := aextents;
    if l != ROOT {
      a := AddSpaceExtent(aextents, block, count, true);
    }
  }

  /** Adds blocks to the reserve of a layer, which is not kept sorted. */
  method TrackReserve(extents: seq<Extent>, block: nat, count: nat) returns (e: seq<Extent>)
    requires Loose(extents) && Apart(extents) && Range(block, count) !! Keys(extents)
    ensures Loose(e) && Apart(e) && Keys(e) == Keys(extents) + Range(block, count) && Total(e) == Total(extents) + count
  {
    e := extents;
    if count > 0 {
      e := AddSpaceExtent(extents, block, count, false);
      ApartAdded(extents, Extent(block, 0, count), e);
    } else {
      assert Range(block, count) == {};
    }
  }

  lemma SplitRange(block: nat, count: nat, chunk: nat)
    requires count <= chunk
    ensures Range(block, chunk) == Range(block, count) + Range(block + count, chunk - count)
    ensures Range(block, count) !! Range(block + count, chunk - count)
  {
  }

  lemma TakePoolOk(g: Lists, owner: map<nat, Owner>, l: nat, block: nat, count: nat, chunk: nat, pool: seq<Extent>,
                   fs: Layer)
    requires Agree(g, owner, |g.layers|) && IsLayer(g, l)
    requires TookPool(g, l, block, count, chunk, pool, fs)
    ensures Holds(owner, Range(block, chunk), Free)
    ensures Agree(SetLayer(g, l, fs).(extents := pool),
                  Move(Move(owner, Range(block, chunk), Reserve(l)), Range(block, count), Alloc(l)), |g.layers|)
  {
    var r := Range(block, chunk);
    LayerFacts(g, owner, l);
    SplitRange(block, count, chunk);
    MoveAll(owner, r, Free, Reserve(l));
    MoveSame(owner, r, Free, Reserve(l), l);
    var o := Move(owner, r, Reserve(l));
    MoveAll(o, Range(block, count), Reserve(l), Alloc(l));
    MoveSame(o, Range(block, count), Reserve(l), Alloc(l), l);
    var p := Move(o, Range(block, count), Alloc(l));
    TakePoolLayer(g, owner, l, block, count, chunk, pool, fs, p);
    NearAgree(g, owner, p, l, SetLayer(g, l, fs).(extents := pool));
  }

  lemma TakeHead(a: set<nat>, x: set<nat>, y: set<nat>)
    requires a !! x && x !! y
    ensures (a + (x + y)) - x == a + y
  {
  }

  lemma TakePoolLayer(g: Lists, owner: map<nat, Owner>, l: nat, block: nat, count: nat, chunk: nat, pool: seq<Extent>,
                      fs: Layer, p: map<nat, Owner>)
    requires IsLayer(g, l) && LayerOk(owner, l, g.layers[l].value) && PoolsOk(owner, g.extents, g.fextents)
    requires TookPool(g, l, block, count, chunk, pool, fs)
    requires Owned(p, Free) == Owned(owner, Free) - Range(block, chunk) && Owned(p, Pending) == Owned(owner, Pending)
    requires Owned(p, Reserve(l)) == (Owned(owner, Reserve(l)) + Range(block, chunk)) - Range(block, count)
    requires Owned(p, Alloc(l)) == Owned(owner, Alloc(l)) + Range(block, count)
    ensures LayerOk(p, l, fs) && PoolsOk(p, pool, g.fextents)
  {
    SplitRange(block, count, chunk);
    assert Owned(owner, Reserve(l)) !! Owned(owner, Free);
    TakeHead(Owned(owner, Reserve(l)), Range(block, count), Range(block + count, chunk - count));
  }

  // ----- Freeing -----

  /** `lc_freeLayerExtent`: of the given blocks, those on the layer's list of allocated blocks go to the
      list of blocks pending a checkpoint; the others were inherited and stay. */
  method FreeLayerExtent(aextents: seq<Extent>, fextents: seq<Extent>, block: nat, count: nat)
    returns (a: seq<Extent>, f: seq<Extent>, total: nat)
    requires Canonical(aextents) && Canonical(fextents) && Keys(aextents) !! Keys(fextents)
    ensures Canonical(a) && Keys(a) == Keys(aextents) - Range(block, count)
    ensures Canonical(f) && Keys(f) == Keys(fextents) + Range(block, count) * Keys(aextents)
    ensures Total(f) == Total(fextents) + total
  {
    a, f, total := aextents, fextents, 0;
    var n := 0;
    assert Range(block, 0) == {};
    while n < count
      invariant n <= count
      invariant Canonical(a) && Keys(a) == Keys(aextents) - Range(block, n)
      invariant Canonical(f) && Keys(f) == Keys(fextents) + Range(block, n) * Keys(aextents)
      invariant Total(f) == Total(fextents) + total
    {
      a, f, total, n := FreeStep(Keys(aextents), Keys(fextents), block, count, a, f, total, n);
    }
  }

  /** Frees the blocks from block `n` of the range on that the layer has in one piece, or passes over a block. */
  method FreeStep(ghost ka: set<nat>, ghost kf: set<nat>, block: nat, count: nat, a: seq<Extent>, f: seq<Extent>,
                  total: nat, n: nat)
    returns (a': seq<Extent>, f': seq<Extent>, total': nat, n': nat)
    requires n < count && ka !! kf
    requires Canonical(a) && Keys(a) == ka - Range(block, n)
    requires Canonical(f) && Keys(f) == kf + Range(block, n) * ka
    ensures n < n' <= count
    ensures Canonical(a') && Keys(a') == ka - Range(block, n')
    ensures Canonical(f') && Keys(f') == kf + Range(block, n') * ka
    ensures Total(f') + total == Total(f) + total'
  {
    var rest, freed := RemoveSpaceExtent(a, block + n, count - n);
    if freed > 0 {
      FreeSome(ka, kf, block, n, freed);
      a' := rest;
      f' := AddSpaceExtent(f, block + n, freed, true);
      total', n' := total + freed, n + freed;
    } else {
      // check the next block if this one was not allocated in the layer
      FreeNone(ka, block, n);
      a', f', total', n' := a, f, total, n + 1;
    }
  }

  lemma FreeSome(ka: set<nat>, kf: set<nat>, block: nat, n: nat, freed: nat)
    requires ka !! kf && Range(block + n, freed) <= ka - Range(block, n)
    ensures (ka - Range(block, n)) - Range(block + n, freed) == ka - Range(block, n + freed)
    ensures Range(block + n, freed) !! kf + Range(block, n) * ka
    ensures (kf + Range(block, n) * ka) + Range(block + n, freed) == kf + Range(block, n + freed) * ka
  {
    SplitRange(block, n, n + freed);
  }

  lemma FreeNone(ka: set<nat>, block: nat, n: nat)
    requires block + n !in ka - Range(block, n)
    ensures ka - Range(block, n) == ka - Range(block, n + 1)
    ensures Range(block, n) * ka == Range(block, n + 1) * ka
  {
    SplitRange(block, n, n + 1);
  }

  lemma FreedCount(aextents: seq<Extent>, fextents: seq<Extent>, f: seq<Extent>, r: set<nat>, total: nat)
    requires Canonical(fextents) && Canonical(f) && Keys(aextents) !! Keys(fextents)
    requires Keys(f) == Keys(fextents) + r * Keys(aextents) && Total(f) == Total(fextents) + total
    ensures total == |r * Keys(aextents)|
  {
    CanonicalSize(f);
    CanonicalSize(fextents);
  }

  /** The loop of `lc_blockFreeExtents` over the blocks freed in a layer. */
  method FreeListed(aextents: seq<Extent>, fextents: seq<Extent>, list: seq<Extent>)
    returns (a: seq<Extent>, f: seq<Extent>, total: nat)
    requires Canonical(aextents) && Canonical(fextents) && Keys(aextents) !! Keys(fextents) && Loose(list)
    ensures Canonical(a) && Keys(a) == Keys(aextents) - Keys(list)
    ensures Canonical(f) && Keys(f) == Keys(fextents) + Keys(list) * Keys(aextents)
    ensures Total(f) == Total(fextents) + total
  {
    a, f, total := aextents, fextents, 0;
    var rest := list;
    while rest != []
      invariant Canonical(a) && Canonical(f) && Loose(rest) && Keys(a) !! Keys(f)
      invariant Keys(a) - Keys(rest) == Keys(aextents) - Keys(list)
      invariant Keys(f) + Keys(rest) * Keys(a) == Keys(fextents) + Keys(list) * Keys(aextents)
      invariant Total(f) == Total(fextents) + total
      decreases |rest|
    {
      FreeListStep(Keys(a), Keys(f), Range(rest[0].start, rest[0].count), Keys(rest[1..]));
      var n;
      a, f, n := FreeLayerExtent(a, f, rest[0].start, rest[0].count);
      total := total + n;
      rest := rest[1..];
    }
  }

  lemma FreeListStep(ka: set<nat>, kf: set<nat>, h: set<nat>, t: set<nat>)
    requires ka !! kf
    ensures (ka - h) - t == ka - (h + t)
    ensures (ka - h) !! (kf + h * ka)
    ensures (kf + h * ka) + t * (ka - h) == kf + (h + t) * ka
  {
  }

  /** Moves of blocks in use within the bounds of the counter of used blocks. */
  lemma UsedBound(g: Lists, owner: map<nat, Owner>, used: nat, o: Owner, r: set<nat>)
    requires Agree(g, owner, |g.layers|) && Total(g.extents) + Total(g.fextents) + used == g.tblocks
    requires Holds(owner, r, o) && !o.Free? && !o.Pending?
    ensures |r| < used
  {
    AgreeIs(g, owner, |g.layers|);
    PoolsCount(owner, g.extents, g.fextents);
    InUseBound(owner, o, r);
    RangeSize(START_BLOCK, g.tblocks - START_BLOCK);
  }

  lemma InUseBound(owner: map<nat, Owner>, o: Owner, r: set<nat>)
    requires Holds(owner, r, o) && !o.Free? && !o.Pending?
    ensures |r| + FreeCount(owner) <= |owner.Keys|
  {
    var f, p := Owned(owner, Free), Owned(owner, Pending);
    assert f !! p && r !! f + p;
    assert |r + (f + p)| == |r| + FreeCount(owner);
    SubsetSize(r + (f + p), owner.Keys);
  }

  lemma SubsetSize(a: set<nat>, b: set<nat>)
    requires a <= b
    ensures |a| <= |b|
  {
    assert b == a + (b - a);
  }

  /** Blocks of a layer other than the root went to the pending list. */
  lemma FreeLayerOk(g: Lists, owner: map<nat, Owner>, l: nat, blocks: set<nat>, f: seq<Extent>, fs: Layer)
    requires Agree(g, owner, |g.layers|) && IsLayer(g, l) && l != ROOT
    requires fs == g.layers[l].value.(aextents := fs.aextents, fextents := fs.fextents) && Loose(fs.fextents)
    requires Canonical(fs.aextents) && Keys(fs.aextents) == Keys(g.layers[l].value.aextents) - blocks
    requires Canonical(f) && Keys(f) == Keys(g.fextents) + blocks * Keys(g.layers[l].value.aextents)
    ensures Agree(SetLayer(g, l, fs).(fextents := f), Move(owner, blocks * Owned(owner, Alloc(l)), Pending), |g.layers|)
  {
    LayerFacts(g, owner, l);
    var r := blocks * Owned(owner, Alloc(l));
    MoveAll(owner, r, Alloc(l), Pending);
    MoveSame(owner, r, Alloc(l), Pending, l);
    var p := Move(owner, r, Pending);
    assert Owned(p, Alloc(l)) == Owned(owner, Alloc(l)) - blocks;
    NearAgree(g, owner, p, l, SetLayer(g, l, fs).(fextents := f));
  }

  lemma FreeLayerCount(g: Lists, owner: map<nat, Owner>, used: nat, l: nat, blocks: set<nat>, f: seq<Extent>,
                       total: nat)
    requires Agree(g, owner, |g.layers|) && IsLayer(g, l) && l != ROOT
    requires Total(g.extents) + Total(g.fextents) + used == g.tblocks && Total(f) == Total(g.fextents) + total
    requires Canonical(f) && Keys(f) == Keys(g.fextents) + blocks * Keys(g.layers[l].value.aextents)
    ensures total < used
  {
    FreeLayerTotal(g, owner, l, blocks, f, total);
    UsedBound(g, owner, used, Alloc(l), blocks * Owned(owner, Alloc(l)));
  }

  /** The answer of `lc_freeLayerExtent` is the number of blocks the layer owned. */
  lemma FreeLayerTotal(g: Lists, owner: map<nat, Owner>, l: nat, blocks: set<nat>, f: seq<Extent>, total: nat)
    requires Agree(g, owner, |g.layers|) && IsLayer(g, l) && l != ROOT && Total(f) == Total(g.fextents) + total
    requires Canonical(f) && Keys(f) == Keys(g.fextents) + blocks * Keys(g.layers[l].value.aextents)
    ensures total == |blocks * Owned(owner, Alloc(l))|
  {
    LayerFacts(g, owner, l);
    assert Owned(owner, Alloc(l)) !! Owned(owner, Pending);
    FreedCount(g.layers[l].value.aextents, g.fextents, f, blocks, total);
  }

  /** Blocks of the root layer went to the pending list. */
  lemma FreeRootOk(g: Lists, owner: map<nat, Owner>, blocks: set<nat>, f: seq<Extent>, fs: Layer)
    requires Agree(g, owner, |g.layers|) && IsLayer(g, ROOT)
    requires Holds(owner, blocks, Alloc(ROOT)) && Range(g.mapBlock, g.mapCount) !! blocks
    requires fs == g.layers[ROOT].value.(fextents := fs.fextents) && Loose(fs.fextents) && Apart(fs.fextents)
    requires Keys(fs.fextents) <= Keys(g.layers[ROOT].value.fextents) - blocks
    requires Canonical(f) && Keys(f) == Keys(g.fextents) + blocks
    ensures Agree(SetLayer(g, ROOT, fs).(fextents := f), Move(owner, blocks, Pending), |g.layers|)
  {
    LayerFacts(g, owner, ROOT);
    MoveAll(owner, blocks, Alloc(ROOT), Pending);
    MoveSame(owner, blocks, Alloc(ROOT), Pending, ROOT);
    NearAgree(g, owner, Move(owner, blocks, Pending), ROOT, SetLayer(g, ROOT, fs).(fextents := f));
  }

  lemma FreeRootCount(g: Lists, owner: map<nat, Owner>, used: nat, blocks: set<nat>, f: seq<Extent>, count: nat)
    requires Agree(g, owner, |g.layers|) && Holds(owner, blocks, Alloc(ROOT))
    requires Total(g.extents) + Total(g.fextents) + used == g.tblocks && Total(f) == Total(g.fextents) + count
    requires Canonical(f) && Keys(f) == Keys(g.fextents) + blocks
    ensures count < used
  {
    AgreeIs(g, owner, |g.layers|);
    assert Owned(owner, Alloc(ROOT)) !! Owned(owner, Pending);
    CanonicalSize(f);
    CanonicalSize(g.fextents);
    UsedBound(g, owner, used, Alloc(ROOT), blocks);
  }

  /** The reserve of a layer went back to the global pool. */
  lemma ReleaseOk(g: Lists, owner: map<nat, Owner>, used: nat, l: nat, pool: seq<Extent>, fs: Layer)
    requires Agree(g, owner, |g.layers|) && IsLayer(g, l)
    requires Total(g.extents) + Total(g.fextents) + used == g.tblocks
    requires fs == g.layers[l].value.(extents := [], reserved := 0)
    requires Canonical(pool) && Keys(pool) == Keys(g.extents) + Keys(g.layers[l].value.extents)
    ensures g.layers[l].value.reserved < used
    ensures Agree(SetLayer(g, l, fs).(extents := pool), Move(owner, Owned(owner, Reserve(l)), Free), |g.layers|)
  {
    ReservedBound(g, owner, used, l);
    ReleaseAgree(g, owner, l, pool, fs);
  }

  /** The counter of reserved blocks is right. */
  lemma ReservedBound(g: Lists, owner: map<nat, Owner>, used: nat, l: nat)
    requires Agree(g, owner, |g.layers|) && IsLayer(g, l)
    requires Total(g.extents) + Total(g.fextents) + used == g.tblocks
    ensures g.layers[l].value.reserved == |Owned(owner, Reserve(l))| < used
  {
    LayerFacts(g, owner, l);
    ApartIs(g.layers[l].value.extents);
    UsedBound(g, owner, used, Reserve(l), Owned(owner, Reserve(l)));
  }

  lemma ReleaseAgree(g: Lists, owner: map<nat, Owner>, l: nat, pool: seq<Extent>, fs: Layer)
    requires Agree(g, owner, |g.layers|) && IsLayer(g, l)
    requires fs == g.layers[l].value.(extents := [], reserved := 0)
    requires Canonical(pool) && Keys(pool) == Keys(g.extents) + Keys(g.layers[l].value.extents)
    ensures Agree(SetLayer(g, l, fs).(extents := pool), Move(owner, Owned(owner, Reserve(l)), Free), |g.layers|)
  {
    LayerFacts(g, owner, l);
    var r := Owned(owner, Reserve(l));
    MoveAll(owner, r, Reserve(l), Free);
    MoveSame(owner, r, Reserve(l), Free, l);
    NearAgree(g, owner, Move(owner, r, Free), l, SetLayer(g, l, fs).(extents := pool));
  }

  /** Unused blocks of the root layer went back to its reserve. */
  lemma ReuseOk(g: Lists, owner: map<nat, Owner>, block: nat, count: nat, fs: Layer)
    requires Agree(g, owner, |g.layers|) && IsLayer(g, ROOT)
    requires Holds(owner, Range(block, count), Alloc(ROOT)) && Range(g.mapBlock, g.mapCount) !! Range(block, count)
    requires Range(block, count) !! Keys(g.layers[ROOT].value.fextents)
    requires fs == g.layers[ROOT].value.(extents := fs.extents, reserved := fs.reserved)
    requires Loose(fs.extents) && Apart(fs.extents) && Total(fs.extents) == fs.reserved
    requires Keys(fs.extents) == Keys(g.layers[ROOT].value.extents) + Range(block, count)
    ensures Agree(SetLayer(g, ROOT, fs), Move(owner, Range(block, count), Reserve(ROOT)), |g.layers|)
  {
    LayerFacts(g, owner, ROOT);
    var r := Range(block, count);
    MoveAll(owner, r, Alloc(ROOT), Reserve(ROOT));
    MoveSame(owner, r, Alloc(ROOT), Reserve(ROOT), ROOT);
    NearAgree(g, owner, Move(owner, r, Reserve(ROOT)), ROOT, SetLayer(g, ROOT, fs));
  }

  /** Blocks were put on the list of blocks a layer freed. */
  lemma AddFreedOk(g: Lists, owner: map<nat, Owner>, l: nat, fs: Layer, blocks: set<nat>)
    requires Agree(g, owner, |g.layers|) && IsLayer(g, l)
    requires fs == g.layers[l].value.(fextents := fs.fextents) && Loose(fs.fextents)
    requires l == ROOT ==> Apart(fs.fextents) && Keys(fs.fextents) == Keys(g.layers[l].value.fextents) + blocks
    requires l == ROOT ==> Holds(owner, blocks, Alloc(ROOT)) && Range(g.mapBlock, g.mapCount) !! blocks
    ensures Agree(SetLayer(g, l, fs), owner, |g.layers|)
  {
    LayerFacts(g, owner, l);
    NearAgree(g, owner, owner, l, SetLayer(g, l, fs));
  }

  /** A layer was created without any blocks. */
  lemma {:induction false} NewLayerOk(g: Lists, owner: map<nat, Owner>, l: nat, h: Lists)
    requires Agree(g, owner, |g.layers|) && l < |g.layers| && g.layers[l].None?
    requires h == SetLayer(g, l, Layer([], [], [], 0))
    ensures Agree(h, owner, |h.layers|) && Live(h.layers) == Live(g.layers) + {l}
  {
    AgreeIs(g, owner, |g.layers|);
    assert Owned(owner, Reserve(l)) == {} && Owned(owner, Alloc(l)) == {};
    forall x | 0 <= x < |h.layers| && h.layers[x].Some? ensures LayerOk(owner, x, h.layers[x].value) {
      if x != l {
        assert h.layers[x] == g.layers[x];
      }
    }
    AgreeIs(h, owner, |h.layers|);
  }

  /** A layer is gone with all its blocks. */
  lemma {:induction false} GoneLayerOk(g: Lists, owner: map<nat, Owner>, l: nat, h: Lists)
    requires Agree(g, owner, |g.layers|) && IsLayer(g, l) && l != ROOT
    requires Owned(owner, Reserve(l)) == {} && Owned(owner, Alloc(l)) == {}
    requires h == g.(layers := g.layers[l := None])
    ensures Agree(h, owner, |h.layers|) && Live(h.layers) == Live(g.layers) - {l}
  {
    AgreeIs(g, owner, |g.layers|);
    forall b | b in owner && (owner[b].Reserve? || owner[b].Alloc?) ensures IsLayer(h, owner[b].layer) {
      assert b in Owned(owner, owner[b]);
    }
    forall x | 0 <= x < |h.layers| && h.layers[x].Some? ensures LayerOk(owner, x, h.layers[x].value) {
      assert h.layers[x] == g.layers[x];
    }
    AgreeIs(h, owner, |h.layers|);
  }

  /** The device grew. */
  lemma {:induction false} GrowOk(g: Lists, owner: map<nat, Owner>, p: map<nat, Owner>, more: nat, h: Lists)
    requires Agree(g, owner, |g.layers|) && h == g.(tblocks := g.tblocks + more, extents := h.extents)
    requires START_BLOCK <= g.tblocks && h.tblocks < INVALID_BLOCK
    requires p == map b | b in Device(g.tblocks + more) :: if b in owner then owner[b] else Free
    requires Canonical(h.extents) && Keys(h.extents) == Keys(g.extents) + Range(g.tblocks, more)
    ensures Agree(h, p, |h.layers|)
  {
    AgreeIs(g, owner, |g.layers|);
    GrowHoldings(g, owner, p, more);
    forall x | 0 <= x < |h.layers| && h.layers[x].Some? ensures LayerOk(p, x, h.layers[x].value) {
      assert LayerOk(owner, x, g.layers[x].value);
      assert Owned(p, Reserve(x)) == Owned(owner, Reserve(x)) && Owned(p, Alloc(x)) == Owned(owner, Alloc(x));
    }
    AgreeIs(h, p, |h.layers|);
  }

  lemma GrowHoldings(g: Lists, owner: map<nat, Owner>, p: map<nat, Owner>, more: nat)
    requires OwnersOk(g, owner)
    requires p == map b | b in Device(g.tblocks + more) :: if b in owner then owner[b] else Free
    ensures Owned(p, Free) == Owned(owner, Free) + Range(g.tblocks, more)
    ensures forall o :: o != Free ==> Owned(p, o) == Owned(owner, o)
    ensures forall b :: b in p && (p[b].Reserve? || p[b].Alloc?) ==> b in owner && p[b] == owner[b]
  {
    forall b: nat ensures b in p <==> b in owner || b in Range(g.tblocks, more) {
      DeviceGrows(g.tblocks, more, b);
    }
  }

  // ----- The free map of a checkpoint -----

  /** Blocks needed to write `n` extents. */
  function MapBlocks(n: nat): nat {
    (n + EXTENT_BLOCK - 1) / EXTENT_BLOCK
  }

  /** Blocks `lc_processFreeExtents` sets aside for the free map: it counts the extents before merging them. */
  function MapNeed(g: Lists): nat {
    MapBlocks(|g.extents| + |g.fextents|)
  }

  /** The free map can be written: something is free, and some extent can hold the map. */
  ghost predicate CanPublish(g: Lists) {
    MapNeed(g) > 0 && exists e :: e in g.extents && e.count >= MapNeed(g)
  }

  /** The list work of `lc_processFreeExtents`: blocks for the free map come off the free list before
      the blocks of the previous map and all pending blocks are added to it. Fails, as the asserts of
      the source do, when nothing is free or no extent can hold the map. */
  method PrepareFreeMap(g: Lists) returns (ok: bool, block: nat, pcount: nat, pool: seq<Extent>)
    requires Canonical(g.extents) && Canonical(g.fextents) && Keys(g.extents) !! Keys(g.fextents)
    requires Range(g.mapBlock, g.mapCount) !! Keys(g.extents) && Range(g.mapBlock, g.mapCount) !! Keys(g.fextents)
    ensures pcount == MapNeed(g) && (ok <==> CanPublish(g))
    ensures ok ==> Range(block, pcount) <= Keys(g.extents) && Canonical(pool) && block == FirstFit(g.extents, pcount)
    ensures ok ==>
              Keys(pool) ==
              (Keys(g.extents) - Range(block, pcount)) + (Keys(g.fextents) + Range(g.mapBlock, g.mapCount))
    ensures ok ==> Total(pool) + pcount == Total(g.extents) + Total(g.fextents) + g.mapCount
    ensures ok ==> |pool| <= |g.extents| + |g.fextents| + 1 && (block > 0 ==> block - 1 !in Keys(g.extents))
  {
    pcount := MapNeed(g);
    ok, block, pool := false, INVALID_BLOCK, g.extents;
    if pcount > 0 {
      CanonicalApart(g.extents);
      var rest;
      rest, ok, block := TakeFirst(g.extents, pcount);
      if ok {
        pool := MergeFree(rest, g.fextents, g.mapBlock, g.mapCount);
      }
    }
  }

  /** The blocks of the previous map and the pending blocks join the free list. */
  method MergeFree(rest: seq<Extent>, fextents: seq<Extent>, mapBlock: nat, mapCount: nat) returns (pool: seq<Extent>)
    requires Canonical(rest) && Canonical(fextents) && Keys(rest) !! Keys(fextents)
    requires Range(mapBlock, mapCount) !! Keys(rest) && Range(mapBlock, mapCount) !! Keys(fextents)
    ensures Canonical(pool) && Keys(pool) == Keys(rest) + (Keys(fextents) + Range(mapBlock, mapCount))
    ensures Total(pool) == Total(rest) + Total(fextents) + mapCount && |pool| <= |rest| + |fextents| + 1
  {
    var f := fextents;
    if mapCount > 0 {
      f := AddSpaceExtent(f, mapBlock, mapCount, true);
    } else {
      assert Range(mapBlock, mapCount) == {};
    }
    CanonicalApart(f);
    pool := AddAll(rest, f);
  }

  /** Owners after a checkpoint, as `Apply` has them for `Publish`. */
  function Published(owner: map<nat, Owner>, fresh_: set<nat>, gone: set<nat>): map<nat, Owner> {
    var o := Move(Move(owner, fresh_, Alloc(ROOT)), gone, Pending);
    Move(o, Owned(o, Pending), Free)
  }

  lemma PublishedHoldings(owner: map<nat, Owner>, fresh_: set<nat>, gone: set<nat>)
    requires Holds(owner, fresh_, Free) && Holds(owner, gone, Alloc(ROOT))
    ensures SameElsewhere(owner, Published(owner, fresh_, gone), ROOT)
    ensures Owned(Published(owner, fresh_, gone), Pending) == {}
    ensures Owned(Published(owner, fresh_, gone), Free) == (Owned(owner, Free) - fresh_)
              + (Owned(owner, Pending) + gone)
    ensures Owned(Published(owner, fresh_, gone), Alloc(ROOT)) == (Owned(owner, Alloc(ROOT)) + fresh_) - gone
    ensures Owned(Published(owner, fresh_, gone), Reserve(ROOT)) == Owned(owner, Reserve(ROOT))
  {
    MoveAll(owner, fresh_, Free, Alloc(ROOT));
    MoveSame(owner, fresh_, Free, Alloc(ROOT), ROOT);
    var o1 := Move(owner, fresh_, Alloc(ROOT));
    MoveAll(o1, gone, Alloc(ROOT), Pending);
    MoveSame(o1, gone, Alloc(ROOT), Pending, ROOT);
    var o2 := Move(o1, gone, Pending);
    MoveAll(o2, Owned(o2, Pending), Pending, Free);
    MoveSame(o2, Owned(o2, Pending), Pending, Free, ROOT);
  }

  /** The free list of a checkpoint agrees with the owners after it. */
  lemma PublishOk(g: Lists, owner: map<nat, Owner>, block: nat, pcount: nat, pool: seq<Extent>, h: Lists)
    requires Agree(g, owner, |g.layers|)
    requires h == g.(extents := pool, fextents := [], mapBlock := block, mapCount := pcount)
    requires Range(block, pcount) <= Keys(g.extents) && Canonical(pool)
    requires Keys(pool) == (Keys(g.extents) - Range(block, pcount)) + (Keys(g.fextents) + Range(g.mapBlock, g.mapCount))
    ensures Holds(owner, Range(block, pcount), Free) && Holds(owner, Range(g.mapBlock, g.mapCount), Alloc(ROOT))
    ensures Agree(h, Published(owner, Range(block, pcount), Range(g.mapBlock, g.mapCount)), |h.layers|)
  {
    AgreeIs(g, owner, |g.layers|);
    LayerFacts(g, owner, ROOT);
    var fresh_, gone := Range(block, pcount), Range(g.mapBlock, g.mapCount);
    PublishedHoldings(owner, fresh_, gone);
    PublishedRoot(owner, Published(owner, fresh_, gone), g, fresh_, gone, h);
    NearAgree(g, owner, Published(owner, fresh_, gone), ROOT, h);
  }

  lemma PublishedRoot(owner: map<nat, Owner>, p: map<nat, Owner>, g: Lists, fresh_: set<nat>, gone: set<nat>, h: Lists)
    requires IsLayer(g, ROOT) && LayerOk(owner, ROOT, g.layers[ROOT].value) && MapOk(g, owner)
    requires h.layers == g.layers && gone == Range(g.mapBlock, g.mapCount) && fresh_ == Range(h.mapBlock, h.mapCount)
    requires fresh_ <= Owned(owner, Free)
    requires Owned(p, Alloc(ROOT)) == (Owned(owner, Alloc(ROOT)) + fresh_) - gone
    requires Owned(p, Reserve(ROOT)) == Owned(owner, Reserve(ROOT))
    ensures LayerOk(p, ROOT, h.layers[ROOT].value) && MapOk(h, p)
  {
    assert Owned(owner, Free) !! Owned(owner, Alloc(ROOT));
  }

  /** A run of blocks of a coalesced list lies in one extent. */
  lemma {:induction false} RunInOneExtent(l: seq<Extent>, b: nat, n: nat) returns (i: nat)
    requires Canonical(l) && n > 0 && Range(b, n) <= Keys(l)
    ensures i < |l| && l[i].start <= b && b + n <= l[i].End()
    decreases n
  {
    CanonicalIs(l);
    assert b in Range(b, n) && b + n - 1 in Range(b, n);
    if n == 1 {
      i := KeyIndex(l, b);
    } else {
      assert Range(b, n - 1) <= Range(b, n);
      i := RunInOneExtent(l, b, n - 1);
      var j := KeyIndex(l, b + n - 1);
    }
  }

  /** First fit over extents misses no run of free blocks: if no extent is large enough, there is none. */
  lemma NoFreeRun(g: Lists, owner: map<nat, Owner>, n: nat)
    requires Agree(g, owner, |g.layers|) && n > 0 && forall e :: e in g.extents ==> e.count < n
    ensures forall b :: !Holds(owner, Range(b, n), Free)
  {
    AgreeIs(g, owner, |g.layers|);
    forall b: nat ensures !Holds(owner, Range(b, n), Free) {
      if Range(b, n) <= Keys(g.extents) {
        var i := RunInOneExtent(g.extents, b, n);
        assert false;
      }
    }
  }

  lemma HeldBlock(g: Lists, owner: map<nat, Owner>, o: Owner, b: nat, n: nat)
    requires Agree(g, owner, |g.layers|) && Holds(owner, Range(b, n), o) && n > 0
    ensures START_BLOCK <= b && b + n <= g.tblocks < INVALID_BLOCK
  {
    AgreeIs(g, owner, |g.layers|);
    assert b in Range(b, n) && b + n - 1 in Range(b, n);
    assert b in owner.Keys && b + n - 1 in owner.Keys;
  }

  // ----- The partition, in terms of the lists -----

  /** Where a block can be: on a list of the pool, on a list of a layer, or with the root layer, which keeps no list. */
  datatype Place = InPool | InPending | InReserve(layer: nat) | InAllocated(layer: nat) | WithRoot

  ghost predicate On(g: Lists, root: set<nat>, b: nat, p: Place) {
    match p
    case InPool => b in Keys(g.extents)
    case InPending => b in Keys(g.fextents)
    case InReserve(l) => IsLayer(g, l) && b in Keys(g.layers[l].value.extents)
    case InAllocated(l) => IsLayer(g, l) && b in Keys(g.layers[l].value.aextents)
    case WithRoot => b in root
  }

  /** The owner a place stands for. */
  function PlaceOwner(p: Place): Owner {
    match p
    case InPool => Free
    case InPending => Pending
    case InReserve(l) => Reserve(l)
    case InAllocated(l) => Alloc(l)
    case WithRoot => Alloc(ROOT)
  }

  /** A block is on a list exactly if the owner of the list is its owner. */
  lemma OnIs(g: Lists, owner: map<nat, Owner>, b: nat, p: Place)
    requires Agree(g, owner, |g.layers|)
    ensures On(g, Owned(owner, Alloc(ROOT)), b, p) <==>
              b in owner && owner[b] == PlaceOwner(p) && p != InAllocated(ROOT)
  {
    AgreeIs(g, owner, |g.layers|);
    match p {
      case InReserve(l) =>
        if IsLayer(g, l) {
          assert LayerOk(owner, l, g.layers[l].value);
        }
      case InAllocated(l) =>
        if IsLayer(g, l) {
          assert LayerOk(owner, l, g.layers[l].value);
        }
      case _ =>
    }
  }

  /** The partition that `lc_validate` checks: the lists of the pool, those of all layers and the blocks of the root
      layer have no block in common and together are the device. */
  lemma ListsPartition(g: Lists, owner: map<nat, Owner>, b: nat)
    requires Agree(g, owner, |g.layers|)
    ensures var root := Owned(owner, Alloc(ROOT));
            && (START_BLOCK <= b < g.tblocks <==> exists p :: On(g, root, b, p))
            && forall p, q {:trigger On(g, root, b, p), On(g, root, b, q)} ::
                 On(g, root, b, p) && On(g, root, b, q) ==> p == q
  {
    var root := Owned(owner, Alloc(ROOT));
    AgreeIs(g, owner, |g.layers|);
    if START_BLOCK <= b < g.tblocks {
      assert b in owner.Keys;
      var p := match owner[b]
               case Free => InPool
               case Pending => InPending
               case Reserve(l) => InReserve(l)
               case Alloc(l) => if l == ROOT then WithRoot else InAllocated(l);
      OnIs(g, owner, b, p);
      assert On(g, root, b, p);
    }
    if p :| On(g, root, b, p) {
      OnIs(g, owner, b, p);
      assert b in owner.Keys;
    }
    forall p, q | On(g, root, b, p) && On(g, root, b, q) ensures p == q {
      OnIs(g, owner, b, p);
      OnIs(g, owner, b, q);
    }
  }
}
