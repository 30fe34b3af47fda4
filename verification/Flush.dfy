/**
  * Writing the dirty pages of a file to newly allocated blocks (`lc_flushPages`, lcfs/page.c:935-1228). Nothing is
  * overwritten in place: the pages go to blocks that were not in use, and the blocks they had are handed back.
  */
module Flush {
  import opened Extents
  import opened Emap
  import opened Pages
  import opened Inodes
  import opened Checkpoint
  import opened Blocks
  import opened Allocator
  import opened Rooms

  // ----- The pages written so far and where they went -----

  /** Page `q` is written to a block. Pages of zeros become holes unless the file is laid out in one extent. */
  ghost predicate Writes(f: File, single: bool, q: nat)
    requires ValidTable(f.table)
  {
    Get(f.table, q).Dirty() && (single || !Get(f.table, q).data.ZeroPage?)
  }

  /** `page` has the bytes a reader of the file sees in page `q`, and zeros past the end of the file. */
  ghost predicate Shows(f: File, store: map<nat, Page>, q: nat, page: Page)
    requires ValidTable(f.table)
  {
    forall k: nat :: k < 4096 ==> page[k] == if 4096 * q + k < f.size then f.ByteAt(store, q, k) else 0
  }

  /** The block of page `q` has zeros past the end of the file, unless the page is to be written. */
  ghost predicate PageClear(f: File, store: map<nat, Page>, q: nat)
    requires ValidTable(f.table)
  {
    Get(f.table, q).Dirty() || f.bmap.At(q) < 0 ||
    forall k: nat :: k < 4096 && f.size <= 4096 * q + k ==> ReadBlock(store, f.bmap.At(q))[k] == 0
  }

  /** The table no longer has the pages before `i`. */
  ghost predicate Taken(f: File, i: nat, t: Table)
    requires ValidTable(f.table)
  {
    && ValidTable(t) && t.Array? == f.table.Array? && (t.Array? ==> |t.pages| == |f.table.pages|)
    && forall q: nat {:trigger PageTaken(f, i, t, q)} :: PageTaken(f, i, t, q)
  }

  ghost predicate PageTaken(f: File, i: nat, t: Table, q: nat)
    requires ValidTable(f.table) && ValidTable(t)
  {
    Get(t, q) == if q < i then EMPTY else Get(f.table, q)
  }

  /** The pages before `i` that are written are the keys of `placed`; each is in the block it was given, which is
      one of `room`, and no block outside `room` changed. */
  ghost predicate PagesStored(f: File, store: map<nat, Page>, single: bool, i: nat, now: map<nat, Page>,
                              placed: map<nat, nat>, room: set<nat>)
    requires ValidTable(f.table)
  {
    && (forall q: nat {:trigger PageStored(f, store, single, i, now, placed, room, q)} ::
            PageStored(f, store, single, i, now, placed, room, q))
    && (forall b: nat {:trigger ReadBlock(now, b)} :: b !in room ==> ReadBlock(now, b) == ReadBlock(store, b))
  }

  ghost predicate PageStored(f: File, store: map<nat, Page>, single: bool, i: nat, now: map<nat, Page>,
                             placed: map<nat, nat>, room: set<nat>, q: nat)
    requires ValidTable(f.table)
  {
    && (q in placed <==> q < i && Writes(f, single, q))
    && (q in placed ==> placed[q] in room && Shows(f, store, q, ReadBlock(now, placed[q])))
  }

  lemma StoreNext(f: File, store: map<nat, Page>, single: bool, i: nat, now: map<nat, Page>, placed: map<nat, nat>,
                  room: set<nat>, b: nat, page: Page)
    requires ValidTable(f.table) && PagesStored(f, store, single, i, now, placed, room)
    requires Writes(f, single, i) && Shows(f, store, i, page) && b in room
    requires forall q: nat {:trigger placed[q]} :: q in placed ==> placed[q] != b
    ensures PagesStored(f, store, single, i + 1, now[b := page], placed[i := b], room)
  {
    var now', placed', n := now[b := page], placed[i := b], i + 1;
    forall q: nat ensures PageStored(f, store, single, n, now', placed', room, q) {
      assert PageStored(f, store, single, i, now, placed, room, q);
      if q in placed {
        assert placed[q] != b;
        assert ReadBlock(now', placed[q]) == ReadBlock(now, placed[q]);
      }
    }
    forall c: nat | c !in room ensures ReadBlock(now', c) == ReadBlock(store, c) {
      assert ReadBlock(now', c) == ReadBlock(now, c);
    }
  }

  lemma StoreSkip(f: File, store: map<nat, Page>, single: bool, i: nat, now: map<nat, Page>, placed: map<nat, nat>,
                  room: set<nat>)
    requires ValidTable(f.table) && PagesStored(f, store, single, i, now, placed, room) && !Writes(f, single, i)
    ensures PagesStored(f, store, single, i + 1, now, placed, room)
  {
    var n := i + 1;
    forall q: nat ensures PageStored(f, store, single, n, now, placed, room, q) {
      assert PageStored(f, store, single, i, now, placed, room, q);
    }
  }

  lemma FullShows(f: File, store: map<nat, Page>, i: nat, d: DPage)
    requires ValidTable(f.table) && d.Dirty() && d.Full() && (d.ClearPast(i, f.size) || 4096 * i + 4096 <= f.size)
    requires SameBytes(f.size, i, d, Under(f.bmap, store, i), Get(f.table, i), Under(f.bmap, store, i))
    ensures Shows(f, store, i, Bytes(d.data))
  {
    forall k: nat | k < 4096
      ensures Bytes(d.data)[k] == if 4096 * i + k < f.size then f.ByteAt(store, i, k) else 0
    {
      assert d.data.At(k) == Bytes(d.data)[k] == d.Over(k, Under(f.bmap, store, i)[k]);
    }
  }

  /** `lc_removeDirtyPage`: takes page `i` out of the table, filled up if it was partial. */
  method RemoveDirtyPage(f: File, ghost store: map<nat, Page>, bmap: BlockMap, now: map<nat, Page>, i: nat, t: Table)
    returns (data: PData, t': Table)
    requires f.Valid() && Taken(f, i, t) && i <= f.last && f.dirty > 0
    requires Under(bmap, now, i) == Under(f.bmap, store, i)
    ensures Taken(f, i + 1, t')
    ensures data.NoData? <==> !Get(f.table, i).Dirty()
    ensures data.ZeroPage? <==> Get(f.table, i).data.ZeroPage?
    ensures !data.NoData? ==> Shows(f, store, i, Bytes(data))
  {
    assert Get(f.table, f.last).Dirty() && PageTaken(f, i, t, i);
    var d := Get(t, i);
    data, t' := NoData, t;
    assert d == Get(f.table, i) && d.Fits(i, f.size);
    if d.Dirty() {
      var full := d;
      if d.poffset != 0 || d.psize != 4096 {
        full := FillPage(bmap, now, f.size, i, d);
      }
      FullShows(f, store, i, full);
      data := full.data;
      t' := SetPage(t, i, EMPTY);
    } else {
      GetEmpty(t, i);
    }
    ghost var n := i + 1;
    forall q: nat ensures PageTaken(f, n, t', q) {
      assert PageTaken(f, i, t, q);
    }
  }

  /** The content of a buffer. */
  function Bytes(data: PData): Page {
    if data.Data? then data.bytes else Zeros()
  }

  // ----- The block map -----

  /** `b` is the block of a page of a set. */
  ghost predicate HadBlock(l: seq<Extent>, pages: set<nat>, b: nat) {
    exists p: nat :: p in pages && Lookup(l, p) == b
  }

  /** Of the map `l0`, the pages of `settled` have been changed: to the block they were given, or to a hole. The
      blocks they had are those of `freed`. */
  ghost predicate Remapped(l0: seq<Extent>, l: seq<Extent>, freed: seq<Extent>, placed: map<nat, nat>,
                           settled: set<nat>)
  {
    && EmapList(l) && Loose(freed)
    && (forall p: nat {:trigger Lookup(l, p)} ::
          Lookup(l, p) == if p !in settled then Lookup(l0, p) else if p in placed then placed[p] else HOLE)
    && (forall b: nat {:trigger b in Keys(freed)} :: b in Keys(freed) <==> HadBlock(l0, settled, b))
  }

  lemma HadMore(l0: seq<Extent>, l: seq<Extent>, pages: set<nat>, start: nat, n: nat, b: nat)
    requires forall p: nat :: Within(p, start, n) ==> Lookup(l, p) == Lookup(l0, p)
    ensures HadBlock(l0, pages + Range(start, n), b) <==> HadBlock(l0, pages, b) || b in BlocksOf(l, start, n)
  {
    BlocksOfAre(l, start, n, b);
    if p: nat :| p in pages && Lookup(l0, p) == b {
      assert p in pages + Range(start, n);
    }
    if p: nat :| start <= p < start + n && Lookup(l, p) == b {
      assert Within(p, start, n);
      assert p in pages + Range(start, n) && Lookup(l0, p) == b;
    }
    if p: nat :| p in pages + Range(start, n) && Lookup(l0, p) == b {
      if p !in pages {
        assert Within(p, start, n);
      }
    }
  }

  lemma Freed(l0: seq<Extent>, l: seq<Extent>, pages: set<nat>, start: nat, n: nat, was: set<nat>, now: set<nat>)
    requires forall p: nat :: Within(p, start, n) ==> Lookup(l, p) == Lookup(l0, p)
    requires forall b: nat {:trigger b in was} :: b in was <==> HadBlock(l0, pages, b)
    requires now == was + BlocksOf(l, start, n)
    ensures forall b: nat {:trigger b in now} :: b in now <==> HadBlock(l0, pages + Range(start, n), b)
  {
    forall b: nat ensures b in now <==> HadBlock(l0, pages + Range(start, n), b) {
      HadMore(l0, l, pages, start, n, b);
    }
  }

  /** `lc_inodeEmapUpdate` for the run of pages collected. */
  method PutRun(ghost l0: seq<Extent>, l: seq<Extent>, blocks: nat, freed: seq<Extent>, ghost placed: map<nat, nat>,
                ghost settled: set<nat>, pstart: nat, bstart: nat, pcount: nat)
    returns (l': seq<Extent>, blocks': nat, freed': seq<Extent>)
    requires Remapped(l0, l, freed, placed, settled) && blocks == Total(l) && pcount > 0 && bstart > 0
    requires forall p: nat {:trigger Within(p, pstart, pcount)} :: Within(p, pstart, pcount) ==>
               p !in settled && p in placed && placed[p] == bstart + (p - pstart)
    ensures Remapped(l0, l', freed', placed, settled + Range(pstart, pcount))
    ensures blocks' == Total(l') && Total(freed') + blocks' == Total(freed) + blocks + pcount
  {
    l', blocks', freed' := EmapUpdate(l, blocks, pstart, bstart, pcount, freed);
    Freed(l0, l, settled, pstart, pcount, Keys(freed), Keys(freed'));
  }

  /** `lc_inodeEmapUpdate` for a page of zeros. */
  method PunchHole(ghost l0: seq<Extent>, l: seq<Extent>, blocks: nat, freed: seq<Extent>, ghost placed: map<nat, nat>,
                   ghost settled: set<nat>, i: nat)
    returns (l': seq<Extent>, blocks': nat, freed': seq<Extent>)
    requires Remapped(l0, l, freed, placed, settled) && blocks == Total(l) && i !in settled && i !in placed
    ensures Remapped(l0, l', freed', placed, settled + {i})
    ensures blocks' == Total(l') && Total(freed') + blocks' == Total(freed) + blocks
  {
    l', blocks', freed' := EmapUpdate(l, blocks, i, HOLE, 1, freed);
    assert Range(i, 1) == {i};
    Freed(l0, l, settled, i, 1, Keys(freed), Keys(freed'));
  }

  lemma RemapLater(l0: seq<Extent>, l: seq<Extent>, freed: seq<Extent>, placed: map<nat, nat>, settled: set<nat>,
                   i: nat, b: nat)
    requires Remapped(l0, l, freed, placed, settled) && i !in settled
    ensures Remapped(l0, l, freed, placed[i := b], settled)
  {
  }

  /** Of the dirty pages before `i`, those not settled are the run of `pcount` pages from `pstart` on, which are in
      consecutive blocks from `bstart` on. */
  ghost predicate Collected(f: File, i: nat, placed: map<nat, nat>, settled: set<nat>, pstart: nat, bstart: nat,
                            pcount: nat)
    requires ValidTable(f.table)
  {
    && (pcount > 0 ==> pstart + pcount <= i && bstart > 0)
    && (forall p: nat {:trigger PageCollected(f, i, placed, settled, pstart, bstart, pcount, p)} ::
          PageCollected(f, i, placed, settled, pstart, bstart, pcount, p))
  }

  ghost predicate PageCollected(f: File, i: nat, placed: map<nat, nat>, settled: set<nat>, pstart: nat, bstart: nat,
                                pcount: nat, p: nat)
    requires ValidTable(f.table)
  {
    && (p in settled || Within(p, pstart, pcount) <==> p < i && Get(f.table, p).Dirty())
    && (Within(p, pstart, pcount) ==> p !in settled && p in placed && placed[p] == bstart + (p - pstart))
  }

  lemma RunPlaced(f: File, i: nat, placed: map<nat, nat>, settled: set<nat>, pstart: nat, bstart: nat, pcount: nat)
    requires ValidTable(f.table) && Collected(f, i, placed, settled, pstart, bstart, pcount)
    ensures forall p: nat {:trigger Within(p, pstart, pcount)} :: Within(p, pstart, pcount) ==>
              p !in settled && p in placed && placed[p] == bstart + (p - pstart)
    ensures i !in settled
  {
    assert PageCollected(f, i, placed, settled, pstart, bstart, pcount, i);
    forall p: nat | Within(p, pstart, pcount)
      ensures p !in settled && p in placed && placed[p] == bstart + (p - pstart)
    {
      assert PageCollected(f, i, placed, settled, pstart, bstart, pcount, p);
    }
  }

  lemma CollectedMore(f: File, i: nat, placed: map<nat, nat>, settled: set<nat>, pstart: nat, bstart: nat, pcount: nat)
    requires ValidTable(f.table) && Collected(f, i, placed, settled, pstart, bstart, pcount)
    requires Get(f.table, i).Dirty() && bstart > 0 && pcount > 0 && pstart + pcount == i
    ensures Collected(f, i + 1, placed[i := bstart + pcount], settled, pstart, bstart, pcount + 1)
  {
    var placed', n, m := placed[i := bstart + pcount], i + 1, pcount + 1;
    forall p: nat ensures PageCollected(f, n, placed', settled, pstart, bstart, m, p) {
      assert PageCollected(f, i, placed, settled, pstart, bstart, pcount, p);
    }
  }

  lemma CollectedNew(f: File, i: nat, placed: map<nat, nat>, settled: set<nat>, pstart: nat, bstart: nat, pcount: nat,
                     b: nat)
    requires ValidTable(f.table) && Collected(f, i, placed, settled, pstart, bstart, pcount)
    requires Get(f.table, i).Dirty() && b > 0
    ensures Collected(f, i + 1, placed[i := b], settled + Range(pstart, pcount), i, b, 1)
  {
    var placed', settled', n := placed[i := b], settled + Range(pstart, pcount), i + 1;
    forall p: nat ensures PageCollected(f, n, placed', settled', i, b, 1, p) {
      assert PageCollected(f, i, placed, settled, pstart, bstart, pcount, p);
    }
  }

  /** Page `i` goes to block `b`: it extends the run, or the run is entered in the map and a new one starts. */
  method Collect(ghost f: File, ghost l0: seq<Extent>, l: seq<Extent>, blocks: nat, freed: seq<Extent>,
                 ghost placed: map<nat, nat>, ghost settled: set<nat>, i: nat, b: nat, pstart: nat, bstart: nat,
                 pcount: nat)
    returns (l': seq<Extent>, blocks': nat, freed': seq<Extent>, ghost settled': set<nat>, pstart': nat, bstart': nat,
             pcount': nat)
    requires ValidTable(f.table) && Remapped(l0, l, freed, placed, settled) && blocks == Total(l)
    requires Collected(f, i, placed, settled, pstart, bstart, pcount) && Get(f.table, i).Dirty()
    requires b > 0 && (pcount > 0 ==> bstart + pcount == b)
    ensures Remapped(l0, l', freed', placed[i := b], settled') && blocks' == Total(l')
    ensures Collected(f, i + 1, placed[i := b], settled', pstart', bstart', pcount')
    ensures pcount' > 0 && bstart' + pcount' == b + 1
    ensures Total(freed') + blocks' + pcount' == Total(freed) + blocks + pcount + 1
  {
    l', blocks', freed', settled' := l, blocks, freed, settled;
    pstart', bstart', pcount' := pstart, bstart, pcount;
    RunPlaced(f, i, placed, settled, pstart, bstart, pcount);
    if pcount == 0 {
      CollectedNew(f, i, placed, settled, pstart, bstart, pcount, b);
      assert settled + Range(pstart, 0) == settled;
      pstart', bstart', pcount' := i, b, 1;
    } else if pstart + pcount != i {
      CollectedNew(f, i, placed, settled, pstart, bstart, pcount, b);
      l', blocks', freed' := PutRun(l0, l, blocks, freed, placed, settled, pstart, bstart, pcount);
      settled' := settled + Range(pstart, pcount);
      pstart', bstart', pcount' := i, b, 1;
    } else {
      CollectedMore(f, i, placed, settled, pstart, bstart, pcount);
      pcount' := pcount + 1;
    }
    RemapLater(l0, l', freed', placed, settled', i, b);
  }

  // ----- The blocks -----

  /** What became of block `b`: it went to a page, or is waiting for one, only if the layer had room in it. */
  ghost predicate Fate(own0: map<nat, Owner>, own: map<nat, Owner>, l: nat, back: map<nat, nat>, tail: set<nat>, b: nat)
  {
    && (b in InUse(own) <==> b in InUse(own0) || b in back || b in tail)
    && (b in Room(own, l) <==> b in Room(own0, l) && b !in back && b !in tail)
    && (b in InUse(own0) ==> b in own && own[b] == own0[b])
    && (b in back || b in tail ==> b in Room(own0, l) && b in Owned(own, Alloc(l))) && (b in back ==> b !in tail)
  }

  /** The blocks taken from the room of the layer are those in `back`, which say what page they were given to, and
      those of `tail`, which are not used yet. */
  ghost predicate Spaced(own0: map<nat, Owner>, own: map<nat, Owner>, l: nat, placed: map<nat, nat>,
                         back: map<nat, nat>, tail: set<nat>)
  {
    && (forall b: nat {:trigger Fate(own0, own, l, back, tail, b)} :: Fate(own0, own, l, back, tail, b))
    && Inverse(placed, back)
  }

  lemma SpacedIs(own0: map<nat, Owner>, own: map<nat, Owner>, l: nat, placed: map<nat, nat>, back: map<nat, nat>,
                 tail: set<nat>)
    requires Spaced(own0, own, l, placed, back, tail)
    ensures InUse(own) == InUse(own0) + back.Keys + tail && Room(own, l) == Room(own0, l) - back.Keys - tail
    ensures back.Keys <= Room(own0, l) && tail <= Room(own0, l) && back.Keys !! tail
  {
    forall b: nat
      ensures b in InUse(own) <==> b in InUse(own0) + back.Keys + tail
      ensures b in Room(own, l) <==> b in Room(own0, l) - back.Keys - tail
      ensures (b in back.Keys || b in tail ==> b in Room(own0, l)) && (b in back.Keys ==> b !in tail)
    {
      assert Fate(own0, own, l, back, tail, b);
    }
  }

  /** Two maps undo each other. */
  ghost predicate Inverse(placed: map<nat, nat>, back: map<nat, nat>) {
    && (forall q: nat {:trigger placed[q]} :: q in placed ==> placed[q] in back && back[placed[q]] == q)
    && (forall b: nat {:trigger back[b]} :: b in back ==> back[b] in placed && placed[back[b]] == b)
  }

  lemma InverseMore(placed: map<nat, nat>, back: map<nat, nat>, i: nat, x: nat)
    requires Inverse(placed, back) && i !in placed && x !in back
    ensures Inverse(placed[i := x], back[x := i])
    ensures back[x := i].Keys == back.Keys + {x}
    ensures forall q: nat {:trigger placed[q]} :: q in placed ==> placed[q] != x
  {
  }

  lemma SpacedUse(own0: map<nat, Owner>, own: map<nat, Owner>, l: nat, placed: map<nat, nat>, back: map<nat, nat>,
                  x: nat, n: nat, i: nat)
    requires Spaced(own0, own, l, placed, back, Range(x, n)) && n > 0 && i !in placed
    ensures Spaced(own0, own, l, placed[i := x], back[x := i], Range(x + 1, n - 1))
    ensures x in Room(own0, l) && x !in back && back[x := i].Keys == back.Keys + {x}
    ensures forall q: nat {:trigger placed[q]} :: q in placed ==> placed[q] != x
  {
    assert Fate(own0, own, l, back, Range(x, n), x);
    InverseMore(placed, back, i, x);
    var tail, back' := Range(x + 1, n - 1), back[x := i];
    forall b: nat ensures Fate(own0, own, l, back', tail, b) {
      assert Fate(own0, own, l, back, Range(x, n), b);
    }
  }

  lemma SpacedTake(own0: map<nat, Owner>, own: map<nat, Owner>, own': map<nat, Owner>, l: nat, placed: map<nat, nat>,
                   back: map<nat, nat>, x: nat, block: nat, n: nat)
    requires Spaced(own0, own, l, placed, back, Range(x, 0))
    requires Range(block, n) <= Room(own, l) && Room(own', l) == Room(own, l) - Range(block, n)
    requires InUse(own') == InUse(own) + Range(block, n)
    requires Owned(own', Alloc(l)) == Owned(own, Alloc(l)) + Range(block, n)
    requires StillOwned(own, own')
    ensures Spaced(own0, own', l, placed, back, Range(block + 0, n - 0))
  {
    forall b: nat ensures Fate(own0, own', l, back, Range(block, n), b) {
      assert Fate(own0, own, l, back, Range(x, 0), b);
    }
  }

  ghost function Without(room: set<nat>, b: nat): set<nat> {
    room - {b}
  }

  /** A set has at least `n` elements. */
  ghost predicate Enough(room: set<nat>, n: nat) {
    n == 0 || exists b: nat :: b in room && Enough(Without(room, b), n - 1)
  }

  lemma {:induction false} EnoughIs(room: set<nat>, n: nat)
    ensures Enough(room, n) <==> n <= |room|
    decreases n
  {
    if n > 0 {
      if b: nat :| b in room && Enough(Without(room, b), n - 1) {
        EnoughIs(Without(room, b), n - 1);
      }
      if n <= |room| {
        var b :| b in room;
        EnoughIs(Without(room, b), n - 1);
      }
    }
  }

  /** A set has `n` elements. */
  ghost predicate Exactly(s: set<nat>, n: nat) {
    if n == 0 then s == {} else exists b: nat :: b in s && Exactly(Without(s, b), n - 1)
  }

  lemma {:induction false} ExactlyIs(s: set<nat>, n: nat)
    ensures Exactly(s, n) <==> |s| == n
    decreases n
  {
    if n > 0 {
      if b: nat :| b in s && Exactly(Without(s, b), n - 1) {
        ExactlyIs(Without(s, b), n - 1);
      }
      if |s| == n {
        var b :| b in s;
        ExactlyIs(Without(s, b), n - 1);
      }
    }
  }

  lemma ExactlyMore(s: set<nat>, n: nat, x: nat)
    requires Exactly(s, n) && x !in s
    ensures Exactly(s + {x}, n + 1)
  {
    assert x in s + {x} && Without(s + {x}, x) == s;
  }

  /** There is room left while fewer blocks were used than there were. */
  lemma RoomLeft(own0: map<nat, Owner>, own: map<nat, Owner>, l: nat, placed: map<nat, nat>, back: map<nat, nat>,
                 x: nat, used: nat, n: nat)
    requires Spaced(own0, own, l, placed, back, Range(x, 0)) && used < n
    requires Exactly(back.Keys, used) && Enough(Room(own0, l), n)
    ensures Room(own, l) != {}
  {
    ExactlyIs(back.Keys, used);
    SpacedIs(own0, own, l, placed, back, Range(x, 0));
    EnoughIs(Room(own0, l), n);
    assert Room(own, l) == {} ==> Room(own0, l) == back.Keys;
  }

  // ----- One page -----

  /** The map as `lc_flushPages` changes it: the list, `di_blocks`, the blocks to free, and the run of pages that is
      not entered yet. */
  datatype Mapping = Mapping(list: seq<Extent>, blocks: nat, freed: seq<Extent>, pstart: nat, bstart: nat, pcount: nat)

  /** The piece of new blocks in use: `count` of `rcount` blocks from `block` on are used. */
  datatype Chunk = Chunk(block: nat, rcount: nat, count: nat)

  /** Where the pages went, what page each block has, and the pages whose map entries have been changed. */
  datatype Placing = Placing(placed: map<nat, nat>, back: map<nat, nat>, settled: set<nat>)

  /** The map of a file that is not laid out in one extent, when `next` is the next block to use. */
  ghost predicate Listing(f: File, i: nat, m: Mapping, next: nat, tcount: nat, g: Placing)
    requires ValidTable(f.table)
  {
    && Remapped(f.bmap.list, m.list, m.freed, g.placed, g.settled) && m.blocks == Total(m.list)
    && Collected(f, i, g.placed, g.settled, m.pstart, m.bstart, m.pcount)
    && (m.pcount > 0 ==> m.bstart + m.pcount == next)
    && Total(m.freed) + m.blocks + m.pcount == Total(f.bmap.list) + tcount
  }

  /** A file laid out in one extent gets its blocks in the order of its pages. */
  ghost predicate OneRun(f: File, i: nat, c: Chunk, tcount: nat, fcount: nat, g: Placing) {
    && fcount == 0 && c.rcount == f.dirty && f.first <= i && c.count == tcount == i - f.first
    && (forall q: nat {:trigger g.placed[q]} :: q in g.placed ==>
            f.first <= q && g.placed[q] == c.block + (q - f.first))
  }

  /** What the loop of `lc_flushPages` has done to the map and the blocks when it comes to page `i`. */
  ghost predicate Placement(f: File, single: bool, own0: map<nat, Owner>, own: map<nat, Owner>, l: nat, i: nat,
                            m: Mapping, c: Chunk, tcount: nat, fcount: nat, g: Placing)
    requires ValidTable(f.table)
  {
    && c.count <= c.rcount && c.rcount > 0 && c.block > 0
    && Spaced(own0, own, l, g.placed, g.back, Range(c.block + c.count, c.rcount - c.count))
    && Exactly(g.back.Keys, tcount)
    && tcount + fcount == Count(f.table, i)
    && (single ==> OneRun(f, i, c, tcount, fcount, g))
    && (!single ==> Listing(f, i, m, c.block + c.count, tcount, g) && (c.count > 0 ==> m.pcount > 0))
  }

  /** Not all dirty pages are before a page up to the last one. */
  lemma DirtyAhead(f: File, i: nat)
    requires f.Valid() && f.dirty > 0 && i <= f.last
    ensures Count(f.table, i) < f.dirty
  {
    assert Get(f.table, f.last).Dirty() && f.last < PageCount(f.size);
    CountFull(f.table, i, f.last);
    CountFull(f.table, f.last + 1, PageCount(f.size));
  }

  /** The run is entered in the map. */
  method EnterRun(ghost f: File, ghost i: nat, m: Mapping, ghost next: nat, ghost tcount: nat, ghost g: Placing)
    returns (m': Mapping, ghost g': Placing)
    requires ValidTable(f.table) && Listing(f, i, m, next, tcount, g) && m.pcount > 0
    ensures m'.pcount == 0 && g' == g.(settled := g'.settled)
    ensures Remapped(f.bmap.list, m'.list, m'.freed, g.placed, g'.settled) && m'.blocks == Total(m'.list)
    ensures Collected(f, i, g.placed, g'.settled, m'.pstart, m'.bstart, m'.pcount)
    ensures Total(m'.freed) + m'.blocks == Total(f.bmap.list) + tcount
  {
    RunPlaced(f, i, g.placed, g.settled, m.pstart, m.bstart, m.pcount);
    var list, blocks, freed := PutRun(f.bmap.list, m.list, m.blocks, m.freed, g.placed, g.settled,
                                      m.pstart, m.bstart, m.pcount);
    CollectedNone(f, i, g.placed, g.settled, m.pstart, m.bstart, m.pcount);
    m' := Mapping(list, blocks, freed, m.pstart, m.bstart, 0);
    g' := g.(settled := g.settled + Range(m.pstart, m.pcount));
  }

  /** The next piece of blocks. */
  method TakeNext(gfs: Gfs, l: nat, ghost own0: map<nat, Owner>, want: nat, ghost used: nat, ghost bcount: nat,
                  ghost x: nat, ghost g: Placing)
    returns (block: nat, n: nat)
    requires gfs.Valid() && IsLayer(gfs.Now(), l) && want > 0 && used < bcount && Exactly(g.back.Keys, used)
    requires Enough(Room(own0, l), bcount)
    requires Spaced(own0, gfs.owner, l, g.placed, g.back, Range(x, 0))
    modifies gfs
    ensures gfs.Valid() && IsLayer(gfs.Now(), l) && gfs.Aside(l) == old(gfs.Aside(l)) && 0 < n <= want && block > 0
    ensures old(gfs.taken) <= gfs.taken && Range(block, n) <= gfs.taken
    ensures Spaced(own0, gfs.owner, l, g.placed, g.back, Range(block + 0, n - 0))
    ensures OnePiece(old(gfs.Now()), l, want, block, n)
  {
    ghost var own := gfs.owner;
    RoomLeft(own0, own, l, g.placed, g.back, x, used, bcount);
    block, n := TakeSome(gfs, l, want);
    SpacedTake(own0, own, gfs.owner, l, g.placed, g.back, x, block, n);
  }

  /** When all blocks of a piece are used and pages are left, the run is entered in the map and more blocks are
      asked for. */
  method MoreBlocks(gfs: Gfs, l: nat, ghost f: File, ghost single: bool, ghost own0: map<nat, Owner>, bcount: nat,
                    ghost i: nat, m: Mapping, c: Chunk, tcount: nat, ghost fcount: nat, ghost g: Placing)
    returns (m': Mapping, c': Chunk, ghost g': Placing)
    requires ValidTable(f.table) && tcount < bcount == f.dirty && Enough(Room(own0, l), bcount)
    requires gfs.Valid() && IsLayer(gfs.Now(), l)
    requires Placement(f, single, own0, gfs.owner, l, i, m, c, tcount, fcount, g)
    requires Range(c.block, c.rcount) <= gfs.taken
    modifies gfs
    ensures gfs.Valid() && IsLayer(gfs.Now(), l) && gfs.Aside(l) == old(gfs.Aside(l))
    ensures Placement(f, single, own0, gfs.owner, l, i, m', c', tcount, fcount, g')
    ensures Range(c'.block, c'.rcount) <= gfs.taken
    ensures c'.count < c'.rcount && g' == g.(settled := g'.settled) && (single ==> c' == c)
  {
    m', c', g' := m, c, g;
    if c.count == c.rcount && bcount > tcount {
      m', g' := EnterRun(f, i, m, c.block + c.count, tcount, g);
      var block, n := TakeNext(gfs, l, own0, bcount - tcount, tcount, bcount, c.block + c.count, g);
      c' := Chunk(block, n, 0);
    }
  }

  lemma CollectedNone(f: File, i: nat, placed: map<nat, nat>, settled: set<nat>, pstart: nat, bstart: nat, pcount: nat)
    requires ValidTable(f.table) && Collected(f, i, placed, settled, pstart, bstart, pcount)
    ensures Collected(f, i, placed, settled + Range(pstart, pcount), pstart, bstart, 0)
  {
    var settled' := settled + Range(pstart, pcount);
    forall p: nat ensures PageCollected(f, i, placed, settled', pstart, bstart, 0, p) {
      assert PageCollected(f, i, placed, settled, pstart, bstart, pcount, p);
    }
  }

  /** Page `i` is not dirty. */
  lemma PassPage(f: File, single: bool, own0: map<nat, Owner>, own: map<nat, Owner>, l: nat, i: nat, m: Mapping,
                 c: Chunk, tcount: nat, fcount: nat, g: Placing)
    requires ValidTable(f.table) && Placement(f, single, own0, own, l, i, m, c, tcount, fcount, g)
    requires !Get(f.table, i).Dirty() && !single
    ensures Placement(f, single, own0, own, l, i + 1, m, c, tcount, fcount, g)
  {
    CollectedPass(f, i, g.placed, g.settled, m.pstart, m.bstart, m.pcount);
  }

  lemma CollectedPass(f: File, i: nat, placed: map<nat, nat>, settled: set<nat>, pstart: nat, bstart: nat, pcount: nat)
    requires ValidTable(f.table) && Collected(f, i, placed, settled, pstart, bstart, pcount) && !Get(f.table, i).Dirty()
    ensures Collected(f, i + 1, placed, settled, pstart, bstart, pcount)
  {
    var n := i + 1;
    forall p: nat ensures PageCollected(f, n, placed, settled, pstart, bstart, pcount, p) {
      assert PageCollected(f, i, placed, settled, pstart, bstart, pcount, p);
    }
  }

  lemma CollectedZero(f: File, i: nat, placed: map<nat, nat>, settled: set<nat>, pstart: nat, bstart: nat, pcount: nat)
    requires ValidTable(f.table) && Collected(f, i, placed, settled, pstart, bstart, pcount) && Get(f.table, i).Dirty()
    ensures Collected(f, i + 1, placed, settled + {i}, pstart, bstart, pcount)
    ensures i !in settled
  {
    assert PageCollected(f, i, placed, settled, pstart, bstart, pcount, i);
    var settled', n := settled + {i}, i + 1;
    forall p: nat ensures PageCollected(f, n, placed, settled', pstart, bstart, pcount, p) {
      assert PageCollected(f, i, placed, settled, pstart, bstart, pcount, p);
    }
  }

  /** Page `i` is all zeros: its map entry becomes a hole. */
  method ZeroOut(ghost f: File, ghost own0: map<nat, Owner>, ghost own: map<nat, Owner>, ghost l: nat, i: nat,
                 m: Mapping, ghost c: Chunk, ghost tcount: nat, fcount: nat, ghost g: Placing)
    returns (m': Mapping, ghost g': Placing)
    requires ValidTable(f.table) && Placement(f, false, own0, own, l, i, m, c, tcount, fcount, g)
    requires Get(f.table, i).Dirty() && i !in g.placed
    ensures Placement(f, false, own0, own, l, i + 1, m', c, tcount, fcount + 1, g') && g' == g.(settled := g'.settled)
  {
    CollectedZero(f, i, g.placed, g.settled, m.pstart, m.bstart, m.pcount);
    var list, blocks, freed := PunchHole(f.bmap.list, m.list, m.blocks, m.freed, g.placed, g.settled, i);
    m' := Mapping(list, blocks, freed, m.pstart, m.bstart, m.pcount);
    g' := g.(settled := g.settled + {i});
  }

  lemma PutSingle(f: File, own0: map<nat, Owner>, own: map<nat, Owner>, l: nat, i: nat, m: Mapping, c: Chunk,
                  tcount: nat, fcount: nat, g: Placing)
    requires ValidTable(f.table) && Placement(f, true, own0, own, l, i, m, c, tcount, fcount, g)
    requires Get(f.table, i).Dirty() && i !in g.placed && c.count < c.rcount
    ensures var b := c.block + c.count;
            Placement(f, true, own0, own, l, i + 1, m, c.(count := c.count + 1), tcount + 1, fcount,
                      Placing(g.placed[i := b], g.back[b := i], g.settled))
  {
    SpacedUse(own0, own, l, g.placed, g.back, c.block + c.count, c.rcount - c.count, i);
    ExactlyMore(g.back.Keys, tcount, c.block + c.count);
  }

  method CollectPage(ghost f: File, i: nat, m: Mapping, next: nat, ghost tcount: nat, ghost g: Placing)
    returns (m': Mapping, ghost settled: set<nat>)
    requires ValidTable(f.table) && Listing(f, i, m, next, tcount, g) && Get(f.table, i).Dirty() && next > 0
    ensures m'.pcount > 0
    ensures Listing(f, i + 1, m', next + 1, tcount + 1, Placing(g.placed[i := next], g.back[next := i], settled))
  {
    var list, blocks, freed, pstart, bstart, pcount;
    list, blocks, freed, settled, pstart, bstart, pcount :=
      Collect(f, f.bmap.list, m.list, m.blocks, m.freed, g.placed, g.settled, i, next, m.pstart, m.bstart, m.pcount);
    m' := Mapping(list, blocks, freed, pstart, bstart, pcount);
  }

  method PutListed(ghost f: File, ghost own0: map<nat, Owner>, ghost own: map<nat, Owner>, ghost l: nat, i: nat,
                   m: Mapping, c: Chunk, ghost tcount: nat, ghost fcount: nat, ghost g: Placing)
    returns (m': Mapping, ghost settled: set<nat>)
    requires ValidTable(f.table) && Placement(f, false, own0, own, l, i, m, c, tcount, fcount, g)
    requires Get(f.table, i).Dirty() && i !in g.placed && c.count < c.rcount
    ensures var b := c.block + c.count;
            Placement(f, false, own0, own, l, i + 1, m', c.(count := c.count + 1), tcount + 1, fcount,
                      Placing(g.placed[i := b], g.back[b := i], settled))
  {
    m', settled := CollectPage(f, i, m, c.block + c.count, tcount, g);
    SpacedUse(own0, own, l, g.placed, g.back, c.block + c.count, c.rcount - c.count, i);
    ExactlyMore(g.back.Keys, tcount, c.block + c.count);
  }

  /** Page `i` goes to the next block. */
  method PutPage(ghost f: File, single: bool, ghost own0: map<nat, Owner>, ghost own: map<nat, Owner>, ghost l: nat,
                 i: nat, m: Mapping, c: Chunk, ghost tcount: nat, ghost fcount: nat, ghost g: Placing)
    returns (m': Mapping, ghost g': Placing)
    requires ValidTable(f.table) && Placement(f, single, own0, own, l, i, m, c, tcount, fcount, g)
    requires Get(f.table, i).Dirty() && i !in g.placed && c.count < c.rcount
    ensures Placement(f, single, own0, own, l, i + 1, m', c.(count := c.count + 1), tcount + 1, fcount, g')
    ensures g'.placed == g.placed[i := c.block + c.count] && c.block + c.count in Room(own0, l)
    ensures forall q: nat {:trigger g.placed[q]} :: q in g.placed ==> g.placed[q] != c.block + c.count
  {
    ghost var b := c.block + c.count;
    SpacedUse(own0, own, l, g.placed, g.back, b, c.rcount - c.count, i);
    m', g' := m, Placing(g.placed[i := b], g.back[b := i], g.settled);
    if single {
      PutSingle(f, own0, own, l, i, m, c, tcount, fcount, g);
    } else {
      ghost var settled;
      m', settled := PutListed(f, own0, own, l, i, m, c, tcount, fcount, g);
      g' := Placing(g.placed[i := b], g.back[b := i], settled);
    }
  }

  /** The blocks of the file are in use. */
  ghost predicate BlocksInUse(m: BlockMap, own: map<nat, Owner>) {
    forall p: nat {:trigger m.At(p)} :: m.At(p) >= 0 ==> m.At(p) in InUse(own)
  }

  /** The map in use while pages are written. */
  function CurrentMap(f: File, single: bool, m: Mapping): BlockMap {
    if single then f.bmap else BlockMap(m.list, 0, 0, m.blocks)
  }

  /** A page not written yet still has its old content below its dirty data. */
  lemma UnderSame(f: File, store: map<nat, Page>, single: bool, own0: map<nat, Owner>, l: nat, i: nat, m: Mapping,
                  now: map<nat, Page>, g: Placing)
    requires ValidTable(f.table) && BlocksInUse(f.bmap, own0) && (!single ==> f.bmap.length == 0)
    requires PagesStored(f, store, single, i, now, g.placed, Room(own0, l))
    requires !single ==> Remapped(f.bmap.list, m.list, m.freed, g.placed, g.settled) && i !in g.settled
    ensures Under(CurrentMap(f, single, m), now, i) == Under(f.bmap, store, i)
  {
    var b := f.bmap.At(i);
    assert CurrentMap(f, single, m).At(i) == b;
    if b >= 0 {
      assert b in InUse(own0) && b !in Room(own0, l);
      assert ReadBlock(now, b) == ReadBlock(store, b);
    }
  }

  lemma NotSettled(f: File, single: bool, own0: map<nat, Owner>, own: map<nat, Owner>, l: nat, i: nat, m: Mapping,
                   c: Chunk, tcount: nat, fcount: nat, g: Placing)
    requires ValidTable(f.table) && Placement(f, single, own0, own, l, i, m, c, tcount, fcount, g)
    ensures !single ==> Remapped(f.bmap.list, m.list, m.freed, g.placed, g.settled) && i !in g.settled
  {
    if !single {
      RunPlaced(f, i, g.placed, g.settled, m.pstart, m.bstart, m.pcount);
    }
  }

  /** The content of page `i` goes to the next block. */
  method WritePage(ghost f: File, ghost store: map<nat, Page>, single: bool, ghost own0: map<nat, Owner>,
                   ghost own: map<nat, Owner>, ghost l: nat, i: nat, page: Page, now: map<nat, Page>, m: Mapping,
                   c: Chunk, ghost tcount: nat, ghost fcount: nat, ghost g: Placing)
    returns (now': map<nat, Page>, m': Mapping, ghost g': Placing)
    requires ValidTable(f.table) && Placement(f, single, own0, own, l, i, m, c, tcount, fcount, g) && c.count < c.rcount
    requires PagesStored(f, store, single, i, now, g.placed, Room(own0, l)) && Writes(f, single, i)
    requires Shows(f, store, i, page)
    ensures Placement(f, single, own0, own, l, i + 1, m', c.(count := c.count + 1), tcount + 1, fcount, g')
    ensures PagesStored(f, store, single, i + 1, now', g'.placed, Room(own0, l))
  {
    var b := c.block + c.count;
    assert PageStored(f, store, single, i, now, g.placed, Room(own0, l), i);
    m', g' := PutPage(f, single, own0, own, l, i, m, c, tcount, fcount, g);
    StoreNext(f, store, single, i, now, g.placed, Room(own0, l), b, page);
    now' := now[b := page];
  }

  /** Page `i`, taken out of the table, is skipped, becomes a hole or goes to the next block. */
  method PlacePage(ghost f: File, ghost store: map<nat, Page>, single: bool, ghost own0: map<nat, Owner>,
                   ghost own: map<nat, Owner>, ghost l: nat, i: nat, data: PData, now: map<nat, Page>, m: Mapping,
                   c: Chunk, tcount: nat, fcount: nat, ghost g: Placing)
    returns (now': map<nat, Page>, m': Mapping, c': Chunk, tcount': nat, fcount': nat, ghost g': Placing)
    requires ValidTable(f.table) && Placement(f, single, own0, own, l, i, m, c, tcount, fcount, g) && c.count < c.rcount
    requires PagesStored(f, store, single, i, now, g.placed, Room(own0, l))
    requires data.NoData? <==> !Get(f.table, i).Dirty()
    requires data.ZeroPage? <==> Get(f.table, i).data.ZeroPage?
    requires !data.NoData? ==> Shows(f, store, i, Bytes(data))
    requires single ==> !data.NoData?
    ensures Placement(f, single, own0, own, l, i + 1, m', c', tcount', fcount', g')
    ensures PagesStored(f, store, single, i + 1, now', g'.placed, Room(own0, l))
    ensures c'.block == c.block && c'.rcount == c.rcount
  {
    now', m', c', tcount', fcount', g' := now, m, c, tcount, fcount, g;
    if data.NoData? {
      PassPage(f, single, own0, own, l, i, m, c, tcount, fcount, g);
      StoreSkip(f, store, single, i, now, g.placed, Room(own0, l));
    } else if !single && data.ZeroPage? {
      assert PageStored(f, store, single, i, now, g.placed, Room(own0, l), i);
      m', g' := ZeroOut(f, own0, own, l, i, m, c, tcount, fcount, g);
      fcount' := fcount + 1;
      StoreSkip(f, store, single, i, now, g.placed, Room(own0, l));
    } else {
      now', m', g' := WritePage(f, store, single, own0, own, l, i, Bytes(data), now, m, c, tcount, fcount, g);
      c', tcount' := c.(count := c.count + 1), tcount + 1;
    }
  }

  /** One page of the loop of `lc_flushPages`. */
  method FlushPage(gfs: Gfs, l: nat, f: File, ghost store: map<nat, Page>, single: bool, ghost own0: map<nat, Owner>,
                   i: nat, t: Table, now: map<nat, Page>, m: Mapping, c: Chunk, tcount: nat, fcount: nat,
                   ghost g: Placing)
    returns (t': Table, now': map<nat, Page>, m': Mapping, c': Chunk, tcount': nat, fcount': nat, ghost g': Placing)
    requires f.Valid() && f.dirty > 0 && i <= f.last && Enough(Room(own0, l), f.dirty)
    requires BlocksInUse(f.bmap, own0) && (if single then Get(f.table, i).Dirty() else f.bmap.length == 0)
    requires gfs.Valid() && IsLayer(gfs.Now(), l)
    requires Placement(f, single, own0, gfs.owner, l, i, m, c, tcount, fcount, g)
    requires Taken(f, i, t) && PagesStored(f, store, single, i, now, g.placed, Room(own0, l))
    requires Range(c.block, c.rcount) <= gfs.taken
    modifies gfs
    ensures gfs.Valid() && IsLayer(gfs.Now(), l) && gfs.Aside(l) == old(gfs.Aside(l))
    ensures Range(c'.block, c'.rcount) <= gfs.taken
    ensures Placement(f, single, own0, gfs.owner, l, i + 1, m', c', tcount', fcount', g')
    ensures Taken(f, i + 1, t') && PagesStored(f, store, single, i + 1, now', g'.placed, Room(own0, l))
    ensures single ==> c'.block == c.block
  {
    DirtyAhead(f, i);
    m', c', g' := MoreBlocks(gfs, l, f, single, own0, f.dirty, i, m, c, tcount, fcount, g);
    NotSettled(f, single, own0, gfs.owner, l, i, m', c', tcount, fcount, g');
    UnderSame(f, store, single, own0, l, i, m', now, g');
    var data;
    data, t' := RemoveDirtyPage(f, store, CurrentMap(f, single, m'), now, i, t);
    now', m', c', tcount', fcount', g' := PlacePage(f, store, single, own0, gfs.owner, l, i, data, now, m', c', tcount,
      fcount, g');
  }

  /** All pages between the first and the last dirty page are dirty. */
  ghost predicate Dense(f: File)
    requires ValidTable(f.table)
  {
    forall q: nat {:trigger Get(f.table, q)} :: f.first <= q <= f.last ==> Get(f.table, q).Dirty()
  }

  lemma DenseCount(f: File)
    requires f.Valid() && f.dirty > 0
    ensures f.first <= f.last && Count(f.table, f.first) == 0 && Count(f.table, f.last + 1) == f.dirty
    ensures f.dirty == f.last + 1 - f.first ==> Dense(f)
  {
    assert Get(f.table, f.last).Dirty();
    CountNone(f.table, f.first);
    CountFull(f.table, f.first, f.last + 1);
    CountBeyond(f.table, f.last + 1, PageCount(f.size));
  }

  /** What is known of the file, the layer and the blocks throughout the loop of `lc_flushPages`. */
  ghost predicate Flushable(f: File, single: bool, own0: map<nat, Owner>, l: nat) {
    && f.bmap.Valid() && ValidTable(f.table) && f.dirty == Count(f.table, PageCount(f.size)) && f.dirty > 0
    && f.first <= f.last
    && Enough(Room(own0, l), f.dirty) && (!single ==> f.bmap.length == 0)
    && forall p: nat {:trigger PageReady(f, single, own0, p)} :: PageReady(f, single, own0, p)
  }

  ghost predicate PageReady(f: File, single: bool, own0: map<nat, Owner>, p: nat)
    requires ValidTable(f.table)
  {
    && Get(f.table, p).Fits(p, f.size)
    && (f.bmap.At(p) >= 0 ==> p < f.Covered() && f.bmap.At(p) in InUse(own0))
    && (Get(f.table, p).Dirty() ==> f.first <= p <= f.last && p < f.Covered())
    && (p == f.first || p == f.last || (single && f.first <= p <= f.last) ==> Get(f.table, p).Dirty())
  }

  lemma FlushableIs(f: File, single: bool, own0: map<nat, Owner>, l: nat)
    ensures Flushable(f, single, own0, l) <==>
            && f.Valid() && f.dirty > 0 && f.first <= f.last && Enough(Room(own0, l), f.dirty)
            && BlocksInUse(f.bmap, own0)
            && if single then Dense(f) else f.bmap.length == 0
  {
    if Flushable(f, single, own0, l) {
      assert PageReady(f, single, own0, f.first) && PageReady(f, single, own0, f.last);
      forall p: nat
        ensures Get(f.table, p).Fits(p, f.size)
        ensures (f.bmap.At(p) >= 0 ==> p < f.Covered() && f.bmap.At(p) in InUse(own0))
        ensures Get(f.table, p).Dirty() ==> f.first <= p <= f.last && p < f.Covered()
        ensures single && f.first <= p <= f.last ==> Get(f.table, p).Dirty()
      {
        assert PageReady(f, single, own0, p);
      }
    } else if && f.Valid() && f.dirty > 0 && f.first <= f.last && Enough(Room(own0, l), f.dirty)
              && BlocksInUse(f.bmap, own0)
    {
      if if single then Dense(f) else f.bmap.length == 0 {
        forall p: nat ensures PageReady(f, single, own0, p) {
          assert Get(f.table, p).Fits(p, f.size);
        }
      }
    }
  }

  /** The variables of the loop of `lc_flushPages`. */
  datatype Work = Work(t: Table, now: map<nat, Page>, m: Mapping, c: Chunk, tcount: nat, fcount: nat)

  /** The loop has come to page `i`. */
  ghost predicate Flushed(f: File, store: map<nat, Page>, single: bool, own0: map<nat, Owner>, own: map<nat, Owner>,
                          l: nat, i: nat, w: Work, g: Placing)
    requires ValidTable(f.table)
  {
    && Placement(f, single, own0, own, l, i, w.m, w.c, w.tcount, w.fcount, g)
    && Taken(f, i, w.t) && PagesStored(f, store, single, i, w.now, g.placed, Room(own0, l))
  }

  method WriteStep(gfs: Gfs, l: nat, f: File, ghost store: map<nat, Page>, single: bool, ghost own0: map<nat, Owner>,
                   i: nat, w: Work, ghost g: Placing) returns (w': Work, ghost g': Placing)
    requires Flushable(f, single, own0, l) && f.first <= i <= f.last
    requires gfs.Valid() && IsLayer(gfs.Now(), l) && Flushed(f, store, single, own0, gfs.owner, l, i, w, g)
    requires Range(w.c.block, w.c.rcount) <= gfs.taken
    modifies gfs
    ensures gfs.Valid() && IsLayer(gfs.Now(), l) && gfs.Aside(l) == old(gfs.Aside(l))
    ensures Flushed(f, store, single, own0, gfs.owner, l, i + 1, w', g')
    ensures Range(w'.c.block, w'.c.rcount) <= gfs.taken
    ensures single ==> w'.c.block == w.c.block
  {
    FlushableIs(f, single, own0, l);
    var t, now, m, c, tcount, fcount;
    t, now, m, c, tcount, fcount, g' := FlushPage(gfs, l, f, store, single, own0, i, w.t, w.now, w.m, w.c, w.tcount,
      w.fcount, g);
    w' := Work(t, now, m, c, tcount, fcount);
  }

  /** The loop of `lc_flushPages`. */
  method WriteLoop(gfs: Gfs, l: nat, f: File, ghost store: map<nat, Page>, single: bool, ghost own0: map<nat, Owner>,
                   w0: Work, ghost g0: Placing) returns (w: Work, ghost g: Placing)
    requires Flushable(f, single, own0, l)
    requires gfs.Valid() && IsLayer(gfs.Now(), l) && Flushed(f, store, single, own0, gfs.owner, l, f.first, w0, g0)
    requires Range(w0.c.block, w0.c.rcount) <= gfs.taken
    modifies gfs
    ensures gfs.Valid() && IsLayer(gfs.Now(), l) && gfs.Aside(l) == old(gfs.Aside(l))
    ensures Flushed(f, store, single, own0, gfs.owner, l, f.last + 1, w, g)
    ensures Range(w.c.block, w.c.rcount) <= gfs.taken
    ensures single ==> w.c.block == w0.c.block
  {
    w, g := w0, g0;
    ghost var aside := gfs.Aside(l);
    var i := f.first;
    while i <= f.last
      invariant f.first <= i <= f.last + 1 && gfs.Valid() && IsLayer(gfs.Now(), l)
      invariant gfs.Aside(l) == aside
      invariant Range(w.c.block, w.c.rcount) <= gfs.taken
      invariant i > f.last + 1 || Flushed(f, store, single, own0, gfs.owner, l, i, w, g)
      invariant single ==> w.c.block == w0.c.block
    {
      w, g := WriteStep(gfs, l, f, store, single, own0, i, w, g);
      i := i + 1;
    }
  }

  /** Writes all dirty pages, the first of them to `block`. */
  method WritePages(gfs: Gfs, l: nat, f: File, store: map<nat, Page>, single: bool, ghost own0: map<nat, Owner>,
                    block: nat, rcount: nat)
    returns (t: Table, now: map<nat, Page>, m: Mapping, c: Chunk, ghost tcount: nat, ghost fcount: nat,
             ghost g: Placing)
    requires f.Valid() && f.dirty > 0 && Enough(Room(own0, l), f.dirty) && block > 0 && rcount > 0
    requires BlocksInUse(f.bmap, own0) && if single then Dense(f) && rcount == f.dirty else f.bmap.length == 0
    requires gfs.Valid() && IsLayer(gfs.Now(), l)
    requires Spaced(own0, gfs.owner, l, map[], map[], Range(block + 0, rcount - 0))
    requires Range(block, rcount) <= gfs.taken
    modifies gfs
    ensures gfs.Valid() && IsLayer(gfs.Now(), l) && gfs.Aside(l) == old(gfs.Aside(l))
    ensures Range(c.block, c.rcount) <= gfs.taken
    ensures Placement(f, single, own0, gfs.owner, l, f.last + 1, m, c, tcount, fcount, g)
    ensures Taken(f, f.last + 1, t) && PagesStored(f, store, single, f.last + 1, now, g.placed, Room(own0, l))
    ensures single ==> c.block == block
  {
    DenseCount(f);
    m, c := Mapping(f.bmap.list, f.bmap.blocks, [], 0, 0, 0), Chunk(block, rcount, 0);
    g := Placing(map[], map[], {});
    WriteStart(f, store, single, own0, gfs.owner, l, m, c, g);
    FlushableIs(f, single, own0, l);
    var w := Work(f.table, store, m, c, 0, 0);
    w, g := WriteLoop(gfs, l, f, store, single, own0, w, g);
    t, now, m, c, tcount, fcount := w.t, w.now, w.m, w.c, w.tcount, w.fcount;
  }

  lemma WriteStart(f: File, store: map<nat, Page>, single: bool, own0: map<nat, Owner>, own: map<nat, Owner>, l: nat,
                   m: Mapping, c: Chunk, g: Placing)
    requires f.Valid() && f.dirty > 0 && c.block > 0 && c.rcount > 0 && c.count == 0
    requires (single ==> c.rcount == f.dirty) && (!single ==> f.bmap.length == 0)
    requires Spaced(own0, own, l, map[], map[], Range(c.block + 0, c.rcount - 0))
    requires m == Mapping(f.bmap.list, f.bmap.blocks, [], 0, 0, 0) && g == Placing(map[], map[], {})
    ensures Placement(f, single, own0, own, l, f.first, m, c, 0, 0, g)
    ensures Taken(f, f.first, f.table) && PagesStored(f, store, single, f.first, store, g.placed, Room(own0, l))
  {
    DenseCount(f);
    forall q: nat ensures PageTaken(f, f.first, f.table, q) {
      if q < f.first {
        GetEmpty(f.table, q);
      }
    }
  }

  // ----- The result -----

  /** The map after the flush: dirty pages are where they were put, other pages where they were. */
  ghost predicate MapResult(f: File, single: bool, m: BlockMap, placed: map<nat, nat>)
    requires ValidTable(f.table)
  {
    && (forall p: nat {:trigger p in placed} :: p in placed <==> Writes(f, single, p))
    && (forall p: nat {:trigger m.At(p)} :: m.At(p) ==
          if !Get(f.table, p).Dirty() then f.bmap.At(p) else if Writes(f, single, p) then placed[p] else HOLE)
  }

  /** `b` held a page that has been written or is now a hole. */
  ghost predicate Replaced(f: File, b: nat)
    requires ValidTable(f.table)
  {
    exists p: nat :: Get(f.table, p).Dirty() && f.bmap.At(p) == b
  }

  /** `freed` are the blocks of the pages that were dirty. */
  ghost predicate FreesReplaced(f: File, freed: seq<Extent>)
    requires ValidTable(f.table)
  {
    Loose(freed) && forall b: nat {:trigger b in Keys(freed)} :: b in Keys(freed) <==> Replaced(f, b)
  }

  lemma AllTaken(f: File, store: map<nat, Page>, single: bool, now: map<nat, Page>, placed: map<nat, nat>,
                 room: set<nat>)
    requires f.Valid() && PagesStored(f, store, single, f.last + 1, now, placed, room)
    ensures forall p: nat {:trigger p in placed} :: p in placed <==> Writes(f, single, p)
  {
    forall p: nat ensures p in placed <==> Writes(f, single, p) {
      assert PageStored(f, store, single, f.last + 1, now, placed, room, p);
    }
  }

  /** The map of a fragmented file when all runs are entered. */
  lemma ListResult(f: File, m: Mapping, next: nat, tcount: nat, g: Placing)
    requires f.Valid() && f.bmap.length == 0 && Listing(f, f.last + 1, m, next, tcount, g) && m.pcount == 0
    requires forall p: nat {:trigger p in g.placed} :: p in g.placed <==> Writes(f, false, p)
    ensures MapResult(f, false, BlockMap(m.list, 0, 0, m.blocks), g.placed)
    ensures FreesReplaced(f, m.freed)
  {
    var r := BlockMap(m.list, 0, 0, m.blocks);
    forall p: nat ensures p in g.settled <==> Get(f.table, p).Dirty() {
      assert PageCollected(f, f.last + 1, g.placed, g.settled, m.pstart, m.bstart, m.pcount, p);
    }
    forall p: nat ensures r.At(p) ==
      if !Get(f.table, p).Dirty() then f.bmap.At(p) else if Writes(f, false, p) then g.placed[p] else HOLE
    {
      assert Lookup(m.list, p) == r.At(p);
    }
    forall b: nat ensures b in Keys(m.freed) <==> Replaced(f, b) {
      assert b in Keys(m.freed) <==> HadBlock(f.bmap.list, g.settled, b);
      if p: nat :| p in g.settled && Lookup(f.bmap.list, p) == b {
        assert f.bmap.At(p) == b;
      }
      if p: nat :| Get(f.table, p).Dirty() && f.bmap.At(p) == b {
        assert p in g.settled && Lookup(f.bmap.list, p) == b;
      }
    }
  }

  /** All blocks of a list, for freeing. */
  method FreeList(l: seq<Extent>) returns (freed: seq<Extent>)
    requires EmapList(l)
    ensures Loose(freed) && Keys(freed) == BlocksFrom(l, 0) && Total(freed) == Total(l)
  {
    freed := [];
    var i := 0;
    while i < |l|
      invariant i <= |l| && Loose(freed) && Keys(freed) == BlocksFrom(l[..i], 0) && Total(freed) == Total(l[..i])
    {
      EmapPrefix(l, i);
      TotalConcat(l[..i], [l[i]]);
      assert l[..i + 1][..i] == l[..i];
      freed := AddSpaceExtent(freed, l[i].block, l[i].count, false);
      i := i + 1;
    }
    assert l[..i] == l;
  }

  lemma ReplacedAll(f: File, b: nat)
    requires ValidTable(f.table)
    requires forall p: nat {:trigger f.bmap.At(p)} :: f.bmap.At(p) >= 0 ==> Get(f.table, p).Dirty()
    ensures Replaced(f, b) <==> Beyond(f.bmap, 0, b)
  {
    if Replaced(f, b) {
      var p: nat :| Get(f.table, p).Dirty() && f.bmap.At(p) == b;
      assert PageBeyond(f.bmap, 0, b, p);
    }
    if p: nat :| PageBeyond(f.bmap, 0, b, p) {
      assert Get(f.table, p).Dirty() && f.bmap.At(p) == b;
    }
  }

  /** The blocks a file had when all its pages are rewritten. */
  method FreeOld(f: File) returns (freed: seq<Extent>)
    requires f.Valid()
    requires forall p: nat {:trigger f.bmap.At(p)} :: f.bmap.At(p) >= 0 ==> Get(f.table, p).Dirty()
    ensures FreesReplaced(f, freed) && Total(freed) == f.bmap.blocks
  {
    if f.bmap.length > 0 {
      freed := AddSpaceExtent([], f.bmap.block, f.bmap.length, false);
      forall b: nat ensures b in Keys(freed) <==> Replaced(f, b) {
        if b in Keys(freed) {
          var p := b - f.bmap.block;
          assert f.bmap.At(p) == b;
        }
        if p: nat :| Get(f.table, p).Dirty() && f.bmap.At(p) == b {
          assert b in Range(f.bmap.block, f.bmap.length);
        }
      }
    } else {
      freed := FreeList(f.bmap.list);
      forall b: nat ensures b in Keys(freed) <==> Replaced(f, b) {
        BlocksFromAre(f.bmap.list, 0, b);
        SameImage(f.bmap, f.bmap, 0, b);
        ReplacedAll(f, b);
      }
    }
  }

  /** A reader of two files sees the same bytes below the end of the file, and blocks still have zeros past it. */
  ghost predicate SameData(f: File, store: map<nat, Page>, r: File, now: map<nat, Page>)
    requires ValidTable(f.table) && ValidTable(r.table)
  {
    && (forall q: nat, k: nat {:trigger r.ByteAt(now, q, k)} :: k < 4096 && 4096 * q + k < f.size ==>
          r.ByteAt(now, q, k) == f.ByteAt(store, q, k))
    && (forall q: nat {:trigger PageClear(r, now, q)} :: PageClear(f, store, q) ==> PageClear(r, now, q))
  }

  /** The new blocks hold what the dirty pages held: a reader sees no difference. */
  lemma SameContents(f: File, store: map<nat, Page>, single: bool, own0: map<nat, Owner>, l: nat, now: map<nat, Page>,
                     placed: map<nat, nat>, r: File)
    requires f.Valid() && ValidTable(r.table) && BlocksInUse(f.bmap, own0)
    requires PagesStored(f, store, single, f.last + 1, now, placed, Room(own0, l))
    requires MapResult(f, single, r.bmap, placed)
    requires forall q: nat {:trigger Get(r.table, q)} :: !Get(r.table, q).Dirty()
    requires r.size == f.size
    ensures SameData(f, store, r, now)
  {
    forall q: nat | PageClear(f, store, q) ensures PageClear(r, now, q) {
      ClearAfter(f, store, single, own0, l, now, placed, r, q);
    }
    forall q: nat, k: nat | k < 4096 && 4096 * q + k < f.size ensures r.ByteAt(now, q, k) == f.ByteAt(store, q, k) {
      assert !Get(r.table, q).Dirty();
      if Writes(f, single, q) {
        assert PageStored(f, store, single, f.last + 1, now, placed, Room(own0, l), q);
        assert q in placed && r.bmap.At(q) == placed[q];
        assert Shows(f, store, q, ReadBlock(now, placed[q]));
      } else if Get(f.table, q).Dirty() {
        assert Get(f.table, q).Fits(q, f.size) && r.bmap.At(q) == HOLE;
      } else {
        SameUnder(f, store, own0, l, now, r.bmap, q);
      }
    }
  }

  lemma ClearAfter(f: File, store: map<nat, Page>, single: bool, own0: map<nat, Owner>, l: nat, now: map<nat, Page>,
                   placed: map<nat, nat>, r: File, q: nat)
    requires f.Valid() && ValidTable(r.table) && BlocksInUse(f.bmap, own0) && r.size == f.size && PageClear(f, store, q)
    requires PagesStored(f, store, single, f.last + 1, now, placed, Room(own0, l))
    requires MapResult(f, single, r.bmap, placed)
    ensures PageClear(r, now, q)
  {
    if Writes(f, single, q) {
      assert PageStored(f, store, single, f.last + 1, now, placed, Room(own0, l), q);
      assert q in placed && r.bmap.At(q) == placed[q] && Shows(f, store, q, ReadBlock(now, placed[q]));
    } else if Get(f.table, q).Dirty() {
      assert r.bmap.At(q) == HOLE;
    } else {
      SameUnder(f, store, own0, l, now, r.bmap, q);
    }
  }

  lemma SameUnder(f: File, store: map<nat, Page>, own0: map<nat, Owner>, l: nat, now: map<nat, Page>, m: BlockMap,
                  q: nat)
    requires BlocksInUse(f.bmap, own0) && m.At(q) == f.bmap.At(q)
    requires forall b: nat {:trigger ReadBlock(now, b)} :: b !in Room(own0, l) ==>
              ReadBlock(now, b) == ReadBlock(store, b)
    ensures Under(m, now, q) == Under(f.bmap, store, q)
  {
    if m.At(q) >= 0 {
      assert f.bmap.At(q) in InUse(own0) && f.bmap.At(q) !in Room(own0, l);
    }
  }

  /** What `lc_flushPages` leaves of the dirty pages and their markers. */
  function Clean(f: File, m: BlockMap, t: Table, release: bool): File {
    File(f.size, m, if release then Array([]) else t, 0, PageCount(f.size) + 1, 0)
  }

  lemma CleanValid(f: File, single: bool, m: BlockMap, t: Table, release: bool, placed: map<nat, nat>)
    requires f.Valid() && m.Valid() && Taken(f, f.last + 1, t) && MapResult(f, single, m, placed)
    ensures Clean(f, m, t, release).Valid()
    ensures forall q: nat {:trigger Get(Clean(f, m, t, release).table, q)} ::
              !Get(Clean(f, m, t, release).table, q).Dirty()
  {
    var r := Clean(f, m, t, release);
    forall q: nat ensures !Get(r.table, q).Dirty() {
      assert PageTaken(f, f.last + 1, t, q);
      assert Get(f.table, q).Dirty() ==> q <= f.last;
    }
    CountNone(r.table, PageCount(f.size));
    forall p: nat | m.At(p) >= 0 ensures p < r.Covered() {
      assert Get(f.table, p).Dirty() ==> p < f.Covered();
      assert f.bmap.At(p) >= 0 ==> p < f.Covered();
    }
  }

  /** Whether all dirty pages go to one extent that becomes the map of the file. */
  predicate WholeFile(f: File, rcount: nat) {
    && f.dirty == rcount && f.first == 0 && f.last + 1 == f.dirty
    && (f.bmap.blocks == 0 || (f.last + 1 == f.Covered() && f.bmap.blocks <= f.dirty))
  }

  /** Whether the dirty pages continue the single extent of the file. */
  predicate Extends(f: File, block: nat, rcount: nat) {
    && f.bmap.length > 0 && f.first == f.bmap.length && f.bmap.block + f.bmap.length == block
    && f.dirty == rcount && f.first + f.dirty == f.last + 1
  }

  /** The dirty pages are the `n` pages from `lo` on. */
  ghost predicate DirtyAre(f: File, lo: nat, n: nat)
    requires ValidTable(f.table)
  {
    forall p: nat {:trigger Get(f.table, p)} :: Get(f.table, p).Dirty() <==> lo <= p < lo + n
  }

  /** The map of a flushed file, if `b` is where the allocator has a piece for all dirty pages. A file that is dirty
      from its first page on and has no other blocks is that piece; one whose dirty pages follow its single extent, in
      the file and on disk, is a longer extent; any other is a list. */
  ghost predicate Layout(f: File, b: nat, m: BlockMap)
    requires ValidTable(f.table)
  {
    if b != INVALID_BLOCK && DirtyAre(f, 0, f.dirty)
       && (f.bmap.blocks == 0 || (f.dirty == f.Covered() && f.bmap.blocks <= f.dirty))
    then m.list == [] && m.length == f.dirty && m.block == b
    else if b != INVALID_BLOCK && f.bmap.length > 0 && DirtyAre(f, f.bmap.length, f.dirty)
            && b == f.bmap.block + f.bmap.length
    then m.list == [] && m.length == f.bmap.length + f.dirty && m.block == f.bmap.block
    else m.length == 0
  }

  /** Dirty pages get blocks, except that pages of zeros are holes in a list. */
  ghost predicate Holes(f: File, m: BlockMap)
    requires ValidTable(f.table)
  {
    forall p: nat {:trigger m.At(p)} :: Get(f.table, p).Dirty() ==>
      (m.At(p) < 0 <==> m.length == 0 && Get(f.table, p).data.ZeroPage?)
  }

  lemma LayoutIs(f: File, g: Lists, l: nat, block: nat, rcount: nat)
    requires f.Valid() && f.dirty > 0 && IsLayer(g, l) && OnePiece(g, l, f.dirty, block, rcount)
    ensures var b := Allotted(g, l, f.dirty);
            && (WholeFile(f, rcount) <==>
                  b != INVALID_BLOCK && DirtyAre(f, 0, f.dirty)
                  && (f.bmap.blocks == 0 || (f.dirty == f.Covered() && f.bmap.blocks <= f.dirty)))
            && (Extends(f, block, rcount) <==>
                  b != INVALID_BLOCK && f.bmap.length > 0 && DirtyAre(f, f.bmap.length, f.dirty)
                  && b == f.bmap.block + f.bmap.length)
  {
    DirtyIs(f, 0);
    DirtyIs(f, f.bmap.length);
  }

  lemma DirtyIs(f: File, lo: nat)
    requires f.Valid() && f.dirty > 0
    ensures DirtyAre(f, lo, f.dirty) <==> f.first == lo && f.last + 1 == lo + f.dirty
  {
    DenseCount(f);
    assert Get(f.table, f.first).Dirty() && Get(f.table, f.last).Dirty();
    if DirtyAre(f, lo, f.dirty) {
      assert Get(f.table, lo).Dirty() && Get(f.table, lo + f.dirty - 1).Dirty();
    }
  }

  lemma WholeFileDirty(f: File, rcount: nat)
    requires f.Valid() && f.dirty > 0 && WholeFile(f, rcount)
    ensures Dense(f)
    ensures forall p: nat {:trigger f.bmap.At(p)} :: f.bmap.At(p) >= 0 ==> Get(f.table, p).Dirty()
  {
    DenseCount(f);
    forall p: nat | f.bmap.At(p) >= 0 ensures Get(f.table, p).Dirty() {
      if f.bmap.blocks == 0 {
        NoBlocks(f.bmap, p);
      }
      assert p < f.Covered();
    }
  }

  lemma NoBlocks(m: BlockMap, p: nat)
    requires m.Valid() && m.blocks == 0
    ensures m.At(p) == HOLE
  {
    if m.list != [] {
      EmapIs(m.list);
    }
  }

  /** The map of a file in one extent. */
  lemma SingleResult(f: File, own0: map<nat, Owner>, own: map<nat, Owner>, l: nat, m: Mapping, c: Chunk, tcount: nat,
                     fcount: nat, g: Placing, r: BlockMap)
    requires f.Valid() && f.dirty > 0 && Placement(f, true, own0, own, l, f.last + 1, m, c, tcount, fcount, g)
    requires Dense(f)
    requires forall p: nat {:trigger p in g.placed} :: p in g.placed <==> Writes(f, true, p)
    requires r.list == []
    requires || (WholeFile(f, c.rcount) && r.block == c.block && r.length == f.dirty)
             || (Extends(f, c.block, c.rcount) && r.block == f.bmap.block && r.length == f.bmap.length + f.dirty)
    ensures MapResult(f, true, r, g.placed)
  {
    if WholeFile(f, c.rcount) {
      WholeFileDirty(f, c.rcount);
    }
    forall p: nat ensures r.At(p) ==
      if !Get(f.table, p).Dirty() then f.bmap.At(p) else if Writes(f, true, p) then g.placed[p] else HOLE
    {
      assert Get(f.table, p).Dirty() <==> f.first <= p <= f.last;
      assert p in g.placed <==> Writes(f, true, p);
      LookupHole(f.bmap.list, p);
    }
  }

  /** Everything a flush has done, before the inode is updated. */
  ghost predicate Outcome(f: File, store: map<nat, Page>, single: bool, own0: map<nat, Owner>, own: map<nat, Owner>,
                          l: nat, m: BlockMap, t: Table, now: map<nat, Page>, freed: seq<Extent>, c: Chunk,
                          written: nat, g: Placing)
    requires ValidTable(f.table)
  {
    && m.Valid() && Taken(f, f.last + 1, t) && PagesStored(f, store, single, f.last + 1, now, g.placed, Room(own0, l))
    && MapResult(f, single, m, g.placed) && FreesReplaced(f, freed)
    && Total(freed) + m.blocks == f.bmap.blocks + written && written <= f.dirty && Exactly(g.back.Keys, written)
    && c.count <= c.rcount && Spaced(own0, own, l, g.placed, g.back, Range(c.block + c.count, c.rcount - c.count))
  }

  /** The dirty pages go to one extent: the whole file is rewritten, or its single extent grows. */
  method FlushSingle(gfs: Gfs, l: nat, f: File, store: map<nat, Page>, ghost own0: map<nat, Owner>, block: nat,
                     extend: bool)
    returns (m: BlockMap, t: Table, now: map<nat, Page>, freed: seq<Extent>, c: Chunk, ghost g: Placing)
    requires f.Valid() && f.dirty > 0 && Enough(Room(own0, l), f.dirty) && block > 0 && BlocksInUse(f.bmap, own0)
    requires if extend then Extends(f, block, f.dirty) else WholeFile(f, f.dirty)
    requires gfs.Valid() && IsLayer(gfs.Now(), l)
    requires Spaced(own0, gfs.owner, l, map[], map[], Range(block + 0, f.dirty - 0))
    requires Range(block, f.dirty) <= gfs.taken
    modifies gfs
    ensures gfs.Valid() && IsLayer(gfs.Now(), l) && gfs.Aside(l) == old(gfs.Aside(l))
    ensures Range(c.block, c.rcount) <= gfs.taken
    ensures Outcome(f, store, true, own0, gfs.owner, l, m, t, now, freed, c, f.dirty, g)
    ensures m.list == [] && m.block == (if extend then f.bmap.block else block)
    ensures m.length == if extend then f.bmap.length + f.dirty else f.dirty
  {
    DenseCount(f);
    if !extend {
      WholeFileDirty(f, f.dirty);
    }
    var eblock, elength := if extend then f.bmap.block else block, if extend then f.bmap.length + f.dirty else f.dirty;
    var dblocks := if extend then f.bmap.blocks + f.dirty else f.dirty;
    ghost var tcount, fcount;
    ghost var mapping;
    t, now, mapping, c, tcount, fcount, g := WritePages(gfs, l, f, store, true, own0, block, f.dirty);
    AllTaken(f, store, true, now, g.placed, Room(own0, l));
    freed := [];
    if !extend {
      freed := FreeOld(f);
    } else {
      NothingReplaced(f);
    }
    m := BlockMap([], eblock, elength, dblocks);
    SingleResult(f, own0, gfs.owner, l, mapping, c, tcount, fcount, g, m);
    assert m.Valid() && Total(freed) + m.blocks == f.bmap.blocks + f.dirty;
  }

  lemma NothingReplaced(f: File)
    requires f.Valid() && f.dirty > 0 && f.bmap.length > 0 && f.first == f.bmap.length
    ensures FreesReplaced(f, [])
  {
    forall b: nat ensures !Replaced(f, b) {
      forall p: nat | Get(f.table, p).Dirty() ensures f.bmap.At(p) < 0 {
        assert f.first <= p;
      }
    }
  }

  /** The dirty pages of a file whose map is a list. */
  method FlushListed(gfs: Gfs, l: nat, f: File, store: map<nat, Page>, ghost own0: map<nat, Owner>, block: nat,
                     rcount: nat)
    returns (m: BlockMap, t: Table, now: map<nat, Page>, freed: seq<Extent>, c: Chunk, ghost written: nat,
             ghost g: Placing)
    requires f.Valid() && f.dirty > 0 && Enough(Room(own0, l), f.dirty) && block > 0 && rcount > 0
    requires BlocksInUse(f.bmap, own0) && f.bmap.length == 0
    requires gfs.Valid() && IsLayer(gfs.Now(), l)
    requires Spaced(own0, gfs.owner, l, map[], map[], Range(block + 0, rcount - 0))
    requires Range(block, rcount) <= gfs.taken
    modifies gfs
    ensures gfs.Valid() && IsLayer(gfs.Now(), l) && gfs.Aside(l) == old(gfs.Aside(l))
    ensures Range(c.block, c.rcount) <= gfs.taken
    ensures Outcome(f, store, false, own0, gfs.owner, l, m, t, now, freed, c, written, g) && m.length == 0
  {
    ghost var tcount, fcount;
    var mapping;
    t, now, mapping, c, tcount, fcount, g := WritePages(gfs, l, f, store, false, own0, block, rcount);
    DenseCount(f);
    AllTaken(f, store, false, now, g.placed, Room(own0, l));
    ghost var next := c.block + c.count;
    if mapping.pcount > 0 {
      mapping, g := EnterRun(f, f.last + 1, mapping, next, tcount, g);
    }
    ListResult(f, mapping, next, tcount, g);
    m, freed, written := BlockMap(mapping.list, 0, 0, mapping.blocks), mapping.freed, tcount;
  }

  // ----- lc_flushPages -----

  /** Two files differ only in the form of their map. */
  ghost predicate SameButForm(f: File, e: File) {
    e == f.(bmap := e.bmap) && e.bmap.blocks == f.bmap.blocks && forall p: nat {:trigger e.bmap.At(p)} ::
      e.bmap.At(p) == f.bmap.At(p)
  }

  lemma StoredSame(f: File, e: File, store: map<nat, Page>, single: bool, i: nat, now: map<nat, Page>,
                   placed: map<nat, nat>, room: set<nat>)
    requires ValidTable(f.table) && SameButForm(f, e) && PagesStored(e, store, single, i, now, placed, room)
    ensures PagesStored(f, store, single, i, now, placed, room)
  {
    forall q: nat ensures PageStored(f, store, single, i, now, placed, room, q) {
      assert PageStored(e, store, single, i, now, placed, room, q);
      if q in placed {
        assert Under(e.bmap, store, q) == Under(f.bmap, store, q);
        forall k: nat | k < 4096 && 4096 * q + k < f.size
          ensures ReadBlock(now, placed[q])[k] == f.ByteAt(store, q, k)
        {
          assert e.ByteAt(store, q, k) == f.ByteAt(store, q, k);
        }
      }
    }
  }

  lemma FreesSame(f: File, e: File, freed: seq<Extent>)
    requires ValidTable(f.table) && SameButForm(f, e) && FreesReplaced(e, freed)
    ensures FreesReplaced(f, freed)
  {
    forall b: nat ensures Replaced(e, b) <==> Replaced(f, b) {
      if Replaced(e, b) {
        var p: nat :| Get(e.table, p).Dirty() && e.bmap.At(p) == b;
        assert f.bmap.At(p) == b;
      }
      if Replaced(f, b) {
        var p: nat :| Get(f.table, p).Dirty() && f.bmap.At(p) == b;
        assert e.bmap.At(p) == b;
      }
    }
  }

  lemma MapSame(f: File, e: File, single: bool, m: BlockMap, placed: map<nat, nat>)
    requires ValidTable(f.table) && SameButForm(f, e) && MapResult(e, single, m, placed)
    ensures MapResult(f, single, m, placed)
  {
    forall p: nat ensures e.bmap.At(p) == f.bmap.At(p) {
    }
  }

  lemma OutcomeSame(f: File, e: File, store: map<nat, Page>, single: bool, own0: map<nat, Owner>, own: map<nat, Owner>,
                    l: nat, m: BlockMap, t: Table, now: map<nat, Page>, freed: seq<Extent>, c: Chunk, written: nat,
                    g: Placing)
    requires ValidTable(f.table) && SameButForm(f, e)
    requires Outcome(e, store, single, own0, own, l, m, t, now, freed, c, written, g)
    ensures Outcome(f, store, single, own0, own, l, m, t, now, freed, c, written, g)
  {
    StoredSame(f, e, store, single, f.last + 1, now, g.placed, Room(own0, l));
    FreesSame(f, e, freed);
    MapSame(f, e, single, m, g.placed);
    var n := f.last + 1;
    forall q: nat ensures PageTaken(f, n, t, q) {
      assert PageTaken(e, n, t, q);
    }
  }

  lemma ExpandedValid(f: File, e: File)
    requires f.Valid() && SameButForm(f, e) && e.bmap.Valid()
    ensures e.Valid()
  {
    forall p: nat | e.bmap.At(p) >= 0 ensures p < e.Covered() {
      assert f.bmap.At(p) >= 0;
    }
  }

  /** The part of `lc_flushPages` that chooses the layout of the file. */
  method FlushDirty(gfs: Gfs, l: nat, f: File, store: map<nat, Page>)
    returns (m: BlockMap, t: Table, now: map<nat, Page>, freed: seq<Extent>, c: Chunk, ghost single: bool,
             ghost written: nat, ghost g: Placing)
    requires f.Valid() && f.dirty > 0 && gfs.Valid() && IsLayer(gfs.Now(), l)
    requires BlocksInUse(f.bmap, gfs.owner) && Enough(Room(gfs.owner, l), f.dirty)
    modifies gfs
    ensures gfs.Valid() && IsLayer(gfs.Now(), l) && gfs.Aside(l) == old(gfs.Aside(l))
    ensures Range(c.block, c.rcount) <= gfs.taken
    ensures Outcome(f, store, single, old(gfs.owner), gfs.owner, l, m, t, now, freed, c, written, g)
    ensures single == (m.length > 0) && Layout(f, Allotted(old(gfs.Now()), l, f.dirty), m)
  {
    ghost var own0, g0 := gfs.owner, gfs.Now();
    var block, rcount := TakeRun(gfs, l, f.dirty);
    LayoutIs(f, g0, l, block, rcount);
    if WholeFile(f, rcount) || Extends(f, block, rcount) {
      m, t, now, freed, c, g := FlushSingle(gfs, l, f, store, own0, block, !WholeFile(f, rcount));
      single, written := true, f.dirty;
    } else {
      var e := f;
      if f.bmap.length > 0 {
        var bmap := ExpandEmap(f.bmap);
        e := f.(bmap := bmap);
        ExpandedValid(f, e);
        assert BlocksInUse(e.bmap, own0) by {
          forall p: nat | e.bmap.At(p) >= 0 ensures e.bmap.At(p) in InUse(own0) {
            assert f.bmap.At(p) >= 0;
          }
        }
      }
      m, t, now, freed, c, written, g := FlushListed(gfs, l, e, store, own0, block, rcount);
      single := false;
      OutcomeSame(f, e, store, single, own0, gfs.owner, l, m, t, now, freed, c, written, g);
    }
  }

  /** The first piece of blocks. */
  method TakeRun(gfs: Gfs, l: nat, want: nat) returns (block: nat, n: nat)
    requires gfs.Valid() && IsLayer(gfs.Now(), l) && want > 0 && Enough(Room(gfs.owner, l), want)
    modifies gfs
    ensures gfs.Valid() && IsLayer(gfs.Now(), l) && gfs.Aside(l) == old(gfs.Aside(l)) && 0 < n <= want && block > 0
    ensures Range(block, n) <= gfs.taken
    ensures Spaced(old(gfs.owner), gfs.owner, l, map[], map[], Range(block + 0, n - 0))
    ensures OnePiece(old(gfs.Now()), l, want, block, n)
  {
    ghost var own0 := gfs.owner;
    ghost var g := Placing(map[], map[], {});
    assert Range(0, 0) == {};
    forall b: nat ensures Fate(own0, own0, l, g.back, Range(0, 0), b) {
    }
    block, n := TakeNext(gfs, l, own0, want, 0, want, 0, g);
  }

  /** `b` is the block a dirty page was written to. */
  ghost predicate NewBlock(f: File, r: File, b: nat)
    requires ValidTable(f.table)
  {
    exists p: nat :: Get(f.table, p).Dirty() && r.bmap.At(p) == b
  }

  /** The blocks now in use: those that were, the new ones, and the `unused` ones from `tail` on. New blocks and unused
      ones are blocks the layer had room in, and belong to the layer. */
  ghost predicate Accounted(f: File, r: File, own0: map<nat, Owner>, own: map<nat, Owner>, l: nat, tail: nat,
                            unused: nat)
    requires ValidTable(f.table)
  {
    forall b: nat {:trigger AccountOf(f, r, own0, own, l, tail, unused, b)} ::
      AccountOf(f, r, own0, own, l, tail, unused, b)
  }

  ghost predicate AccountOf(f: File, r: File, own0: map<nat, Owner>, own: map<nat, Owner>, l: nat, tail: nat,
                            unused: nat, b: nat)
    requires ValidTable(f.table)
  {
    && (b in InUse(own) <==> b in InUse(own0) || b in Range(tail, unused) || NewBlock(f, r, b))
    && (b in InUse(own0) ==> b in own && own[b] == own0[b])
    && (b in Range(tail, unused) || NewBlock(f, r, b) ==> b in Room(own0, l) && b in Owned(own, Alloc(l)))
    && (NewBlock(f, r, b) ==> b !in Range(tail, unused))
  }

  lemma AccountedFor(f: File, single: bool, own0: map<nat, Owner>, own: map<nat, Owner>, l: nat, r: File, g: Placing,
                     tail: nat, unused: nat)
    requires ValidTable(f.table) && MapResult(f, single, r.bmap, g.placed)
    requires Spaced(own0, own, l, g.placed, g.back, Range(tail, unused))
    requires BlocksInUse(f.bmap, own0)
    ensures Accounted(f, r, own0, own, l, tail, unused)
  {
    forall b: nat ensures AccountOf(f, r, own0, own, l, tail, unused, b) {
      NewIsPlaced(f, single, r, g, b);
      assert Fate(own0, own, l, g.back, Range(tail, unused), b);
    }
  }

  /** New blocks are not shared with each other or with pages that stayed. */
  lemma NewInjective(f: File, single: bool, own0: map<nat, Owner>, own: map<nat, Owner>, l: nat, r: BlockMap,
                     g: Placing, tail: set<nat>)
    requires ValidTable(f.table) && MapResult(f, single, r, g.placed) && Spaced(own0, own, l, g.placed, g.back, tail)
    requires BlocksInUse(f.bmap, own0) && Injective(f.bmap)
    ensures Injective(r)
  {
    forall p: nat, q: nat | r.At(p) >= 0 && r.At(p) == r.At(q) ensures p == q {
      OldOrNew(f, single, own0, own, l, r, g, tail, p);
      OldOrNew(f, single, own0, own, l, r, g, tail, q);
    }
  }

  lemma OldOrNew(f: File, single: bool, own0: map<nat, Owner>, own: map<nat, Owner>, l: nat, r: BlockMap, g: Placing,
                 tail: set<nat>, p: nat)
    requires ValidTable(f.table) && MapResult(f, single, r, g.placed) && Spaced(own0, own, l, g.placed, g.back, tail)
    requires BlocksInUse(f.bmap, own0) && r.At(p) >= 0
    ensures if Get(f.table, p).Dirty() then r.At(p) in g.back && g.back[r.At(p)] == p && r.At(p) !in InUse(own0)
            else r.At(p) == f.bmap.At(p) && r.At(p) in InUse(own0)
  {
    if Get(f.table, p).Dirty() {
      assert p in g.placed <==> Writes(f, single, p);
      assert g.placed[p] in g.back;
      assert Fate(own0, own, l, g.back, tail, g.placed[p]);
    } else {
      assert f.bmap.At(p) in InUse(own0);
    }
  }

  // ----- No block is handed back twice -----

  lemma {:induction false} SameSize(placed: map<nat, nat>, back: map<nat, nat>, s: set<nat>)
    requires Inverse(placed, back) && s <= placed.Keys
    ensures |s| == |Image(placed, s)|
    decreases s
  {
    if s == {} {
      assert Image(placed, s) == {};
    } else {
      var p :| p in s;
      SameSize(placed, back, s - {p});
      assert Image(placed, s) == Image(placed, s - {p}) + {placed[p]};
      forall q | q in s - {p} ensures placed[q] != placed[p] {
        assert back[placed[q]] == q && back[placed[p]] == p;
      }
      assert placed[p] !in Image(placed, s - {p});
    }
  }

  ghost function Image(m: map<nat, nat>, s: set<nat>): set<nat>
    requires s <= m.Keys
  {
    set p | p in s :: m[p]
  }

  lemma PlacedSize(placed: map<nat, nat>, back: map<nat, nat>)
    requires Inverse(placed, back)
    ensures |placed.Keys| == |back.Keys|
  {
    SameSize(placed, back, placed.Keys);
    assert Image(placed, placed.Keys) == back.Keys by {
      forall b | b in back.Keys ensures b in Image(placed, placed.Keys) {
        assert placed[back[b]] == b;
      }
    }
  }

  /** The mapped pages that are dirty. */
  ghost function Rewritten(f: File): set<nat>
    requires ValidTable(f.table)
  {
    set p | p in Mapped(f.bmap) && Get(f.table, p).Dirty()
  }

  lemma {:induction false} AsManyBlocks(f: File, s: set<nat>, blocks: set<nat>)
    requires ValidTable(f.table) && Injective(f.bmap)
    requires forall p: nat {:trigger p in s} :: p in s ==> f.bmap.At(p) >= 0 && f.bmap.At(p) in blocks
    ensures |s| <= |blocks|
    decreases s
  {
    if s != {} {
      var p :| p in s;
      var b: nat := f.bmap.At(p);
      forall q: nat | q in s - {p} ensures f.bmap.At(q) >= 0 && f.bmap.At(q) in blocks - {b} {
        assert q in s && f.bmap.At(q) != f.bmap.At(p);
      }
      AsManyBlocks(f, s - {p}, blocks - {b});
    }
  }

  /** The pages mapped after a flush. */
  lemma MappedAfter(f: File, single: bool, r: BlockMap, placed: map<nat, nat>)
    requires f.Valid() && r.Valid() && MapResult(f, single, r, placed)
    ensures Mapped(r) == (Mapped(f.bmap) - Rewritten(f)) + placed.Keys && (Mapped(f.bmap) - Rewritten(f)) !! placed.Keys
  {
    MappedIs(f.bmap);
    MappedIs(r);
    forall p: nat ensures p in Mapped(r) <==> p in (Mapped(f.bmap) - Rewritten(f)) + placed.Keys {
      assert p in placed <==> Writes(f, single, p);
      assert p in Mapped(r) <==> r.At(p) >= 0;
      assert p in Mapped(f.bmap) <==> f.bmap.At(p) >= 0;
    }
  }

  lemma FreedApart(f: File, single: bool, r: BlockMap, freed: seq<Extent>, written: nat, g: Placing)
    requires f.Valid() && r.Valid() && MapResult(f, single, r, g.placed) && FreesReplaced(f, freed) && Injective(f.bmap)
    requires Total(freed) + r.blocks == f.bmap.blocks + written && Exactly(g.back.Keys, written)
    requires Inverse(g.placed, g.back)
    ensures Apart(freed)
  {
    ExactlyIs(g.back.Keys, written);
    PlacedSize(g.placed, g.back);
    MappedIs(f.bmap);
    MappedIs(r);
    MappedAfter(f, single, r, g.placed);
    var e := Rewritten(f);
    assert |Mapped(f.bmap) - e| == |Mapped(f.bmap)| - |e|;
    forall p: nat | p in e ensures f.bmap.At(p) >= 0 && f.bmap.At(p) in Keys(freed) {
      assert p in Mapped(f.bmap) && Replaced(f, f.bmap.At(p));
    }
    AsManyBlocks(f, e, Keys(freed));
    KeysSize(freed);
    ApartIs(freed);
  }

  lemma NewIsPlaced(f: File, single: bool, r: File, g: Placing, b: nat)
    requires ValidTable(f.table) && MapResult(f, single, r.bmap, g.placed) && Inverse(g.placed, g.back)
    ensures NewBlock(f, r, b) <==> b in g.back
  {
    if NewBlock(f, r, b) {
      var p: nat :| Get(f.table, p).Dirty() && r.bmap.At(p) == b;
      assert p in g.placed && g.placed[p] == b;
    }
    if b in g.back {
      var p := g.back[b];
      assert p in g.placed && g.placed[p] == b && r.bmap.At(p) == b;
    }
  }

  /** `lc_flushPages` up to the point where blocks are handed back: `freed` are the blocks that were replaced, and
      the `unused` blocks from `tail` on were allocated and not needed. */
  method FlushPages(gfs: Gfs, l: nat, f: File, store: map<nat, Page>, release: bool)
    returns (r: File, now: map<nat, Page>, freed: seq<Extent>, tail: nat, unused: nat)
    requires f.Valid() && gfs.Valid() && IsLayer(gfs.Now(), l)
    requires BlocksInUse(f.bmap, gfs.owner) && f.dirty <= |Room(gfs.owner, l)|
    modifies gfs
    ensures gfs.Valid() && IsLayer(gfs.Now(), l) && gfs.Aside(l) == old(gfs.Aside(l))
    ensures Range(tail, unused) <= gfs.taken
    ensures r.Valid() && r.size == f.size && r.dirty == 0
    ensures SameData(f, store, r, now)
    ensures forall p: nat {:trigger r.bmap.At(p)} :: !Get(f.table, p).Dirty() ==> r.bmap.At(p) == f.bmap.At(p)
    ensures FreesReplaced(f, freed)
    ensures Accounted(f, r, old(gfs.owner), gfs.owner, l, tail, unused)
    ensures Injective(f.bmap) ==> Injective(r.bmap) && Apart(freed)
    ensures f.dirty > 0 ==> Layout(f, Allotted(old(gfs.Now()), l, f.dirty), r.bmap)
    ensures Holes(f, r.bmap)
    ensures forall b: nat {:trigger ReadBlock(now, b)} :: b !in old(Room(gfs.owner, l)) ==>
              ReadBlock(now, b) == ReadBlock(store, b)
  {
    r, now, freed, tail, unused := FlushAny(gfs, l, f, store, release);
  }

  method FlushAny(gfs: Gfs, l: nat, f: File, store: map<nat, Page>, release: bool)
    returns (r: File, now: map<nat, Page>, freed: seq<Extent>, tail: nat, unused: nat)
    requires f.Valid() && gfs.Valid() && IsLayer(gfs.Now(), l)
    requires BlocksInUse(f.bmap, gfs.owner) && f.dirty <= |Room(gfs.owner, l)|
    modifies gfs
    ensures gfs.Valid() && IsLayer(gfs.Now(), l) && gfs.Aside(l) == old(gfs.Aside(l))
    ensures Range(tail, unused) <= gfs.taken
    ensures Flushes(f, store, old(gfs.owner), gfs.owner, l, Allotted(old(gfs.Now()), l, f.dirty), r, now, freed, tail,
                    unused)
  {
    if f.dirty == 0 {
      now, freed, tail, unused := store, [], 0, 0;
      r := Clean(f, f.bmap, f.table, release);
      NothingDirty(f, store, release, gfs.owner, l, Allotted(gfs.Now(), l, f.dirty));
    } else {
      EnoughIs(Room(gfs.owner, l), f.dirty);
      r, now, freed, tail, unused := FlushSome(gfs, l, f, store, release);
    }
  }

  method FlushSome(gfs: Gfs, l: nat, f: File, store: map<nat, Page>, release: bool)
    returns (r: File, now: map<nat, Page>, freed: seq<Extent>, tail: nat, unused: nat)
    requires f.Valid() && f.dirty > 0 && gfs.Valid() && IsLayer(gfs.Now(), l)
    requires BlocksInUse(f.bmap, gfs.owner) && Enough(Room(gfs.owner, l), f.dirty)
    modifies gfs
    ensures gfs.Valid() && IsLayer(gfs.Now(), l) && gfs.Aside(l) == old(gfs.Aside(l))
    ensures Range(tail, unused) <= gfs.taken
    ensures Flushes(f, store, old(gfs.owner), gfs.owner, l, Allotted(old(gfs.Now()), l, f.dirty), r, now, freed, tail,
                    unused)
  {
    ghost var own0, b := gfs.owner, Allotted(gfs.Now(), l, f.dirty);
    var m, t, c;
    ghost var single, written, g;
    m, t, now, freed, c, single, written, g := FlushDirty(gfs, l, f, store);
    r, tail, unused := Clean(f, m, t, release), c.block + c.count, c.rcount - c.count;
    AllFlushed(f, store, single, own0, gfs.owner, l, b, m, t, now, freed, c, written, g, release);
  }

  /** What a flush has done, once the inode is updated. */
  ghost predicate Flushes(f: File, store: map<nat, Page>, own0: map<nat, Owner>, own: map<nat, Owner>, l: nat, b: nat,
                          r: File, now: map<nat, Page>, freed: seq<Extent>, tail: nat, unused: nat)
    requires ValidTable(f.table)
  {
    && r.Valid() && r.size == f.size && r.dirty == 0 && SameData(f, store, r, now)
    && (forall p: nat {:trigger r.bmap.At(p)} :: !Get(f.table, p).Dirty() ==> r.bmap.At(p) == f.bmap.At(p))
    && FreesReplaced(f, freed) && Accounted(f, r, own0, own, l, tail, unused)
    && (Injective(f.bmap) ==> Injective(r.bmap) && Apart(freed))
    && (f.dirty > 0 ==> Layout(f, b, r.bmap)) && Holes(f, r.bmap)
    && (forall b: nat {:trigger ReadBlock(now, b)} :: b !in Room(own0, l) ==> ReadBlock(now, b) == ReadBlock(store, b))
  }

  lemma AllFlushed(f: File, store: map<nat, Page>, single: bool, own0: map<nat, Owner>, own: map<nat, Owner>, l: nat,
                   b: nat, m: BlockMap, t: Table, now: map<nat, Page>, freed: seq<Extent>, c: Chunk, written: nat,
                   g: Placing, release: bool)
    requires f.Valid() && f.dirty > 0 && BlocksInUse(f.bmap, own0) && single == (m.length > 0) && Layout(f, b, m)
    requires Outcome(f, store, single, own0, own, l, m, t, now, freed, c, written, g)
    ensures c.count <= c.rcount && Range(c.block + c.count, c.rcount - c.count) <= Range(c.block, c.rcount)
    ensures Flushes(f, store, own0, own, l, b, Clean(f, m, t, release), now, freed, c.block + c.count,
                    c.rcount - c.count)
  {
    var r, tail, unused := Clean(f, m, t, release), c.block + c.count, c.rcount - c.count;
    CleanValid(f, single, m, t, release, g.placed);
    SameContents(f, store, single, own0, l, now, g.placed, r);
    AccountedFor(f, single, own0, own, l, r, g, tail, unused);
    HolesAre(f, single, m, g.placed);
    if Injective(f.bmap) {
      StillInjective(f, store, single, own0, own, l, m, t, now, freed, c, written, g);
    }
  }

  lemma StillInjective(f: File, store: map<nat, Page>, single: bool, own0: map<nat, Owner>, own: map<nat, Owner>,
                       l: nat, m: BlockMap, t: Table, now: map<nat, Page>, freed: seq<Extent>, c: Chunk, written: nat,
                       g: Placing)
    requires f.Valid() && BlocksInUse(f.bmap, own0) && Injective(f.bmap)
    requires Outcome(f, store, single, own0, own, l, m, t, now, freed, c, written, g)
    ensures Injective(m) && Apart(freed)
  {
    NewInjective(f, single, own0, own, l, m, g, Range(c.block + c.count, c.rcount - c.count));
    FreedApart(f, single, m, freed, written, g);
  }

  lemma HolesAre(f: File, single: bool, m: BlockMap, placed: map<nat, nat>)
    requires ValidTable(f.table) && MapResult(f, single, m, placed) && single == (m.length > 0)
    ensures Holes(f, m)
  {
  }

  lemma NothingDirty(f: File, store: map<nat, Page>, release: bool, own: map<nat, Owner>, l: nat, b: nat)
    requires f.Valid() && f.dirty == 0
    ensures Flushes(f, store, own, own, l, b, Clean(f, f.bmap, f.table, release), store, [], 0, 0)
  {
    CountNone(f.table, PageCount(f.size));
    var r := Clean(f, f.bmap, f.table, release);
    forall q: nat ensures !Get(f.table, q).Dirty() && !Get(r.table, q).Dirty() {
      assert Get(f.table, q).Fits(q, f.size);
    }
    CountNone(r.table, PageCount(f.size));
  }

  // ----- Handing blocks back -----

  /** `lc_freeInodeDataBlocks`: the blocks are put aside. The root layer, which keeps no list of its blocks, frees
      blocks of its own, and each once. */
  method FreeInodeDataBlocks(gfs: Gfs, l: nat, list: seq<Extent>)
    requires gfs.Valid() && IsLayer(gfs.Now(), l) && Loose(list)
    requires (l == ROOT ==> Apart(list) && OfRoot(gfs, Keys(list)))
    modifies gfs
    ensures gfs.Valid() && IsLayer(gfs.Now(), l) && gfs.View() == old(gfs.View())
    ensures gfs.Aside(l) == old(gfs.Aside(l)).(fextents := gfs.Aside(l).fextents)
    ensures Keys(gfs.Aside(l).fextents) == old(Keys(gfs.Aside(l).fextents)) + Keys(list)
  {
    LooseIs(list);
    assert list[..0] == [] && list[0..] == list;
    var i := 0;
    while i < |list|
      invariant i <= |list| && gfs.Valid() && IsLayer(gfs.Now(), l) && gfs.View() == old(gfs.View())
      invariant gfs.Aside(l) == old(gfs.Aside(l)).(fextents := gfs.Aside(l).fextents)
      invariant Keys(gfs.Aside(l).fextents) == old(Keys(gfs.Aside(l).fextents)) + Keys(list[..i])
      invariant l == ROOT ==> Apart(list[i..]) && OfRoot(gfs, Keys(list[i..]))
    {
      PutAsideNext(list, i);
      gfs.AddFreedBlocks(l, list[i].start, list[i].count);
      i := i + 1;
    }
    assert list[..i] == list;
  }

  lemma PutAsideNext(list: seq<Extent>, i: nat)
    requires i < |list|
    ensures Keys(list[..i + 1]) == Keys(list[..i]) + Range(list[i].start, list[i].count)
    ensures Keys(list[i..]) == Range(list[i].start, list[i].count) + Keys(list[i + 1..])
    ensures Apart(list[i..]) ==> Apart(list[i + 1..]) && Range(list[i].start, list[i].count) !! Keys(list[i + 1..])
  {
    assert list[..i + 1] == list[..i] + [list[i]] && list[i..][1..] == list[i + 1..];
    KeysConcat(list[..i], [list[i]]);
    One(list[i]);
  }

  /** Blocks of the root layer that are not put aside and not part of the free map. */
  ghost predicate OfRoot(gfs: Gfs, blocks: set<nat>)
    reads gfs
  {
    && IsLayer(gfs.Now(), ROOT) && blocks <= Owned(gfs.owner, Alloc(ROOT))
    && blocks !! Range(gfs.mapBlock, gfs.mapCount) && blocks !! Keys(gfs.Aside(ROOT).fextents)
  }

  /** Giving back what a layer allocated takes it out of use. */
  lemma FreeTakesOut(s: State, l: nat, r: set<nat>)
    requires Enabled(s, FreeOwned(l, r)) && r <= Owned(s.owner, Alloc(l))
    ensures InUse(Apply(s, FreeOwned(l, r)).owner) == InUse(s.owner) - r
    ensures StillOwned(Apply(s, FreeOwned(l, r)).owner, s.owner)
  {
  }

  lemma ReuseTakesOut(s: State, block: nat, n: nat)
    requires Enabled(s, Reuse(block, n))
    ensures InUse(Apply(s, Reuse(block, n)).owner) == InUse(s.owner) - Range(block, n)
    ensures StillOwned(Apply(s, Reuse(block, n)).owner, s.owner)
  {
  }

  lemma RootLists(g: Lists, owner: map<nat, Owner>)
    requires Agree(g, owner, |g.layers|)
    ensures IsLayer(g, ROOT) && Keys(g.layers[ROOT].value.fextents) <= Owned(owner, Alloc(ROOT))
    ensures Range(g.mapBlock, g.mapCount) <= Owned(owner, Alloc(ROOT))
  {
    AgreeIs(g, owner, |g.layers|);
  }

  /** The blocks of the file belong to layer `l`, and none of them is one of `not_`. */
  ghost predicate Owns(m: BlockMap, own: map<nat, Owner>, l: nat, not_: set<nat>) {
    forall p: nat {:trigger m.At(p)} :: m.At(p) >= 0 ==> m.At(p) in Owned(own, Alloc(l)) && m.At(p) !in not_
  }

  /** The blocks of the file are in use and none is shared by two pages or put aside. */
  ghost predicate NotAside(m: BlockMap, own: map<nat, Owner>, aside: set<nat>) {
    Injective(m) && forall p: nat {:trigger m.At(p)} :: m.At(p) >= 0 ==> m.At(p) in InUse(own) && m.At(p) !in aside
  }

  /** The blocks put aside by a flush. */
  ghost predicate PutsAside(f: File, was: set<nat>, now: set<nat>)
    requires ValidTable(f.table)
  {
    forall b: nat {:trigger b in now} :: b in now <==> b in was || Replaced(f, b)
  }

  /** The unused blocks go back: the root layer keeps them in reserve, another layer has to wait for a checkpoint. */
  method ReturnTail(gfs: Gfs, l: nat, tail: nat, unused: nat)
    requires gfs.Valid() && IsLayer(gfs.Now(), l) && Range(tail, unused) <= Owned(gfs.owner, Alloc(l))
    requires l == ROOT ==> OfRoot(gfs, Range(tail, unused)) && Range(tail, unused) <= gfs.taken
    modifies gfs
    ensures gfs.Valid() && IsLayer(gfs.Now(), l) && gfs.Aside(l) == old(gfs.Aside(l))
    ensures InUse(gfs.owner) == old(InUse(gfs.owner)) - Range(tail, unused)
    ensures StillOwned(gfs.owner, old(gfs.owner))
  {
    ghost var s := gfs.View();
    if unused == 0 {
      assert Range(tail, unused) == {};
    } else if l == ROOT {
      gfs.ReuseBlocks(tail, unused);
      ReuseTakesOut(s, tail, unused);
    } else {
      gfs.BlockFree(l, tail, unused);
      FreeTakesOut(s, l, Range(tail, unused));
    }
  }

  /** `lc_flushPages`. Of the blocks the allocator gave out, those with pages are in use and no others; the blocks the
      pages had are put aside for the layer to free at its next sync, and nothing else is. Blocks of the root layer are
      its own and not put aside already. */
  method FlushFile(gfs: Gfs, l: nat, f: File, store: map<nat, Page>, release: bool)
      returns (r: File, now: map<nat, Page>)
    requires f.Valid() && gfs.Valid() && IsLayer(gfs.Now(), l)
    requires BlocksInUse(f.bmap, gfs.owner) && f.dirty <= |Room(gfs.owner, l)|
    requires l == ROOT ==> && NotAside(f.bmap, gfs.owner, Keys(gfs.Aside(l).fextents))
                           && Owns(f.bmap, gfs.owner, ROOT, Range(gfs.mapBlock, gfs.mapCount))
    modifies gfs
    ensures gfs.Valid() && IsLayer(gfs.Now(), l)
    ensures gfs.Aside(l) == old(gfs.Aside(l)).(fextents := gfs.Aside(l).fextents)
    ensures r.Valid() && r.size == f.size && r.dirty == 0 && SameData(f, store, r, now)
    ensures forall p: nat {:trigger r.bmap.At(p)} :: !Get(f.table, p).Dirty() ==> r.bmap.At(p) == f.bmap.At(p)
    ensures Accounted(f, r, old(gfs.owner), gfs.owner, l, 0, 0) && BlocksInUse(r.bmap, gfs.owner)
    ensures PutsAside(f, old(Keys(gfs.Aside(l).fextents)), Keys(gfs.Aside(l).fextents))
    ensures Injective(f.bmap) ==> Injective(r.bmap)
    ensures f.dirty > 0 ==> Layout(f, Allotted(old(gfs.Now()), l, f.dirty), r.bmap)
    ensures Holes(f, r.bmap)
    ensures forall b: nat {:trigger ReadBlock(now, b)} :: b in old(InUse(gfs.owner)) ==>
              ReadBlock(now, b) == ReadBlock(store, b)
  {
    var freed, tail, unused;
    ghost var own0, aside := gfs.owner, Keys(gfs.Aside(l).fextents);
    RootLists(gfs.Now(), gfs.owner);
    r, now, freed, tail, unused := FlushPages(gfs, l, f, store, release);
    ghost var own1 := gfs.owner;
    if l == ROOT {
      RootFrees(f, r, own0, own1, tail, unused, Keys(freed), aside, Range(gfs.mapBlock, gfs.mapCount));
    }
    TailOwned(f, r, own0, own1, l, tail, unused);
    FreeInodeDataBlocks(gfs, l, freed);
    ReturnTail(gfs, l, tail, unused);
    SettleAccount(f, r, own0, own1, gfs.owner, l, tail, unused);
  }

  lemma TailOwned(f: File, r: File, own0: map<nat, Owner>, own: map<nat, Owner>, l: nat, tail: nat, unused: nat)
    requires ValidTable(f.table) && Accounted(f, r, own0, own, l, tail, unused)
    ensures Range(tail, unused) <= Owned(own, Alloc(l))
  {
    forall b | b in Range(tail, unused) ensures b in Owned(own, Alloc(l)) {
      assert AccountOf(f, r, own0, own, l, tail, unused, b);
    }
  }

  /** What a flush in the root layer hands back is its own, and neither put aside already nor part of the free map. */
  lemma RootFrees(f: File, r: File, own0: map<nat, Owner>, own: map<nat, Owner>, tail: nat, unused: nat,
                  freed: set<nat>, aside: set<nat>, fmap: set<nat>)
    requires ValidTable(f.table) && Accounted(f, r, own0, own, ROOT, tail, unused)
    requires forall b: nat {:trigger b in freed} :: b in freed <==> Replaced(f, b)
    requires NotAside(f.bmap, own0, aside) && Owns(f.bmap, own0, ROOT, fmap)
    requires aside <= Owned(own0, Alloc(ROOT)) && fmap <= Owned(own0, Alloc(ROOT))
    ensures freed <= Owned(own, Alloc(ROOT)) && freed !! aside && freed !! fmap
    ensures Range(tail, unused) !! freed + aside && Range(tail, unused) !! fmap
  {
    forall b | b in freed
      ensures b in Owned(own0, Alloc(ROOT)) && b in Owned(own, Alloc(ROOT)) && b !in aside && b !in fmap
    {
      var p: nat :| Get(f.table, p).Dirty() && f.bmap.At(p) == b;
      assert AccountOf(f, r, own0, own, ROOT, tail, unused, b);
    }
    forall b | b in Range(tail, unused) ensures b !in Owned(own0, Alloc(ROOT)) {
      assert AccountOf(f, r, own0, own, ROOT, tail, unused, b);
      assert b in Room(own0, ROOT);
    }
  }

  lemma SettleAccount(f: File, r: File, own0: map<nat, Owner>, own: map<nat, Owner>, now: map<nat, Owner>, l: nat,
                      tail: nat, unused: nat)
    requires ValidTable(f.table) && Accounted(f, r, own0, own, l, tail, unused) && BlocksInUse(f.bmap, own0)
    requires forall p: nat {:trigger r.bmap.At(p)} :: !Get(f.table, p).Dirty() ==> r.bmap.At(p) == f.bmap.At(p)
    requires InUse(now) == InUse(own) - Range(tail, unused)
    requires StillOwned(now, own)
    ensures Accounted(f, r, own0, now, l, 0, 0) && BlocksInUse(r.bmap, now)
  {
    forall b: nat ensures AccountOf(f, r, own0, now, l, 0, 0, b) {
      assert AccountOf(f, r, own0, own, l, tail, unused, b);
      assert b in Room(own0, l) ==> b !in InUse(own0);
    }
    forall p: nat | r.bmap.At(p) >= 0 ensures r.bmap.At(p) in InUse(now) {
      ghost var b: nat := r.bmap.At(p);
      assert AccountOf(f, r, own0, now, l, 0, 0, b);
      if Get(f.table, p).Dirty() {
        assert NewBlock(f, r, b);
      } else {
        assert f.bmap.At(p) in InUse(own0);
      }
    }
  }

  /** After a flush the file is as clear of what is put aside as before. */
  lemma StaysNotAside(f: File, r: File, own0: map<nat, Owner>, own: map<nat, Owner>, l: nat, was: set<nat>,
                      now: set<nat>)
    requires ValidTable(f.table) && Accounted(f, r, own0, own, l, 0, 0) && PutsAside(f, was, now)
    requires forall p: nat {:trigger r.bmap.At(p)} :: !Get(f.table, p).Dirty() ==> r.bmap.At(p) == f.bmap.At(p)
    requires NotAside(f.bmap, own0, was) && was <= InUse(own0) && Injective(r.bmap)
    ensures NotAside(r.bmap, own, now) && now <= InUse(own)
  {
    forall b | b in now ensures b in InUse(own0) && b in InUse(own) {
      if Replaced(f, b) {
        var p: nat :| Get(f.table, p).Dirty() && f.bmap.At(p) == b;
      }
      assert AccountOf(f, r, own0, own, l, 0, 0, b);
    }
    forall p: nat | r.bmap.At(p) >= 0 ensures r.bmap.At(p) in InUse(own) && r.bmap.At(p) !in now {
      ghost var b: nat := r.bmap.At(p);
      assert AccountOf(f, r, own0, own, l, 0, 0, b);
      if Get(f.table, p).Dirty() {
        assert NewBlock(f, r, b);
        assert b in Room(own0, l) && b !in InUse(own0);
      } else {
        assert f.bmap.At(p) == b;
        forall q: nat | Get(f.table, q).Dirty() ensures f.bmap.At(q) != b {
        }
      }
    }
  }
}
