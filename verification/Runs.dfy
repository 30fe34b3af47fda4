/**
  * What a run of operations on a file comes to, in terms of the file and the operations alone: which operations are
  * sure to be carried out, and what the bytes are afterwards.
  */
module Runs {
  import opened Extents
  import opened Emap
  import opened Pages
  import opened Inodes
  import opened Checkpoint
  import opened Blocks
  import opened Rooms
  import opened Flush
  import opened Truncations
  import opened Growth
  import opened Clones

  /** Byte `k` of page `q` is one of those a write puts into the file. */
  predicate Covered(pieces: seq<Piece>, page: nat, q: nat, k: nat) {
    && page <= q < page + |pieces|
    && pieces[q - page].poffset <= k < pieces[q - page].poffset + pieces[q - page].psize
  }

  /** Nothing about the file or the device stands in the way of the operation: a write does not start past the end of a
      file whose last page is dirty, a flush has room, a truncation to a smaller size is of a small file and not into
      zeros that are still to be written, one to a larger size is of a file with no dirty pages that shares nothing, and
      for a checkpoint some extent can hold the free map. */
  ghost predicate Plain(op: Op, m: Moment, l: nat)
    requires ValidTable(m.file.table)
  {
    match op
    case Write(page, pieces) =>
      && pieces != []
      && (4096 * page + pieces[0].poffset <= m.file.size || !Get(m.file.table, m.file.size / 4096).Dirty())
    case Flush(release) => m.file.dirty <= |Owned(m.state.owner, Free) + Owned(m.state.owner, Reserve(l))|
    case Truncate(to, junk) =>
      if to < m.file.size
      then
        && m.file.table.Array? && m.file.size <= 1024 * 4096
        && (to % 4096 != 0 ==> !Get(m.file.table, to / 4096).data.ZeroPage?)
      else !m.shared && m.file.dirty == 0
    case Sync => true
    case Checkpoint =>
      && |m.lists.extents| + |m.lists.fextents| > 0
      && exists e :: e in m.lists.extents && 255 * e.count >= |m.lists.extents| + |m.lists.fextents|
  }

  // ----- When operations are carried out -----

  /** A write, unless it starts past the end of the file and the page in which the file ends has a block, is dirty, and
      has a byte other than zero between its dirty part and the end of the file. */
  lemma WriteDone(ops: seq<Op>, did: seq<bool>, at: seq<Moment>, l: nat, i: nat)
    requires Path(ops, did, at, l) && i < |ops| && ops[i].Write?
    ensures at[i].file.Valid() && ops[i].pieces != []
    ensures var f, q := at[i].file, at[i].file.size / 4096;
            var d := Get(f.table, q);
            did[i] <==> !(&& 4096 * ops[i].page + ops[i].pieces[0].poffset > f.size && f.bmap.At(q) >= 0 && d.Dirty()
                          && exists k: nat :: d.poffset + d.psize <= k < f.size % 4096
                                              && ReadBlock(at[i].store, f.bmap.At(q))[k] != 0)
  {
    assert PathAt(ops, did, at, l, i);
    LosesIs(at[i].file, at[i].store);
  }

  lemma LosesIs(f: File, store: map<nat, Page>)
    requires f.Valid()
    ensures var q := f.size / 4096; var d := Get(f.table, q);
            Loses(f, store) <==>
            && f.bmap.At(q) >= 0 && d.Dirty()
            && exists k: nat :: d.poffset + d.psize <= k < f.size % 4096 && ReadBlock(store, f.bmap.At(q))[k] != 0
  {
    var q := f.size / 4096;
    var d := Get(f.table, q);
    MapAt(f.bmap, q);
    if f.bmap.At(q) >= 0 {
      forall k: nat | k < 4096 ensures Under(f.bmap, store, q)[k] == ReadBlock(store, f.bmap.At(q))[k] {
      }
    }
  }

  /** A block map has a block or a hole for each page. */
  lemma MapAt(m: BlockMap, p: nat)
    requires m.Valid()
    ensures m.At(p) >= 0 || m.At(p) == HOLE
  {
    LookupHole(m.list, p);
  }

  /** A flush, if there are enough blocks. */
  lemma FlushDone(ops: seq<Op>, did: seq<bool>, at: seq<Moment>, l: nat, i: nat)
    requires Path(ops, did, at, l) && i < |ops| && ops[i].Flush?
    ensures did[i] <==> at[i].file.dirty <= |Owned(at[i].state.owner, Free) + Owned(at[i].state.owner, Reserve(l))|
  {
    assert PathAt(ops, did, at, l, i);
  }

  /** A truncation to a smaller size, unless the pages are in a hash table and one is or becomes dirty, or the new end
      is in a dirty page of zeros. */
  lemma TruncateDone(ops: seq<Op>, did: seq<bool>, at: seq<Moment>, l: nat, i: nat)
    requires Path(ops, did, at, l) && i < |ops| && ops[i].Truncate? && ops[i].to < at[i].file.size
    ensures at[i].file.Valid()
    ensures var f, to := at[i].file, ops[i].to;
            did[i] <==>
            && !(&& to > 0 && (f.table.Hashed? || (to % 4096 != 0 && f.size > 1024 * 4096))
                 && ((to % 4096 != 0 && f.bmap.At(to / 4096) >= 0)
                     || exists p: nat :: 4096 * p < to && Get(f.table, p).Dirty()))
            && !(to % 4096 != 0 && Get(f.table, to / 4096).data.ZeroPage?)
  {
    assert PathAt(ops, did, at, l, i);
    var f, to := at[i].file, ops[i].to;
    MapAt(f.bmap, to / 4096);
    CountNone(f.table, PageCount(to));
    forall p: nat ensures 4096 * p < to <==> p < PageCount(to) {
      PageCountIs(to);
    }
  }

  /** A truncation to a larger size, unless extents are shared or the page in which the file ends has a block, is dirty
      but not to its end, and has a byte other than zero past the end of the file. */
  lemma ExtendDone(ops: seq<Op>, did: seq<bool>, at: seq<Moment>, l: nat, i: nat)
    requires Path(ops, did, at, l) && i < |ops| && ops[i].Truncate? && ops[i].to >= at[i].file.size
    ensures at[i].file.Valid()
    ensures var f, q := at[i].file, at[i].file.size / 4096;
            var d := Get(f.table, q);
            did[i] <==>
            && !at[i].shared
            && !(&& f.bmap.At(q) >= 0 && d.Dirty() && d.poffset + d.psize < 4096
                 && exists k: nat :: f.size % 4096 <= k < 4096 && 4096 * q + k < ops[i].to
                                     && ReadBlock(at[i].store, f.bmap.At(q))[k] != 0)
  {
    assert PathAt(ops, did, at, l, i);
    ReappearsIs(at[i].file, at[i].store, ops[i].to);
  }

  lemma ReappearsIs(f: File, store: map<nat, Page>, to: nat)
    requires f.Valid()
    ensures var q := f.size / 4096; var d := Get(f.table, q);
            Reappears(f, store, to) <==>
            && f.bmap.At(q) >= 0 && d.Dirty() && d.poffset + d.psize < 4096
            && exists k: nat :: f.size % 4096 <= k < 4096 && 4096 * q + k < to
                                && ReadBlock(store, f.bmap.At(q))[k] != 0
  {
    var q := f.size / 4096;
    MapAt(f.bmap, q);
    PageCountIs(f.size);
    if f.bmap.At(q) >= 0 {
      assert f.size % 4096 != 0;
      forall k: nat | k < 4096 ensures Under(f.bmap, store, q)[k] == ReadBlock(store, f.bmap.At(q))[k] {
      }
    }
  }

  /** A checkpoint, if some extent can hold the free map. */
  lemma CheckpointDone(ops: seq<Op>, did: seq<bool>, at: seq<Moment>, l: nat, i: nat)
    requires Path(ops, did, at, l) && i < |ops| && ops[i].Checkpoint?
    ensures var g := at[i].lists;
            did[i] <==> && |g.extents| + |g.fextents| > 0
                        && exists e :: e in g.extents && 255 * e.count >= |g.extents| + |g.fextents|
  {
    assert PathAt(ops, did, at, l, i);
    var g := at[i].lists;
    forall e | e in g.extents ensures e.count >= MapNeed(g) <==> 255 * e.count >= |g.extents| + |g.fextents| {
    }
  }

  /** An operation that is not carried out leaves everything as it is. */
  lemma NotDone(ops: seq<Op>, did: seq<bool>, at: seq<Moment>, l: nat, i: nat)
    requires Path(ops, did, at, l) && i < |ops| && !did[i]
    ensures at[i + 1] == at[i]
  {
    assert PathAt(ops, did, at, l, i);
  }

  /** A plain operation is carried out. */
  lemma PlainIsDone(ops: seq<Op>, did: seq<bool>, at: seq<Moment>, l: nat, i: nat)
    requires Path(ops, did, at, l) && i < |ops| && ValidTable(at[i].file.table) && Plain(ops[i], at[i], l)
    ensures did[i] && at[i].file.Valid() && at[i + 1].file.Valid()
  {
    assert PathAt(ops, did, at, l, i);
    var m := at[i];
    match ops[i]
    case Write(page, pieces) => WriteDone(ops, did, at, l, i);
    case Flush(release) => FlushDone(ops, did, at, l, i);
    case Truncate(to, junk) =>
      if to < m.file.size {
        TruncateDone(ops, did, at, l, i);
      } else {
        ExtendDone(ops, did, at, l, i);
        BelowSize(m.file);
        NoneLeft(m.file.table, m.file.dirty, PageCount(m.file.size), m.file.size / 4096);
      }
    case Sync =>
    case Checkpoint => CheckpointDone(ops, did, at, l, i);
  }

  // ----- What they do -----

  /** A write: its bytes show, and all others stay; what it adds before its start is zero. */
  lemma WriteLaw(ops: seq<Op>, did: seq<bool>, at: seq<Moment>, l: nat, i: nat, q: nat, k: nat)
    requires Path(ops, did, at, l) && i < |ops| && ops[i].Write? && k < 4096 && did[i]
    ensures at[i].file.Valid() && at[i + 1].file.Valid() && ops[i].pieces != []
    ensures var f, r, p, n := at[i].file, at[i + 1].file, ops[i].pieces, |ops[i].pieces| - 1;
            var end := 4096 * (ops[i].page + n) + p[n].poffset + p[n].psize;
            && r.size == (if end > f.size then end else f.size)
            && (Covered(p, ops[i].page, q, k) ==>
                  4096 * q + k < r.size && r.ByteAt(at[i + 1].store, q, k) == p[q - ops[i].page].bytes[k])
            && (!Covered(p, ops[i].page, q, k) && 4096 * q + k < r.size ==>
                  r.ByteAt(at[i + 1].store, q, k) ==
                  if 4096 * q + k < f.size then f.ByteAt(at[i].store, q, k) else 0)
  {
    assert PathAt(ops, did, at, l, i);
    Covers(ops[i].page, ops[i].pieces, q, k);
  }

  /** A flush: the bytes stay, and no page is dirty. */
  lemma FlushLaw(ops: seq<Op>, did: seq<bool>, at: seq<Moment>, l: nat, i: nat, q: nat, k: nat)
    requires Path(ops, did, at, l) && i < |ops| && ops[i].Flush? && k < 4096 && did[i]
    ensures at[i].file.Valid() && at[i + 1].file.Valid()
    ensures at[i + 1].file.dirty == 0 && at[i + 1].file.size == at[i].file.size
    ensures 4096 * q + k < at[i].file.size ==>
              at[i + 1].file.ByteAt(at[i + 1].store, q, k) == at[i].file.ByteAt(at[i].store, q, k)
  {
    assert PathAt(ops, did, at, l, i);
  }

  /** A truncation, to a smaller size or a larger one: the bytes below both sizes stay, and those added are zero. */
  lemma TruncateLaw(ops: seq<Op>, did: seq<bool>, at: seq<Moment>, l: nat, i: nat, q: nat, k: nat)
    requires Path(ops, did, at, l) && i < |ops| && ops[i].Truncate? && k < 4096 && did[i]
    ensures at[i].file.Valid() && at[i + 1].file.Valid() && at[i + 1].file.size == ops[i].to
    ensures 4096 * q + k < ops[i].to ==>
              at[i + 1].file.ByteAt(at[i + 1].store, q, k) ==
              if 4096 * q + k < at[i].file.size then at[i].file.ByteAt(at[i].store, q, k) else 0
  {
    assert PathAt(ops, did, at, l, i);
    var f, to, junk := at[i].file, ops[i].to, ops[i].junk;
    if to >= f.size {
      assert ByteOf(at[i + 1].file, at[i].store, q, k) == ByteOf(f, at[i].store, q, k);
    } else if 4096 * q + k < to {
      CutBytes(f, to, EndMapped(f, to), junk, at[i + 1].file, at[i].store, q, k);
    }
  }

  /** A sync or a checkpoint leaves the file alone. */
  lemma RestLaw(ops: seq<Op>, did: seq<bool>, at: seq<Moment>, l: nat, i: nat)
    requires Path(ops, did, at, l) && i < |ops| && (ops[i].Sync? || ops[i].Checkpoint?)
    ensures (ops[i].Sync? ==> did[i]) && at[i + 1].file == at[i].file && at[i + 1].store == at[i].store
  {
    assert PathAt(ops, did, at, l, i);
  }

  /** Every operation of the run is plain in the state it finds. */
  ghost predicate AllPlain(ops: seq<Op>, at: seq<Moment>, l: nat) {
    |at| == |ops| + 1 && forall i: nat {:trigger PlainAt(ops, at, l, i)} :: i < |ops| ==> PlainAt(ops, at, l, i)
  }

  ghost predicate PlainAt(ops: seq<Op>, at: seq<Moment>, l: nat, i: nat)
    requires i < |ops| && |at| == |ops| + 1
  {
    ValidTable(at[i].file.table) && Plain(ops[i], at[i], l)
  }

  /** The operation neither writes nor cuts off byte `k` of page `q`. */
  predicate Spares(op: Op, q: nat, k: nat) {
    && (op.Write? ==> !Covered(op.pieces, op.page, q, k))
    && (op.Truncate? ==> 4096 * q + k < op.to)
  }

  /** One operation that spares a byte of the file leaves it. */
  lemma SparedOnce(ops: seq<Op>, did: seq<bool>, at: seq<Moment>, l: nat, i: nat, q: nat, k: nat)
    requires Path(ops, did, at, l) && AllPlain(ops, at, l) && i < |ops| && k < 4096 && Spares(ops[i], q, k)
    requires at[i].file.Valid() && 4096 * q + k < at[i].file.size
    ensures at[i + 1].file.Valid() && 4096 * q + k < at[i + 1].file.size
    ensures at[i + 1].file.ByteAt(at[i + 1].store, q, k) == at[i].file.ByteAt(at[i].store, q, k)
  {
    assert PlainAt(ops, at, l, i);
    PlainIsDone(ops, did, at, l, i);
    match ops[i]
    case Write(page, pieces) => WriteLaw(ops, did, at, l, i, q, k);
    case Flush(release) => FlushLaw(ops, did, at, l, i, q, k);
    case Truncate(to, junk) => TruncateLaw(ops, did, at, l, i, q, k);
    case Sync => RestLaw(ops, did, at, l, i);
    case Checkpoint => RestLaw(ops, did, at, l, i);
  }

  /** A byte that no operation from `i` on writes or cuts off is what it was. */
  lemma {:induction false} Spared(ops: seq<Op>, did: seq<bool>, at: seq<Moment>, l: nat, i: nat, j: nat, q: nat, k: nat)
    requires Path(ops, did, at, l) && AllPlain(ops, at, l) && i <= j <= |ops| && k < 4096
    requires forall x {:trigger ops[x]} :: i <= x < j ==> Spares(ops[x], q, k)
    requires at[i].file.Valid() && 4096 * q + k < at[i].file.size
    ensures at[j].file.Valid() && 4096 * q + k < at[j].file.size
    ensures at[j].file.ByteAt(at[j].store, q, k) == at[i].file.ByteAt(at[i].store, q, k)
  {
    if i < j {
      Spared(ops, did, at, l, i, j - 1, q, k);
      SparedOnce(ops, did, at, l, j - 1, q, k);
    }
  }

  /** Over a run of plain operations, the last write to a byte that is not cut off later is what the file has there. */
  lemma {:induction false} LastWriteWins(ops: seq<Op>, did: seq<bool>, at: seq<Moment>, l: nat, i: nat, q: nat, k: nat)
    requires Path(ops, did, at, l) && AllPlain(ops, at, l) && i < |ops| && k < 4096
    requires ops[i].Write? && Covered(ops[i].pieces, ops[i].page, q, k)
    requires forall x {:trigger ops[x]} :: i < x < |ops| ==> Spares(ops[x], q, k)
    ensures at[|ops|].file.Valid() && 4096 * q + k < at[|ops|].file.size
    ensures at[|ops|].file.ByteAt(at[|ops|].store, q, k) == ops[i].pieces[q - ops[i].page].bytes[k]
  {
    assert PlainAt(ops, at, l, i);
    PlainIsDone(ops, did, at, l, i);
    WriteLaw(ops, did, at, l, i, q, k);
    Spared(ops, did, at, l, i + 1, |ops|, q, k);
  }

  /** A run of plain operations reads as all of them. */
  lemma AllCarriedOut(ops: seq<Op>, did: seq<bool>, at: seq<Moment>, l: nat)
    requires Path(ops, did, at, l) && AllPlain(ops, at, l) && at[0].file.Valid()
    ensures forall i {:trigger did[i]} :: 0 <= i < |ops| ==> did[i]
    ensures at[|ops|].file.Valid() && Reads(at[0].file, at[0].store, at[|ops|].file, at[|ops|].store, ops)
  {
    forall i | 0 <= i < |ops| ensures did[i] {
      assert PlainAt(ops, at, l, i);
      PlainIsDone(ops, did, at, l, i);
    }
    AllChosen(ops, did);
    PathReads(ops, did, at, l);
  }

  lemma {:induction false} AllChosen(ops: seq<Op>, did: seq<bool>)
    requires |did| == |ops| && forall i {:trigger did[i]} :: 0 <= i < |did| ==> did[i]
    ensures Chosen(ops, did) == ops
  {
    if ops != [] {
      var n := |ops| - 1;
      AllChosen(ops[..n], did[..n]);
      assert ops == ops[..n] + [ops[n]];
    }
  }
}
