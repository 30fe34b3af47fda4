/**
  * Block maps of fragmented files on disk (lcfs/emap.c): the extents of the list, 204 to a block. The map of a file
  * with one extent is in the inode itself.
  */
module EmapDisk {
  import opened Extents
  import opened Emap
  import B = Blocks
  import Packing

  const EMAP_BLOCK: nat := 204   // LC_EMAP_BLOCK

  /** `sizeof(struct emap)`: 204 of them fill a block. */
  function EmapSize(e: Extent): nat {
    20
  }

  lemma AllEmaps(l: seq<Extent>)
    ensures Packing.SPACE == EMAP_BLOCK * 20 && Packing.AllFit(EmapSize, l)
  {
  }

  /** What the inode has of a map on disk: `di_emapdir`, which is the first emap block of a fragmented file and the
      first block of another, `di_extentLength` and `di_blocks`. */
  datatype DiskMap = DiskMap(emapdir: nat, length: nat, blocks: nat)

  /** The map of a file is on disk. */
  ghost predicate EmapStored(disk: map<nat, Packing.PBlock<Extent>>, d: DiskMap, first: nat, pages: seq<seq<Extent>>,
                             m: BlockMap)
  {
    && d.length == m.length && d.blocks == m.blocks && (pages == [] <==> m.list == [])
    && Packing.Unpacked(pages) == m.list && Packing.PagesFit(EmapSize, pages)
    && Packing.Laid(disk, first, pages, |pages|)
    && d.emapdir == if pages != [] then first else if m.length > 0 then m.block else B.INVALID_BLOCK
  }

  /** `lc_emapFlush` of a file without dirty pages. */
  method EmapFlush(m: BlockMap, disk: map<nat, Packing.PBlock<Extent>>, alloc: nat -> nat)
    returns (disk': map<nat, Packing.PBlock<Extent>>, d: DiskMap, pages: seq<seq<Extent>>)
    requires m.Valid()
    ensures EmapStored(disk', d, alloc(|pages|), pages, m) && Packing.Elsewhere(disk, disk', alloc(|pages|), |pages|)
  {
    var ps: seq<seq<Extent>>, remain: int, bcount, k := [], 0, m.length, 0;
    assert m.list[..0] == [];
    while k < |m.list|
      invariant k <= |m.list| && Packing.Packed(EmapSize, ps, remain, m.list[..k])
      invariant bcount == m.length + Total(m.list[..k])
      invariant ps == [] <==> k == 0
    {
      TotalConcat(m.list[..k], [m.list[k]]);
      assert m.list[..k + 1] == m.list[..k] + [m.list[k]] && [m.list[k]][1..] == [];
      ps, remain := Packing.Append(EmapSize, ps, remain, m.list[k], m.list[..k]);
      bcount := bcount + m.list[k].count;
      k := k + 1;
    }
    assert m.list[..k] == m.list;
    assert m.blocks == bcount;
    AllEmaps(m.list);
    pages, disk' := ps, disk;
    d := DiskMap(if m.length > 0 then m.block else B.INVALID_BLOCK, m.length, m.blocks);
    if |ps| > 0 {
      d := d.(emapdir := alloc(|ps|));
      disk' := Packing.FlushBlocks(disk, d.emapdir, ps);
    }
  }

  /** `lc_emapRead`: the map comes back as it was, extent by extent. */
  method EmapRead(disk: map<nat, Packing.PBlock<Extent>>, d: DiskMap, ghost first: nat, ghost pages: seq<seq<Extent>>,
                  ghost m: BlockMap)
    returns (r: BlockMap)
    requires m.Valid() && EmapStored(disk, d, first, pages, m) && first + |pages| <= B.INVALID_BLOCK
    ensures r.Valid() && r.list == m.list && r.length == m.length && r.blocks == m.blocks
    ensures (m.length > 0 ==> r.block == m.block)
    ensures forall p: nat {:trigger r.At(p)} :: r.At(p) == m.At(p)
  {
    PagesEmpty(pages);
    if d.blocks == 0 {
      NoneMapped(m);
      return BlockMap([], 0, 0, 0);
    }
    if d.length > 0 {
      return BlockMap([], d.emapdir, d.length, d.blocks);
    }
    var records := Packing.ReadChain(EmapSize, 0, disk, d.emapdir, first, pages);
    var list := CopyEmap(records);
    var blocks := 0;
    var i := 0;
    assert list[..0] == [];
    while i < |list|
      invariant i <= |list| && blocks == Total(list[..i])
    {
      TotalConcat(list[..i], [list[i]]);
      assert list[..i + 1] == list[..i] + [list[i]] && [list[i]][1..] == [];
      blocks := blocks + list[i].count;
      i := i + 1;
    }
    assert list[..i] == list;
    r := BlockMap(list, 0, 0, blocks);
  }

  lemma NoneMapped(m: BlockMap)
    requires m.Valid() && m.blocks == 0
    ensures m.list == [] && m.length == 0
  {
    EmapIs(m.list);
  }

  lemma PagesEmpty(pages: seq<seq<Extent>>)
    ensures forall r {:trigger EmapSize(r)} :: r in Packing.Unpacked(pages) ==> EmapSize(r) > 0
  {
  }

  /** A file that is flushed and read again has the map it had. */
  method EmapRemount(m: BlockMap, disk: map<nat, Packing.PBlock<Extent>>, alloc: nat -> nat) returns (r: BlockMap)
    requires m.Valid() && forall n: nat {:trigger alloc(n)} :: alloc(n) + n <= B.INVALID_BLOCK
    ensures r.Valid() && r.blocks == m.blocks && forall p: nat {:trigger r.At(p)} :: r.At(p) == m.At(p)
  {
    var disk', d, pages;
    disk', d, pages := EmapFlush(m, disk, alloc);
    r := EmapRead(disk', d, alloc(|pages|), pages, m);
  }
}
