/**
  * The records of a directory or of a set of extended attributes, packed into chained 4096-byte blocks
  * (lcfs/dir.c, lcfs/xattr.c). Records do not cross blocks; the space left over in a block is zeroed.
  */
module Packing {
  import Blocks

  const SPACE: nat := 4080   // LC_BLOCK_SIZE - sizeof(struct dblock)

  /** `struct dblock` or `struct xblock`. */
  datatype PBlock<T> = PBlock(records: seq<T>, next: nat)

  /** The bytes a page uses. */
  function Used<T>(size: T -> nat, page: seq<T>): nat {
    if page == [] then 0 else Used(size, page[..|page| - 1]) + size(page[|page| - 1])
  }

  /** The records of pages that are listed newest first. */
  function Unpacked<T>(pages: seq<seq<T>>): seq<T> {
    if pages == [] then [] else Unpacked(pages[1..]) + pages[0]
  }

  ghost predicate AllFit<T(!new)>(size: T -> nat, list: seq<T>) {
    forall r {:trigger r in list} :: r in list ==> size(r) <= SPACE
  }

  ghost predicate PagesFit<T>(size: T -> nat, pages: seq<seq<T>>) {
    forall i {:trigger pages[i]} :: 0 <= i < |pages| ==> Used(size, pages[i]) <= SPACE
  }

  /** The writer has packed `list`; `remain` bytes of the newest page are left. */
  ghost predicate Packed<T(!new)>(size: T -> nat, pages: seq<seq<T>>, remain: int, list: seq<T>) {
    && Unpacked(pages) == list
    && (if pages == [] then remain == 0 else remain == SPACE - Used(size, pages[0]))
    && (AllFit(size, list) <==> PagesFit(size, pages))
  }

  /** A step of the loops of `lc_dirFlush` and `lc_xattrFlush`. */
  method Append<T(!new)>(size: T -> nat, pages: seq<seq<T>>, remain: int, r: T, ghost list: seq<T>)
    returns (pages': seq<seq<T>>, remain': int)
    requires Packed(size, pages, remain, list) && size(r) > 0
    ensures Packed(size, pages', remain', list + [r]) && pages' != []
  {
    assert AllFit(size, list + [r]) <==> AllFit(size, list) && size(r) <= SPACE by {
      assert AllFit(size, list + [r]) ==> AllFit(size, list) by {
        assert forall x :: x in list ==> x in list + [r];
      }
      assert r in list + [r];
    }
    if remain < size(r) {
      pages', remain' := [[r]] + pages, SPACE - size(r);
      assert pages'[1..] == pages && [r][..0] == [];
      assert PagesFit(size, pages') <==> PagesFit(size, pages) && size(r) <= SPACE by {
        FitsFirst(size, pages');
      }
    } else {
      var page := pages[0] + [r];
      pages', remain' := [page] + pages[1..], remain - size(r);
      assert pages'[1..] == pages[1..] && page[..|page| - 1] == pages[0];
      assert Unpacked(pages[1..]) + (pages[0] + [r]) == Unpacked(pages) + [r];
      FitsFirst(size, pages);
      FitsFirst(size, pages');
    }
  }

  lemma FitsFirst<T>(size: T -> nat, pages: seq<seq<T>>)
    requires pages != []
    ensures PagesFit(size, pages) <==> Used(size, pages[0]) <= SPACE && PagesFit(size, pages[1..])
  {
    if PagesFit(size, pages) {
      forall i | 0 <= i < |pages[1..]| ensures Used(size, pages[1..][i]) <= SPACE {
        assert pages[1..][i] == pages[i + 1];
      }
    }
    if Used(size, pages[0]) <= SPACE && PagesFit(size, pages[1..]) {
      forall i | 0 <= i < |pages| ensures Used(size, pages[i]) <= SPACE {
        if i > 0 {
          assert pages[i] == pages[1..][i - 1];
        }
      }
    }
  }

  /** A page is on disk, and names the block after its own unless it is the last. */
  ghost predicate Placed<T>(disk: map<nat, PBlock<T>>, at: nat, page: seq<T>, last: bool) {
    at in disk && disk[at] == PBlock(page, if last then Blocks.INVALID_BLOCK else at + 1)
  }

  /** The first `n` of the pages are on disk; the pages stand in `|pages|` blocks from `block` on, the newest in the
      last. */
  ghost predicate Laid<T>(disk: map<nat, PBlock<T>>, block: nat, pages: seq<seq<T>>, n: nat) {
    forall j {:trigger pages[j]} ::
      0 <= j < n && j < |pages| ==> Placed(disk, block + (|pages| - 1 - j), pages[j], j == 0)
  }

  /** Only the `n` blocks from `block` on were written. */
  ghost predicate Elsewhere<T>(disk: map<nat, PBlock<T>>, disk': map<nat, PBlock<T>>, block: nat, n: nat) {
    forall b: nat {:trigger b in disk'} :: !(block <= b < block + n) ==>
      (b in disk' <==> b in disk) && (b in disk ==> disk'[b] == disk[b])
  }

  /** `lc_dirFlushBlocks` and `lc_xattrFlushBlocks`. */
  method FlushBlocks<T>(disk: map<nat, PBlock<T>>, block: nat, pages: seq<seq<T>>) returns (disk': map<nat, PBlock<T>>)
    ensures Laid(disk', block, pages, |pages|)
    ensures Elsewhere(disk, disk', block, |pages|)
  {
    disk' := disk;
    var count, j := |pages|, 0;
    while j < |pages|
      invariant j + count == |pages| && Laid(disk', block, pages, j)
      invariant forall b: nat {:trigger b in disk'} :: !(block <= b < block + |pages|) ==>
                (b in disk' <==> b in disk) && (b in disk ==> disk'[b] == disk[b])
    {
      count := count - 1;
      disk' := disk'[block + count := PBlock(pages[j], if j == 0 then Blocks.INVALID_BLOCK else block + count + 1)];
      j := j + 1;
    }
  }

  /** The records of a block. Past the last record the reader finds zeroes, if there is room for a record at all. */
  method ReadRecords<T>(size: T -> nat, header: nat, b: PBlock<T>) returns (list: seq<T>)
    requires Used(size, b.records) <= SPACE && forall r {:trigger size(r)} :: r in b.records ==> size(r) > header
    ensures list == b.records
  {
    list := [];
    var k, remain := 0, SPACE;
    while remain > header
      invariant k <= |b.records| && list == b.records[..k] && remain == SPACE - Used(size, b.records[..k])
      invariant remain <= header ==> k == |b.records|
      decreases |b.records| - k
    {
      if k == |b.records| {
        break;
      }
      UsedPart(size, b.records, k + 1);
      assert b.records[..k + 1][..k] == b.records[..k];
      list := list + [b.records[k]];
      remain := remain - size(b.records[k]);
      k := k + 1;
      if k < |b.records| {
        UsedPart(size, b.records, k + 1);
        assert b.records[..k + 1][..k] == b.records[..k];
        assert b.records[k] in b.records;
      }
    }
  }

  lemma {:induction false} UsedPart<T>(size: T -> nat, page: seq<T>, k: nat)
    requires k <= |page|
    ensures Used(size, page[..k]) <= Used(size, page)
    decreases |page|
  {
    if k == |page| {
      assert page[..k] == page;
    } else {
      UsedPart(size, page[..|page| - 1], k);
      assert page[..|page| - 1][..k] == page[..k];
    }
  }

  /** The loops of `lc_dirRead` and `lc_xattrRead` over the chained blocks. */
  method ReadChain<T>(size: T -> nat, header: nat, disk: map<nat, PBlock<T>>, block: nat, ghost first: nat,
                      ghost pages: seq<seq<T>>)
    returns (list: seq<T>)
    requires Laid(disk, first, pages, |pages|) && PagesFit(size, pages) && first + |pages| <= Blocks.INVALID_BLOCK
    requires forall r {:trigger size(r)} :: r in Unpacked(pages) ==> size(r) > header
    requires block == if pages == [] then Blocks.INVALID_BLOCK else first
    ensures list == Unpacked(pages)
  {
    list := [];
    var at := block;
    ghost var j := |pages|;
    while at != Blocks.INVALID_BLOCK
      invariant 0 <= j <= |pages| && list == Unpacked(pages[j..])
      invariant at == if j == 0 then Blocks.INVALID_BLOCK else first + (|pages| - j)
      decreases j
    {
      j := j - 1;
      ghost var page := pages[j];
      assert Placed(disk, at, page, j == 0);
      RecordsIn(pages, j);
      var l := ReadRecords(size, header, disk[at]);
      list := list + l;
      assert pages[j..][1..] == pages[j + 1..];
      at := disk[at].next;
    }
    assert pages[0..] == pages;
  }

  lemma {:induction false} RecordsIn<T>(pages: seq<seq<T>>, j: nat)
    requires j < |pages|
    ensures forall r {:trigger r in pages[j]} :: r in pages[j] ==> r in Unpacked(pages)
  {
    if j > 0 {
      RecordsIn(pages[1..], j - 1);
      assert pages[1..][j - 1] == pages[j];
    }
  }
}
