/** Extent lists (lcfs/extent.c, lcfs/extent.h).

  A list of extents stands for a set of blocks (a SPACE list, tracking free or
  allocated space) or for a page -> block map (an EMAP list, the block map of a file).
  The C code passes the address of the list head and updates the list through it; here
  the list is an in/out parameter of the method. */
module Extents {

  /** Largest count an EMAP extent can hold: `ex_bcount` is a 16-bit field. */
  const EMAP_MAX: nat := 65535

  /** What a lookup answers for a page without a block (`LC_PAGE_HOLE`). */
  const HOLE: int := -1

  /** An extent. `block` is zero exactly for SPACE extents, as `lc_getExtentBlock` and
      `lc_newExtent` have it. */
  datatype Extent = Extent(start: nat, block: nat, count: nat) {
    function End(): nat {
      start + count
    }

    /** The block of page `p`; a SPACE extent stands for its own blocks. */
    function At(p: nat): nat
      requires start <= p
    {
      if block == 0 then p else block + (p - start)
    }
  }

  predicate Within(b: nat, start: nat, count: nat) {
    start <= b < start + count
  }

  /** The blocks start, ..., start + count - 1. */
  function Range(start: nat, count: nat): set<nat> {
    set b | start <= b < start + count && Within(b, start, count)
  }

  /** The blocks of a SPACE list, the pages of an EMAP list. */
  function Keys(l: seq<Extent>): set<nat> {
    if l == [] then {} else Range(l[0].start, l[0].count) + Keys(l[1..])
  }

  /** The block an EMAP list maps page `p` to (a SPACE list maps each of its blocks to itself). */
  function Lookup(l: seq<Extent>, p: nat): int {
    if l == [] then HOLE
    else if l[0].start <= p < l[0].End() then l[0].At(p)
    else Lookup(l[1..], p)
  }

  /** Sum of the counts of a list. */
  function Total(l: seq<Extent>): nat {
    if l == [] then 0 else l[0].count + Total(l[1..])
  }

  /** A list of non-empty SPACE extents in no particular order. */
  predicate Loose(l: seq<Extent>) {
    l == [] || (l[0].block == 0 && l[0].count > 0 && Loose(l[1..]))
  }

  /** A sorted SPACE list in which no two extents touch. */
  predicate Canonical(l: seq<Extent>) {
    l == [] || (l[0].block == 0 && l[0].count > 0 && (|l| > 1 ==> l[0].End() < l[1].start) && Canonical(l[1..]))
  }

  /** A sorted EMAP list: extents may touch, but do not overlap. */
  predicate EmapList(l: seq<Extent>) {
    l == [] ||
      (l[0].block > 0 && 0 < l[0].count <= EMAP_MAX && (|l| > 1 ==> l[0].End() <= l[1].start) && EmapList(l[1..]))
  }

  // The same three by index.

  predicate LooseItems(l: seq<Extent>) {
    forall i :: 0 <= i < |l| ==> l[i].block == 0 && l[i].count > 0
  }

  predicate Sorted(l: seq<Extent>) {
    forall i, j :: 0 <= i < j < |l| ==> l[i].End() <= l[j].start
  }

  predicate CanonicalItems(l: seq<Extent>) {
    LooseItems(l) && forall i, j :: 0 <= i < j < |l| ==> l[i].End() < l[j].start
  }

  predicate EmapItems(l: seq<Extent>) {
    (forall i :: 0 <= i < |l| ==> l[i].block > 0 && 0 < l[i].count <= EMAP_MAX) && Sorted(l)
  }

  lemma {:induction false} LooseIs(l: seq<Extent>)
    ensures Loose(l) <==> LooseItems(l)
  {
    if l != [] {
      LooseIs(l[1..]);
      if LooseItems(l[1..]) && l[0].block == 0 && l[0].count > 0 {
        forall i | 0 <= i < |l| ensures l[i].block == 0 && l[i].count > 0 {
          if i > 0 { assert l[i] == l[1..][i - 1]; }
        }
      }
    }
  }

  lemma {:induction false} CanonicalIs(l: seq<Extent>)
    ensures Canonical(l) <==> CanonicalItems(l)
    ensures Canonical(l) ==> Loose(l) && Sorted(l)
  {
    if l != [] {
      var t := l[1..];
      CanonicalIs(t);
      if Canonical(l) {
        forall i, j | 0 <= i < j < |l| ensures l[i].End() < l[j].start {
          assert l[j] == t[j - 1];
          if i > 0 {
            assert l[i] == t[i - 1];
          } else if j > 1 {
            assert t[0].End() < t[j - 1].start;
          }
        }
        LooseIs(t);
        LooseIs(l);
      }
    }
  }

  lemma {:induction false} EmapIs(l: seq<Extent>)
    ensures EmapList(l) <==> EmapItems(l)
  {
    if l != [] {
      var t := l[1..];
      EmapIs(t);
      if EmapList(l) {
        forall i, j | 0 <= i < j < |l| ensures l[i].End() <= l[j].start {
          assert l[j] == t[j - 1];
          if i > 0 {
            assert l[i] == t[i - 1];
          } else if j > 1 {
            assert t[0].End() <= t[j - 1].start;
          }
        }
      }
    }
  }

  /** The form a list has: sorted or not, of SPACE extents (`block` zero) or of EMAP extents. */
  predicate Form(l: seq<Extent>, block: nat, sort: bool) {
    if block != 0 then sort && EmapList(l) else if sort then Canonical(l) else Loose(l)
  }

  /** `lc_extentAdjacent`: `n` continues `e`, and for EMAP extents the sum fits the count field. */
  predicate Adjacent(e: Extent, n: Extent) {
    if e.block != 0 then
      e.count + n.count <= EMAP_MAX && e.End() == n.start && e.block + e.count == n.block
    else
      e.End() == n.start
  }

  // ----- Lists and the sets and maps they stand for -----

  lemma {:induction false} KeysConcat(a: seq<Extent>, b: seq<Extent>)
    ensures Keys(a + b) == Keys(a) + Keys(b)
  {
    if a == [] {
      assert a + b == b;
    } else {
      assert (a + b)[1..] == a[1..] + b;
      KeysConcat(a[1..], b);
    }
  }

  lemma {:induction false} LookupConcat(a: seq<Extent>, b: seq<Extent>, p: nat)
    ensures Lookup(a + b, p) == if p in Keys(a) then Lookup(a, p) else Lookup(b, p)
  {
    if a == [] {
      assert a + b == b;
    } else {
      assert (a + b)[1..] == a[1..] + b;
      LookupConcat(a[1..], b, p);
    }
  }

  lemma {:induction false} TotalConcat(a: seq<Extent>, b: seq<Extent>)
    ensures Total(a + b) == Total(a) + Total(b)
  {
    if a == [] {
      assert a + b == b;
    } else {
      assert (a + b)[1..] == a[1..] + b;
      TotalConcat(a[1..], b);
    }
  }

  /** A page has a block exactly when some extent covers it. */
  lemma {:induction false} LookupHole(l: seq<Extent>, p: nat)
    ensures Lookup(l, p) == HOLE <==> p !in Keys(l)
    ensures Lookup(l, p) >= HOLE
  {
    if l != [] {
      LookupHole(l[1..], p);
    }
  }

  /** A key of a list lies in one of its extents. */
  lemma {:induction false} KeyIndex(l: seq<Extent>, b: nat) returns (i: nat)
    requires b in Keys(l)
    ensures i < |l| && l[i].start <= b < l[i].End()
  {
    if l[0].start <= b < l[0].End() {
      i := 0;
    } else {
      var j := KeyIndex(l[1..], b);
      i := j + 1;
    }
  }

  lemma {:induction false} IndexKey(l: seq<Extent>, i: nat, b: nat)
    requires i < |l| && l[i].start <= b < l[i].End()
    ensures b in Keys(l)
  {
    if i > 0 {
      IndexKey(l[1..], i - 1, b);
    }
  }

  /** What a list stands for when cut at extent `i`. */
  lemma {:induction false} Cut(l: seq<Extent>, i: nat)
    requires i < |l|
    ensures Keys(l) == Keys(l[..i]) + Range(l[i].start, l[i].count) + Keys(l[i + 1..])
    ensures Total(l) == Total(l[..i]) + l[i].count + Total(l[i + 1..])
  {
    assert l == l[..i] + l[i..];
    assert l[i..][1..] == l[i + 1..];
    KeysConcat(l[..i], l[i..]);
    TotalConcat(l[..i], l[i..]);
  }

  lemma {:induction false} CutLookup(l: seq<Extent>, i: nat, p: nat)
    requires i < |l|
    ensures Lookup(l, p) == if p in Keys(l[..i]) then Lookup(l[..i], p)
                            else if l[i].start <= p < l[i].End() then l[i].At(p)
                            else Lookup(l[i + 1..], p)
  {
    assert l == l[..i] + l[i..];
    assert l[i..][1..] == l[i + 1..];
    LookupConcat(l[..i], l[i..], p);
  }

  lemma {:induction false} RangeSize(start: nat, count: nat)
    ensures |Range(start, count)| == count
    decreases count
  {
    if count == 0 {
      assert Range(start, count) == {};
    } else {
      RangeSize(start, count - 1);
      assert Range(start, count) == Range(start, count - 1) + {start + count - 1};
    }
  }

  lemma {:induction false} KeysBeyond(l: seq<Extent>, bound: nat)
    requires forall i :: 0 <= i < |l| ==> bound <= l[i].start
    ensures forall b :: b in Keys(l) ==> bound <= b
  {
    forall b | b in Keys(l) ensures bound <= b {
      var i := KeyIndex(l, b);
    }
  }

  lemma {:induction false} KeysBelow(l: seq<Extent>, bound: nat)
    requires forall i :: 0 <= i < |l| ==> l[i].End() <= bound
    ensures forall b :: b in Keys(l) ==> b < bound
  {
    forall b | b in Keys(l) ensures b < bound {
      var i := KeyIndex(l, b);
    }
  }

  /** The number of blocks in a sorted list is the size of the set it stands for. */
  lemma {:induction false} TotalIsSize(l: seq<Extent>)
    requires Sorted(l)
    ensures |Keys(l)| == Total(l)
  {
    if l != [] {
      TotalIsSize(l[1..]);
      RangeSize(l[0].start, l[0].count);
      KeysBeyond(l[1..], l[0].End());
      assert Range(l[0].start, l[0].count) !! Keys(l[1..]);
    }
  }

  /** A coalesced list names no block twice. */
  lemma {:induction false} CanonicalApart(l: seq<Extent>)
    requires Canonical(l)
    ensures Loose(l) && Apart(l)
  {
    CanonicalSize(l);
    CanonicalIs(l);
    ApartIs(l);
  }

  lemma {:induction false} CanonicalSize(l: seq<Extent>)
    requires Canonical(l)
    ensures |Keys(l)| == Total(l)
  {
    CanonicalIs(l);
    TotalIsSize(l);
  }

  /** Canonical lists are unique: the set of blocks determines the list. */
  lemma {:induction false} CanonicalUnique(a: seq<Extent>, b: seq<Extent>)
    requires Canonical(a) && Canonical(b) && Keys(a) == Keys(b)
    ensures a == b
  {
    CanonicalIs(a);
    CanonicalIs(b);
    if a == [] {
      if b != [] {
        IndexKey(b, 0, b[0].start);
        assert false;
      }
    } else if b == [] {
      IndexKey(a, 0, a[0].start);
      assert false;
    } else {
      FirstExtentWithin(a, b);
      FirstExtentWithin(b, a);
      assert a[0] == b[0];
      KeysBeyond(a[1..], a[0].End());
      KeysBeyond(b[1..], b[0].End());
      assert Keys(a[1..]) == Keys(a) - Range(a[0].start, a[0].count);
      assert Keys(b[1..]) == Keys(b) - Range(b[0].start, b[0].count);
      CanonicalUnique(a[1..], b[1..]);
    }
  }

  /** The first extent of `a` does not begin before or reach beyond that of `b`. */
  lemma {:induction false} FirstExtentWithin(a: seq<Extent>, b: seq<Extent>)
    requires CanonicalItems(a) && CanonicalItems(b) && a != [] && b != [] && Keys(a) == Keys(b)
    ensures b[0].start <= a[0].start
    ensures a[0].start == b[0].start ==> a[0].count <= b[0].count
  {
    IndexKey(a, 0, a[0].start);
    var i := KeyIndex(b, a[0].start);
    if a[0].start == b[0].start && b[0].count < a[0].count {
      IndexKey(a, 0, b[0].End());
      var j := KeyIndex(b, b[0].End());
      assert false;
    }
  }

  // ----- lc_addExtent -----

  /** Replacing extent `i` by one or more extents, or by none. */
  function Splice(l: seq<Extent>, i: nat, n: nat, mid: seq<Extent>): seq<Extent>
    requires i + n <= |l|
  {
    l[..i] + mid + l[i + n..]
  }

  lemma {:induction false} SpliceMeans(l: seq<Extent>, i: nat, n: nat, mid: seq<Extent>)
    requires i + n <= |l|
    ensures Keys(Splice(l, i, n, mid)) == Keys(l[..i]) + Keys(mid) + Keys(l[i + n..])
    ensures Total(Splice(l, i, n, mid)) == Total(l[..i]) + Total(mid) + Total(l[i + n..])
  {
    KeysConcat(l[..i], mid);
    KeysConcat(l[..i] + mid, l[i + n..]);
    TotalConcat(l[..i], mid);
    TotalConcat(l[..i] + mid, l[i + n..]);
  }

  lemma {:induction false} SpliceLookup(l: seq<Extent>, i: nat, n: nat, mid: seq<Extent>, p: nat)
    requires i + n <= |l|
    ensures Lookup(Splice(l, i, n, mid), p) == if p in Keys(l[..i]) then Lookup(l[..i], p)
                                               else if p in Keys(mid) then Lookup(mid, p)
                                               else Lookup(l[i + n..], p)
  {
    KeysConcat(l[..i], mid);
    LookupConcat(l[..i], mid, p);
    LookupConcat(l[..i] + mid, l[i + n..], p);
  }

  /** What a list stands for, in terms of its parts before, at and after extents i, ..., i + n - 1. */
  lemma {:induction false} SpliceSelf(l: seq<Extent>, i: nat, n: nat)
    requires i + n <= |l|
    ensures Splice(l, i, n, l[i..i + n]) == l
    ensures Keys(l) == Keys(l[..i]) + Keys(l[i..i + n]) + Keys(l[i + n..])
    ensures Total(l) == Total(l[..i]) + Total(l[i..i + n]) + Total(l[i + n..])
  {
    assert Splice(l, i, n, l[i..i + n]) == l;
    SpliceMeans(l, i, n, l[i..i + n]);
  }

  /** Replacing a stretch of a list by one that covers `add` more pages, all else alike,
      adds those pages to the list. */
  lemma {:induction false} SpliceAdds(l: seq<Extent>, i: nat, n: nat, mid: seq<Extent>, add: Extent)
    requires i + n <= |l|
    requires Keys(mid) == Keys(l[i..i + n]) + Range(add.start, add.count)
    requires Total(mid) == Total(l[i..i + n]) + add.count
    ensures Keys(Splice(l, i, n, mid)) == Keys(l) + Range(add.start, add.count)
    ensures Total(Splice(l, i, n, mid)) == Total(l) + add.count
  {
    SpliceSelf(l, i, n);
    SpliceMeans(l, i, n, mid);
  }

  /** The same for the block a page is mapped to. */
  lemma {:induction false} SpliceAddsLookup(l: seq<Extent>, i: nat, n: nat, mid: seq<Extent>, add: Extent, p: nat)
    requires i + n <= |l|
    requires Range(add.start, add.count) !! Keys(l)
    requires Keys(mid) == Keys(l[i..i + n]) + Range(add.start, add.count)
    requires Lookup(mid, p) == if Within(p, add.start, add.count) then add.At(p)
                               else Lookup(l[i..i + n], p)
    ensures Lookup(Splice(l, i, n, mid), p) == if Within(p, add.start, add.count) then add.At(p)
                                               else Lookup(l, p)
  {
    SpliceSelf(l, i, n);
    SpliceLookup(l, i, n, l[i..i + n], p);
    SpliceLookup(l, i, n, mid, p);
  }

  lemma {:induction false} One(e: Extent)
    ensures Keys([e]) == Range(e.start, e.count) && Total([e]) == e.count
    ensures forall p: nat :: Lookup([e], p) == if Within(p, e.start, e.count) then e.At(p) else HOLE
  {
    assert [e][1..] == [];
  }

  lemma {:induction false} Two(e: Extent, f: Extent)
    ensures Keys([e, f]) == Range(e.start, e.count) + Range(f.start, f.count) && Total([e, f]) == e.count + f.count
    ensures forall p: nat :: Lookup([e, f], p) == if Within(p, e.start, e.count) then e.At(p)
                                             else if Within(p, f.start, f.count) then f.At(p)
                                             else HOLE
  {
    assert [e, f][1..] == [f];
    One(f);
  }

  /** `add` was added to `l`, giving `r`: what `lc_addExtent` promises. */
  ghost predicate Added(l: seq<Extent>, add: Extent, r: seq<Extent>) {
    && Keys(r) == Keys(l) + Range(add.start, add.count)
    && Total(r) == Total(l) + add.count
    && (add.block != 0 ==> forall p: nat ::
          Lookup(r, p) == if Within(p, add.start, add.count) then add.At(p) else Lookup(l, p))
  }

  lemma {:induction false} SpliceAdded(l: seq<Extent>, i: nat, n: nat, mid: seq<Extent>, add: Extent)
    requires i + n <= |l|
    requires add.block != 0 ==> Range(add.start, add.count) !! Keys(l)
    requires Added(l[i..i + n], add, mid)
    ensures Added(l, add, Splice(l, i, n, mid))
  {
    SpliceAdds(l, i, n, mid, add);
    if add.block != 0 {
      forall p: nat ensures Lookup(Splice(l, i, n, mid), p)
                         == if Within(p, add.start, add.count) then add.At(p) else Lookup(l, p) {
        SpliceAddsLookup(l, i, n, mid, add, p);
      }
    }
  }

  /** Extending extent `e` upwards by an adjacent extent. */
  lemma {:induction false} GrowUp(e: Extent, add: Extent)
    requires e.End() == add.start && (e.block != 0 ==> e.block + e.count == add.block)
    requires add.block != 0 ==> e.block != 0
    ensures Added([e], add, [e.(count := e.count + add.count)])
  {
    One(e);
    One(e.(count := e.count + add.count));
  }

  /** Extending extent `e` downwards by an adjacent extent. */
  lemma {:induction false} GrowDown(e: Extent, add: Extent)
    requires add.End() == e.start && (add.block != 0 ==> add.block + add.count == e.block)
    requires add.block == 0 ==> e.block == 0
    ensures Added([e], add, [Extent(add.start, add.block, e.count + add.count)])
  {
    One(e);
    One(Extent(add.start, add.block, e.count + add.count));
  }

  /** Filling the gap between two extents. */
  lemma {:induction false} GrowBoth(e: Extent, add: Extent, f: Extent)
    requires e.End() == add.start && add.End() == f.start
    requires e.block != 0 ==> e.block + e.count == add.block && add.block + add.count == f.block
    requires add.block != 0 ==> e.block != 0
    ensures Added([e, f], add, [e.(count := e.count + add.count + f.count)])
  {
    Two(e, f);
    One(e.(count := e.count + add.count + f.count));
  }

  lemma {:induction false} AddFresh(add: Extent)
    ensures Added([], add, [add])
  {
    One(add);
  }

  ghost predicate KeptForm(r: seq<Extent>, add: Extent, sort: bool) {
    && (add.block == 0 ==> if sort then CanonicalItems(r) else LooseItems(r))
    && (add.block != 0 ==> EmapItems(r))
  }

  lemma {:induction false} CanonicalConcat(a: seq<Extent>, b: seq<Extent>)
    requires CanonicalItems(a) && CanonicalItems(b)
    requires a != [] && b != [] ==> a[|a| - 1].End() < b[0].start
    ensures CanonicalItems(a + b)
  {
    var l := a + b;
    forall i, j | 0 <= i < j < |l| ensures l[i].End() < l[j].start {
      if i < |a| <= j {
        assert a[i].End() <= a[|a| - 1].End() && b[0].start <= b[j - |a|].start;
      }
    }
  }

  lemma {:induction false} EmapConcat(a: seq<Extent>, b: seq<Extent>)
    requires EmapItems(a) && EmapItems(b)
    requires a != [] && b != [] ==> a[|a| - 1].End() <= b[0].start
    ensures EmapItems(a + b)
  {
    var l := a + b;
    forall i, j | 0 <= i < j < |l| ensures l[i].End() <= l[j].start {
      if i < |a| <= j {
        assert a[i].End() <= a[|a| - 1].End() && b[0].start <= b[j - |a|].start;
      }
    }
  }

  /** Replacing extents i, ..., i + n - 1 of a sorted list by extents that fit the gap. */
  lemma {:induction false} SpliceCanonical(l: seq<Extent>, i: nat, n: nat, mid: seq<Extent>)
    requires i + n <= |l| && CanonicalItems(l) && CanonicalItems(mid)
    requires mid != [] ==> i > 0 ==> l[i - 1].End() < mid[0].start
    requires mid != [] ==> i + n < |l| ==> mid[|mid| - 1].End() < l[i + n].start
    ensures CanonicalItems(Splice(l, i, n, mid))
  {
    SpliceHead(l, i, mid);
    SpliceTail(l[..i] + mid, l, i + n);
  }

  lemma {:induction false} SpliceHead(l: seq<Extent>, i: nat, mid: seq<Extent>)
    requires i <= |l| && CanonicalItems(l) && CanonicalItems(mid)
    requires mid != [] ==> i > 0 ==> l[i - 1].End() < mid[0].start
    ensures CanonicalItems(l[..i] + mid)
  {
    CanonicalPart(l, 0, i);
    CanonicalConcat(l[..i], mid);
  }

  lemma {:induction false} SpliceTail(a: seq<Extent>, l: seq<Extent>, j: nat)
    requires j <= |l| && CanonicalItems(l) && CanonicalItems(a)
    requires a != [] ==> j < |l| ==> a[|a| - 1].End() < l[j].start
    ensures CanonicalItems(a + l[j..])
  {
    CanonicalPart(l, j, |l|);
    CanonicalConcat(a, l[j..]);
  }

  lemma {:induction false} CanonicalPart(l: seq<Extent>, i: nat, j: nat)
    requires i <= j <= |l| && CanonicalItems(l)
    ensures CanonicalItems(l[i..j])
  {
    var m := l[i..j];
    assert forall k {:trigger m[k]} :: 0 <= k < |m| ==> m[k] == l[i + k];
  }

  lemma {:induction false} SpliceEmap(l: seq<Extent>, i: nat, n: nat, mid: seq<Extent>)
    requires i + n <= |l| && EmapItems(l) && EmapItems(mid)
    requires mid != [] ==> i > 0 ==> l[i - 1].End() <= mid[0].start
    requires mid != [] ==> i + n < |l| ==> mid[|mid| - 1].End() <= l[i + n].start
    ensures EmapItems(Splice(l, i, n, mid))
  {
    EmapConcat(l[..i], mid);
    EmapConcat(l[..i] + mid, l[i + n..]);
  }

  lemma {:induction false} SpliceForm(l: seq<Extent>, i: nat, n: nat, e: Extent, sort: bool)
    requires i + n <= |l| && e.count > 0
    requires e.block == 0 ==> if sort then CanonicalItems(l) else LooseItems(l)
    requires e.block != 0 ==> sort && EmapItems(l) && e.count <= EMAP_MAX
    requires sort ==> i > 0 ==> if e.block == 0 then l[i - 1].End() < e.start else l[i - 1].End() <= e.start
    requires sort ==> i + n < |l| ==> if e.block == 0 then e.End() < l[i + n].start else e.End() <= l[i + n].start
    ensures KeptForm(Splice(l, i, n, [e]), e, sort)
  {
    if sort {
      if e.block == 0 {
        SpliceCanonical(l, i, n, [e]);
      } else {
        SpliceEmap(l, i, n, [e]);
      }
    }
  }

  /** `lc_mergeExtents` as called with a next extent: extent `i` absorbs its successor if adjacent. */
  function MergeNext(l: seq<Extent>, i: nat): seq<Extent>
    requires i < |l|
  {
    if i + 1 < |l| && Adjacent(l[i], l[i + 1]) then
      Splice(l, i, 2, [l[i].(count := l[i].count + l[i + 1].count)])
    else
      l
  }

  lemma {:induction false} FormIs(l: seq<Extent>, block: nat, sort: bool)
    ensures Form(l, block, sort) <==> if block != 0 then sort && EmapItems(l)
                                      else if sort then CanonicalItems(l) else LooseItems(l)
  {
    EmapIs(l);
    CanonicalIs(l);
    LooseIs(l);
  }

  /** What `lc_addExtent` may be given. */
  ghost predicate Addable(l: seq<Extent>, add: Extent, sort: bool) {
    && add.count > 0
    && (add.block == 0 ==> if sort then CanonicalItems(l) else LooseItems(l))
    && (add.block != 0 ==> sort && EmapItems(l) && add.count <= EMAP_MAX)
    && (sort ==> Range(add.start, add.count) !! Keys(l))
  }

  /** A sorted list keeps clear of an extent it does not overlap. */
  lemma {:induction false} Clear(l: seq<Extent>, add: Extent, j: nat)
    requires Range(add.start, add.count) !! Keys(l) && add.count > 0 && j < |l| && l[j].count > 0
    ensures l[j].End() <= add.start || add.End() <= l[j].start
  {
    IndexKey(l, j, l[j].start);
    if l[j].start < add.start < l[j].End() {
      IndexKey(l, j, add.start);
    }
    assert l[j].start !in Range(add.start, add.count);
    assert add.start in Range(add.start, add.count);
  }

  lemma {:induction false} AddBetween(l: seq<Extent>, i: nat, add: Extent, sort: bool, h: Extent)
    requires Addable(l, add, sort) && i + 1 < |l| && Adjacent(l[i], add)
    requires Adjacent(l[i].(count := l[i].count + add.count), l[i + 1])
    requires h == l[i].(count := l[i].count + add.count + l[i + 1].count)
    ensures Added(l, add, Splice(l, i, 2, [h])) && KeptForm(Splice(l, i, 2, [h]), add, sort)
  {
    GrowBoth(l[i], add, l[i + 1]);
    assert l[i..i + 2] == [l[i], l[i + 1]];
    SpliceAdded(l, i, 2, [h], add);
    SpliceForm(l, i, 2, h, sort);
  }

  lemma {:induction false} AddAfter(l: seq<Extent>, i: nat, add: Extent, sort: bool, g: Extent)
    requires Addable(l, add, sort) && i < |l| && Adjacent(l[i], add)
    requires g == l[i].(count := l[i].count + add.count)
    requires !(i + 1 < |l| && Adjacent(g, l[i + 1]))
    ensures Added(l, add, l[i := g]) && KeptForm(l[i := g], add, sort)
  {
    GrowUp(l[i], add);
    assert l[i..i + 1] == [l[i]];
    SpliceAdded(l, i, 1, [g], add);
    if sort && i + 1 < |l| {
      Clear(l, add, i + 1);
    }
    SpliceForm(l, i, 1, g, sort);
    assert l[i := g] == Splice(l, i, 1, [g]);
  }

  lemma {:induction false} AddAbove(l: seq<Extent>, i: nat, add: Extent, sort: bool, r: seq<Extent>)
    requires Addable(l, add, sort) && i < |l| && Adjacent(l[i], add)
    requires r == MergeNext(l[i := l[i].(count := l[i].count + add.count)], i)
    ensures Added(l, add, r) && KeptForm(r, add, sort) && |r| <= |l|
  {
    var g := l[i].(count := l[i].count + add.count);
    if i + 1 < |l| && Adjacent(g, l[i + 1]) {
      var h := g.(count := g.count + l[i + 1].count);
      AddBetween(l, i, add, sort, h);
      assert r == Splice(l, i, 2, [h]);
    } else {
      AddAfter(l, i, add, sort, g);
    }
  }

  lemma {:induction false} AddBefore(l: seq<Extent>, i: nat, add: Extent, sort: bool, r: seq<Extent>)
    requires Addable(l, add, sort) && i < |l| && Adjacent(add, l[i])
    requires sort ==> i > 0 ==> l[i - 1].End() < add.start
    requires r == l[i := Extent(add.start, add.block, l[i].count + add.count)]
    ensures Added(l, add, r) && KeptForm(r, add, sort)
  {
    var g := r[i];
    assert r == Splice(l, i, 1, [g]);
    assert Added(l, add, r) by {
      GrowDown(l[i], add);
      assert l[i..i + 1] == [l[i]];
      SpliceAdded(l, i, 1, [g], add);
    }
    GrownForm(l, i, add, sort, g);
  }

  lemma {:induction false} GrownForm(l: seq<Extent>, i: nat, add: Extent, sort: bool, g: Extent)
    requires Addable(l, add, sort) && i < |l| && Adjacent(add, l[i])
    requires g == Extent(add.start, add.block, l[i].count + add.count)
    requires sort ==> i > 0 ==> l[i - 1].End() < add.start
    ensures KeptForm(Splice(l, i, 1, [g]), add, sort)
  {
    SpliceForm(l, i, 1, g, sort);
  }

  lemma {:induction false} AddNew(l: seq<Extent>, i: nat, add: Extent, sort: bool, r: seq<Extent>)
    requires Addable(l, add, sort) && i <= |l|
    requires sort ==> i > 0 ==> l[i - 1].End() <= add.start
    requires sort ==> i < |l| ==> add.End() <= l[i].start
    requires sort && add.block == 0 ==> i > 0 ==> l[i - 1].End() < add.start
    requires sort && add.block == 0 ==> i < |l| ==> add.End() < l[i].start
    requires r == l[..i] + [add] + l[i..]
    ensures Added(l, add, r) && KeptForm(r, add, sort)
  {
    AddFresh(add);
    assert l[i..i + 0] == [];
    SpliceAdded(l, i, 0, [add], add);
    SpliceForm(l, i, 0, add, sort);
    assert r == Splice(l, i, 0, [add]);
  }

  /** `lc_addExtent`. A sorted list takes an extent it does not overlap; the list stays sorted
      and, for SPACE lists, fully coalesced. An unsorted list takes any SPACE extent. */
  method AddExtent(list: seq<Extent>, start: nat, block: nat, count: nat, sort: bool) returns (r: seq<Extent>)
    requires Form(list, block, sort) && count > 0 && (block != 0 ==> count <= EMAP_MAX)
    requires sort ==> Range(start, count) !! Keys(list)
    ensures Added(list, Extent(start, block, count), r)
    ensures Form(r, block, sort)
    ensures |r| <= |list| + 1
  {
    var add := Extent(start, block, count);
    FormIs(list, block, sort);
    var i := 0;
    while i < |list|
      invariant i <= |list|
      invariant !sort ==> i == 0
      invariant i > 0 ==> list[i - 1].End() < start
      decreases |list| - i
    {
      var e := list[i];
      if Adjacent(e, add) {
        r := MergeNext(list[i := e.(count := e.count + count)], i);
        AddAbove(list, i, add, sort, r);
        FormIs(r, block, sort);
        return;
      }
      if Adjacent(add, e) {
        r := list[i := Extent(start, block, e.count + count)];
        // lc_mergeExtents is called here with the extent itself as its predecessor, which never merges
        assert !Adjacent(r[i], r[i]);
        AddBefore(list, i, add, sort, r);
        FormIs(r, block, sort);
        return;
      }
      if !sort {
        break;
      }
      Clear(list, add, i);
      if start < e.start || (block != 0 && start + count == e.start) {
        break;
      }
      i := i + 1;
      if block != 0 && e.End() == start {
        if i < |list| {
          Clear(list, add, i);
        }
        break;
      }
    }
    r := list[..i] + [add] + list[i..];
    AddNew(list, i, add, sort, r);
    FormIs(r, block, sort);
  }

  // ----- lc_removeExtent -----

  /** Pages start, ..., start + n - 1 were taken off `l`, giving `r`. */
  ghost predicate Removed(l: seq<Extent>, start: nat, n: nat, r: seq<Extent>) {
    && Range(start, n) <= Keys(l)
    && Keys(r) == Keys(l) - Range(start, n)
    && Total(r) + n == Total(l)
    && forall p: nat :: Lookup(r, p) == if Within(p, start, n) then HOLE else Lookup(l, p)
  }

  /** Taking a stretch off one extent of a sorted list is undone by adding it back. */
  lemma {:induction false} CutOut(l: seq<Extent>, i: nat, start: nat, n: nat, mid: seq<Extent>)
    requires i < |l| && Sorted(l) && (forall j :: 0 <= j < |l| ==> l[j].count > 0)
    requires l[i].start <= start && start + n <= l[i].End()
    requires Removed([l[i]], start, n, mid)
    ensures Removed(l, start, n, Splice(l, i, 1, mid))
  {
    assert l[i..i + 1] == [l[i]];
    One(l[i]);
    SpliceSelf(l, i, 1);
    SpliceMeans(l, i, 1, mid);
    KeysBelow(l[..i], l[i].start);
    KeysBeyond(l[i + 1..], l[i].End());
    var r := Splice(l, i, 1, mid);
    forall p: nat ensures Lookup(r, p) == if Within(p, start, n) then HOLE else Lookup(l, p) {
      SpliceLookup(l, i, 1, mid, p);
      SpliceLookup(l, i, 1, [l[i]], p);
      LookupHole(l[i + 1..], p);
    }
  }

  /** `lc_updateExtent`: what is left of extent `e` without `freed` pages from `start`. */
  function Leftover(e: Extent, start: nat, freed: nat): seq<Extent>
    requires e.start <= start && start + freed <= e.End()
  {
    if e.start == start then
      if e.count == freed then []
      else [Extent(start + freed, if e.block == 0 then 0 else e.block + freed, e.count - freed)]
    else if start + freed == e.End() then
      [e.(count := e.count - freed)]
    else
      [e.(count := start - e.start),
       Extent(start + freed, if e.block == 0 then 0 else e.block + (start - e.start) + freed,
         e.End() - (start + freed))]
  }

  lemma {:induction false} LeftoverRemoved(e: Extent, start: nat, freed: nat)
    requires e.start <= start && start + freed <= e.End() && freed > 0
    ensures Removed([e], start, freed, Leftover(e, start, freed))
  {
    One(e);
    var mid := Leftover(e, start, freed);
    if |mid| == 1 {
      One(mid[0]);
    } else if |mid| == 2 {
      Two(mid[0], mid[1]);
    }
  }

  /** `lc_removeExtent`: takes off the list as much of start, ..., start + count - 1 as the extent
      holding `start` has, and says how much that is. */
  method RemoveExtent(list: seq<Extent>, start: nat, count: nat) returns (r: seq<Extent>, freed: nat)
    requires count > 0 && (Canonical(list) || EmapList(list))
    ensures freed <= count && (freed == 0 <==> start !in Keys(list))
    ensures Removed(list, start, freed, r)
    ensures Canonical(list) ==> Canonical(r)
    ensures EmapList(list) ==> EmapList(r)
    // the blocks taken off are contiguous, and in a coalesced list no more could have been taken
    ensures forall p :: start <= p < start + freed ==> Lookup(list, p) == Lookup(list, start) + (p - start)
    ensures Canonical(list) && 0 < freed < count ==> start + freed !in Keys(list)
  {
    r, freed := list, 0;
    var i := 0;
    while i < |list|
      invariant i <= |list|
      invariant r == list && freed == 0
      invariant i > 0 ==> list[i - 1].End() <= start
    {
      var e := list[i];
      if start < e.start {
        break;
      }
      if start < e.End() {
        freed := if e.End() - start > count then count else e.End() - start;
        r := Splice(list, i, 1, Leftover(e, start, freed));
        RemoveResult(list, i, start, count, freed, r);
        return;
      }
      i := i + 1;
    }
    CanonicalIs(list);
    EmapIs(list);
    NotFound(list, i, start);
  }

  lemma {:induction false} RemoveResult(list: seq<Extent>, i: nat, start: nat, count: nat, freed: nat, r: seq<Extent>)
    requires Canonical(list) || EmapList(list)
    requires i < |list| && list[i].start <= start < list[i].End()
    requires 0 < freed <= count && start + freed <= list[i].End() && (freed == count || start + freed == list[i].End())
    requires r == Splice(list, i, 1, Leftover(list[i], start, freed))
    ensures start in Keys(list) && Removed(list, start, freed, r)
    ensures Canonical(list) ==> Canonical(r)
    ensures EmapList(list) ==> EmapList(r)
    ensures forall p :: start <= p < start + freed ==> Lookup(list, p) == Lookup(list, start) + (p - start)
    ensures Canonical(list) && 0 < freed < count ==> start + freed !in Keys(list)
  {
    CanonicalIs(list);
    EmapIs(list);
    RemoveFound(list, i, start, count, freed, r);
    CanonicalIs(r);
    EmapIs(r);
    assert start in Range(start, freed);
  }

  lemma {:induction false} NotFound(l: seq<Extent>, i: nat, start: nat)
    requires Sorted(l) && (forall j :: 0 <= j < |l| ==> l[j].count > 0)
    requires i <= |l| && (i > 0 ==> l[i - 1].End() <= start) && (i < |l| ==> start < l[i].start)
    ensures start !in Keys(l)
    ensures Removed(l, start, 0, l)
  {
    if start in Keys(l) {
      var j := KeyIndex(l, start);
      assert false;
    }
  }

  lemma {:induction false} RemoveFound(l: seq<Extent>, i: nat, start: nat, count: nat, freed: nat, r: seq<Extent>)
    requires CanonicalItems(l) || EmapItems(l)
    requires i < |l| && l[i].start <= start < l[i].End()
    requires 0 < freed <= count && start + freed <= l[i].End()
    requires freed == count || start + freed == l[i].End()
    requires r == Splice(l, i, 1, Leftover(l[i], start, freed))
    ensures Removed(l, start, freed, r)
    ensures CanonicalItems(l) ==> CanonicalItems(r)
    ensures EmapItems(l) ==> EmapItems(r)
    ensures forall p :: start <= p < start + freed ==> Lookup(l, p) == Lookup(l, start) + (p - start)
    ensures CanonicalItems(l) && 0 < freed < count ==> start + freed !in Keys(l)
  {
    LeftoverRemoved(l[i], start, freed);
    CutOut(l, i, start, freed, Leftover(l[i], start, freed));
    if CanonicalItems(l) {
      RemoveCanonical(l, i, start, freed);
    }
    if EmapItems(l) {
      RemoveEmap(l, i, start, freed);
    }
    forall p | start <= p < start + freed ensures Lookup(l, p) == l[i].At(p) {
      LookupAt(l, i, p);
    }
    if CanonicalItems(l) && freed < count && start + freed in Keys(l) {
      var j := KeyIndex(l, start + freed);
      assert false;
    }
  }

  lemma {:induction false} LookupAt(l: seq<Extent>, i: nat, p: nat)
    requires Sorted(l) && (forall j :: 0 <= j < |l| ==> l[j].count > 0)
    requires i < |l| && l[i].start <= p < l[i].End()
    ensures Lookup(l, p) == l[i].At(p)
  {
    CutLookup(l, i, p);
    KeysBelow(l[..i], l[i].start);
  }

  lemma {:induction false} RemoveCanonical(l: seq<Extent>, i: nat, start: nat, freed: nat)
    requires i < |l| && l[i].start <= start && start + freed <= l[i].End() && freed > 0
    requires CanonicalItems(l)
    ensures CanonicalItems(Splice(l, i, 1, Leftover(l[i], start, freed)))
  {
    SpliceCanonical(l, i, 1, Leftover(l[i], start, freed));
  }

  lemma {:induction false} RemoveEmap(l: seq<Extent>, i: nat, start: nat, freed: nat)
    requires i < |l| && l[i].start <= start && start + freed <= l[i].End() && freed > 0
    requires EmapItems(l)
    ensures EmapItems(Splice(l, i, 1, Leftover(l[i], start, freed)))
  {
    SpliceEmap(l, i, 1, Leftover(l[i], start, freed));
  }

  // ----- SPACE lists as sets -----

  /** `lc_addSpaceExtent`. */
  method AddSpaceExtent(list: seq<Extent>, start: nat, count: nat, sort: bool) returns (r: seq<Extent>)
    requires count > 0 && if sort then Canonical(list) && Range(start, count) !! Keys(list) else Loose(list)
    ensures if sort then Canonical(r) else Loose(r)
    ensures Keys(r) == Keys(list) + Range(start, count) && Total(r) == Total(list) + count && |r| <= |list| + 1
  {
    r := AddExtent(list, start, 0, count, sort);
  }

  /** `lc_removeExtent` on a list of allocated space. */
  method RemoveSpaceExtent(list: seq<Extent>, start: nat, count: nat) returns (r: seq<Extent>, freed: nat)
    requires count > 0 && Canonical(list)
    ensures freed <= count && (freed == 0 <==> start !in Keys(list))
    ensures Range(start, freed) <= Keys(list) && Keys(r) == Keys(list) - Range(start, freed)
    ensures Canonical(r) && Total(r) + freed == Total(list)
    ensures 0 < freed < count ==> start + freed !in Keys(list)
  {
    r, freed := RemoveExtent(list, start, count);
  }

  // ----- Lists without overlap, in any order -----

  /** No block is listed twice. */
  predicate Apart(l: seq<Extent>) {
    l == [] || (Range(l[0].start, l[0].count) !! Keys(l[1..]) && Apart(l[1..]))
  }

  lemma {:induction false} ApartIs(l: seq<Extent>)
    ensures Apart(l) <==> |Keys(l)| == Total(l)
  {
    if l != [] {
      ApartIs(l[1..]);
      KeysSize(l[1..]);
      RangeSize(l[0].start, l[0].count);
      UnionSize(Range(l[0].start, l[0].count), Keys(l[1..]));
    }
  }

  lemma {:induction false} KeysSize(l: seq<Extent>)
    ensures |Keys(l)| <= Total(l)
  {
    if l != [] {
      KeysSize(l[1..]);
      RangeSize(l[0].start, l[0].count);
      UnionSize(Range(l[0].start, l[0].count), Keys(l[1..]));
    }
  }

  lemma UnionSize(a: set<nat>, b: set<nat>)
    ensures |a + b| + |a * b| == |a| + |b|
    ensures |a + b| == |a| + |b| ==> a !! b
  {
    assert a + b == a + (b - a);
    assert b == (b - a) + a * b;
  }

  lemma UnionOfThree(a: set<nat>, b: set<nat>, c: set<nat>)
    requires |a + b + c| == |a| + |b| + |c|
    ensures a !! b && b !! c && a !! c
  {
    UnionSize(a + b, c);
    UnionSize(a, b);
  }

  /** In a list without overlap, extent `i` shares no block with the extents before or after it. */
  lemma {:induction false} ApartAt(l: seq<Extent>, i: nat)
    requires i < |l| && Apart(l)
    ensures Keys(l[..i]) !! Range(l[i].start, l[i].count)
    ensures Keys(l[i + 1..]) !! Range(l[i].start, l[i].count)
    ensures Keys(l[..i]) !! Keys(l[i + 1..])
  {
    var a, b, c := Keys(l[..i]), Range(l[i].start, l[i].count), Keys(l[i + 1..]);
    ApartIs(l);
    Cut(l, i);
    KeysSize(l[..i]);
    KeysSize(l[i + 1..]);
    RangeSize(l[i].start, l[i].count);
    UnionSize(a + b, c);
    UnionSize(a, b);
    UnionOfThree(a, b, c);
  }

  lemma {:induction false} ApartAdded(l: seq<Extent>, add: Extent, r: seq<Extent>)
    requires Apart(l) && Range(add.start, add.count) !! Keys(l)
    requires Keys(r) == Keys(l) + Range(add.start, add.count) && Total(r) == Total(l) + add.count
    ensures Apart(r)
  {
    ApartIs(l);
    ApartIs(r);
    RangeSize(add.start, add.count);
  }

  /** Where the first extent of at least `count` blocks starts. */
  function FirstFit(list: seq<Extent>, count: nat): nat {
    if list == [] then 0 else if list[0].count >= count then list[0].start else FirstFit(list[1..], count)
  }

  lemma {:induction false} FirstFitIs(list: seq<Extent>, count: nat, i: nat)
    requires i < |list| && list[i].count >= count && forall j :: 0 <= j < i ==> list[j].count < count
    ensures FirstFit(list, count) == list[i].start
  {
    if i > 0 {
      FirstFitIs(list[1..], count, i - 1);
    }
  }

  /** The first-fit search of `lc_allocateBlock` and `lc_processFreeExtents`: takes `count` blocks
      off the front of the first extent that is large enough. */
  method TakeFirst(list: seq<Extent>, count: nat) returns (r: seq<Extent>, found: bool, block: nat)
    requires Loose(list) && Apart(list) && count > 0
    ensures found <==> exists e :: e in list && e.count >= count
    ensures !found ==> r == list
    ensures found ==> block == FirstFit(list, count)
    ensures found ==> Range(block, count) <= Keys(list) && Keys(r) == Keys(list) - Range(block, count)
    ensures found ==> Total(r) + count == Total(list) && Apart(r) && Loose(r)
    ensures found ==> |list| - 1 <= |r| <= |list|
    ensures found && Canonical(list) ==> Canonical(r) && (block > 0 ==> block - 1 !in Keys(list))
  {
    LooseIs(list);
    r, found, block := list, false, 0;
    var i := 0;
    while i < |list|
      invariant i <= |list| && r == list && !found
      invariant forall j :: 0 <= j < i ==> list[j].count < count
    {
      var e := list[i];
      if e.count >= count {
        found, block := true, e.start;
        r := Splice(list, i, 1, Leftover(e, e.start, count));
        TakeResult(list, i, count, r);
        FirstFitIs(list, count, i);
        return;
      }
      i := i + 1;
    }
  }

  lemma {:induction false} TakeResult(list: seq<Extent>, i: nat, count: nat, r: seq<Extent>)
    requires Loose(list) && Apart(list) && count > 0 && i < |list| && list[i].count >= count
    requires r == Splice(list, i, 1, Leftover(list[i], list[i].start, count))
    ensures var block := list[i].start;
            && Range(block, count) <= Keys(list) && Keys(r) == Keys(list) - Range(block, count)
            && Total(r) + count == Total(list) && Apart(r) && Loose(r) && |list| - 1 <= |r| <= |list|
            && (Canonical(list) ==> Canonical(r) && (block > 0 ==> block - 1 !in Keys(list)))
  {
    var e := list[i];
    LooseIs(list);
    TakeAt(list, i, count, r);
    LooseSplice(list, i, Leftover(e, e.start, count));
    LooseIs(r);
    if Canonical(list) {
      CanonicalIs(list);
      RemoveCanonical(list, i, e.start, count);
      CanonicalIs(r);
      if e.start > 0 {
        FrontOfExtent(list, i);
      }
    }
  }

  lemma {:induction false} FrontOfExtent(l: seq<Extent>, i: nat)
    requires CanonicalItems(l) && i < |l| && l[i].start > 0
    ensures l[i].start - 1 !in Keys(l)
  {
    if l[i].start - 1 in Keys(l) {
      var j := KeyIndex(l, l[i].start - 1);
      assert false;
    }
  }

  lemma {:induction false} TakeAt(l: seq<Extent>, i: nat, count: nat, r: seq<Extent>)
    requires LooseItems(l) && Apart(l) && i < |l| && 0 < count <= l[i].count
    requires r == Splice(l, i, 1, Leftover(l[i], l[i].start, count))
    ensures Range(l[i].start, count) <= Keys(l) && Keys(r) == Keys(l) - Range(l[i].start, count)
    ensures Total(r) + count == Total(l) && Apart(r)
  {
    var e := l[i];
    var mid := Leftover(e, e.start, count);
    LeftoverRemoved(e, e.start, count);
    One(e);
    ApartAt(l, i);
    Cut(l, i);
    SpliceMeans(l, i, 1, mid);
    RangeSize(e.start, count);
    SetsTake(Keys(l[..i]), Range(e.start, e.count), Keys(l[i + 1..]), Range(e.start, count), Keys(mid));
    ApartIs(l);
    ApartIs(r);
  }

  lemma {:induction false} LooseSplice(l: seq<Extent>, i: nat, mid: seq<Extent>)
    requires LooseItems(l) && LooseItems(mid) && i < |l|
    ensures LooseItems(Splice(l, i, 1, mid))
  {
    LooseConcat(l[..i], mid);
    LooseConcat(l[..i] + mid, l[i + 1..]);
  }

  lemma {:induction false} LooseConcat(a: seq<Extent>, b: seq<Extent>)
    requires LooseItems(a) && LooseItems(b)
    ensures LooseItems(a + b)
  {
  }

  lemma SetsTake(a: set<nat>, b: set<nat>, c: set<nat>, x: set<nat>, m: set<nat>)
    requires a !! b && c !! b && x <= b && m == b - x
    ensures x <= a + b + c && a + m + c == (a + b + c) - x
    ensures |a + m + c| == |a + b + c| - |x|
  {
    assert a + b + c == (a + m + c) + x;
  }

  /** The loop of `lc_blockFreeExtents` and `lc_processFreeExtents` that adds every extent of one
      list to a sorted pool. */
  method AddAll(pool: seq<Extent>, list: seq<Extent>) returns (r: seq<Extent>)
    requires Canonical(pool) && Loose(list) && Apart(list) && Keys(pool) !! Keys(list)
    ensures Canonical(r) && Keys(r) == Keys(pool) + Keys(list) && Total(r) == Total(pool) + Total(list)
    ensures |r| <= |pool| + |list|
  {
    r := pool;
    var rest := list;
    while rest != []
      invariant Canonical(r) && Loose(rest) && Apart(rest) && Keys(r) !! Keys(rest)
      invariant Keys(r) + Keys(rest) == Keys(pool) + Keys(list)
      invariant Total(r) + Total(rest) == Total(pool) + Total(list)
      invariant |r| + |rest| <= |pool| + |list|
    {
      Shift(Keys(r), Range(rest[0].start, rest[0].count), Keys(rest[1..]));
      r := AddSpaceExtent(r, rest[0].start, rest[0].count, true);
      rest := rest[1..];
    }
  }

  lemma Shift(a: set<nat>, h: set<nat>, t: set<nat>)
    requires a !! h + t && h !! t
    ensures a !! h && (a + h) !! t && (a + h) + t == a + (h + t)
  {
  }
}
