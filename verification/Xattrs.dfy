/**
  * Extended attributes of an inode (lcfs/xattr.c): a list of names and values with the total length of the names,
  * written to blocks that are packed like those of a directory.
  */
module Xattrs {
  import B = Blocks
  import Packing

  type Bytes = seq<int>

  /** `struct xattr`. */
  datatype Attr = Attr(name: Bytes, value: Bytes)

  datatype Error = EEXIST | ENODATA

  datatype Flag = Any | Create | Replace   // 0, XATTR_CREATE, XATTR_REPLACE

  const DXATTR_SIZE: nat := 4

  /** What an attribute takes in a block. */
  function AttrSize(a: Attr): nat {
    4 + |a.name| + |a.value|
  }

  function Find(l: seq<Attr>, name: Bytes): B.Option<Bytes> {
    if l == [] then B.None else if l[0].name == name then B.Some(l[0].value) else Find(l[1..], name)
  }

  /** The length of all names, each with its final zero. */
  function NameSize(l: seq<Attr>): nat {
    if l == [] then 0 else |l[0].name| + 1 + NameSize(l[1..])
  }

  /** No name twice, none empty. */
  predicate Unique(l: seq<Attr>) {
    l == [] || (l[0].name != [] && Find(l[1..], l[0].name).None? && Unique(l[1..]))
  }

  lemma {:induction false} FindConcat(a: seq<Attr>, b: seq<Attr>, name: Bytes)
    ensures Find(a + b, name) == if Find(a, name).Some? then Find(a, name) else Find(b, name)
    ensures NameSize(a + b) == NameSize(a) + NameSize(b)
  {
    if a == [] {
      assert a + b == b;
    } else {
      assert (a + b)[1..] == a[1..] + b;
      FindConcat(a[1..], b, name);
    }
  }

  lemma {:induction false} UniqueConcat(a: seq<Attr>, b: seq<Attr>)
    requires Unique(a + b)
    ensures Unique(a) && Unique(b) && forall n: Bytes {:trigger Find(a, n)} :: Find(a, n).Some? ==> Find(b, n).None?
  {
    if a == [] {
      assert a + b == b;
    } else {
      assert (a + b)[1..] == a[1..] + b;
      UniqueConcat(a[1..], b);
      FindConcat(a[1..], b, a[0].name);
    }
  }

  lemma {:induction false} UniqueAt(l: seq<Attr>, k: nat)
    requires Unique(l) && k < |l|
    ensures Find(l[..k], l[k].name).None? && l[k].name != [] && Find(l, l[k].name) == B.Some(l[k].value)
    ensures NameSize(l[..k + 1]) == NameSize(l[..k]) + |l[k].name| + 1
    ensures forall n: Bytes {:trigger Find(l[..k + 1], n)} ::
              Find(l[..k + 1], n) == if n == l[k].name then B.Some(l[k].value) else Find(l[..k], n)
  {
    assert l == l[..k] + l[k..] && l[k..][0] == l[k] && l[..k + 1] == l[..k] + [l[k]] && [l[k]][1..] == [];
    UniqueConcat(l[..k], l[k..]);
    assert Find(l[k..], l[k].name) == B.Some(l[k].value);
    FindConcat(l[..k], l[k..], l[k].name);
    forall n: Bytes ensures Find(l[..k + 1], n) == if n == l[k].name then B.Some(l[k].value) else Find(l[..k], n) {
      FindConcat(l[..k], [l[k]], n);
    }
    FindConcat(l[..k], [l[k]], []);
  }

  /** Replacing or removing the attribute at position `k`. */
  lemma {:induction false} ChangeAt(l: seq<Attr>, k: nat, value: Bytes, n: Bytes)
    requires Unique(l) && k < |l|
    ensures Unique(l[k := Attr(l[k].name, value)]) && NameSize(l[k := Attr(l[k].name, value)]) == NameSize(l)
    ensures Find(l[k := Attr(l[k].name, value)], n) == if n == l[k].name then B.Some(value) else Find(l, n)
    ensures Unique(l[..k] + l[k + 1..]) && NameSize(l[..k] + l[k + 1..]) == NameSize(l) - |l[k].name| - 1
    ensures Find(l[..k] + l[k + 1..], n) == if n == l[k].name then B.None else Find(l, n)
  {
    if k == 0 {
      assert l[k := Attr(l[k].name, value)][1..] == l[1..] && l[..0] + l[1..] == l[1..];
    } else {
      ChangeAt(l[1..], k - 1, value, n);
      ChangeAt(l[1..], k - 1, value, l[0].name);
      UniqueAt(l[1..], k - 1);
      assert l[k := Attr(l[k].name, value)][1..] == l[1..][k - 1 := Attr(l[k].name, value)];
      var cut := l[..k] + l[k + 1..];
      assert cut[1..] == l[1..][..k - 1] + l[1..][k..];
    }
  }

  /** What `lc_xattrLink` asserts of an attribute. */
  predicate Short(a: Attr) {
    |a.name| < 4096 && |a.value| < 4096
  }

  ghost predicate AllShort(l: seq<Attr>) {
    forall i {:trigger l[i]} :: 0 <= i < |l| ==> Short(l[i])
  }

  /** One list has the attributes of another. */
  ghost predicate Same(l: seq<Attr>, m: seq<Attr>) {
    forall n: Bytes {:trigger Find(l, n)} {:trigger Find(m, n)} :: Find(l, n) == Find(m, n)
  }

  class Xattr {
    var list: seq<Attr>   // i_xattr
    var xsize: nat        // i_xsize

    ghost predicate Valid()
      reads this
    {
      Unique(list) && xsize == NameSize(list)
    }

    ghost function Value(name: Bytes): B.Option<Bytes>
      reads this
    {
      Find(list, name)
    }

    constructor ()
      ensures Valid() && list == []
    {
      list, xsize := [], 0;
    }

    /** The walk to a name. */
    method Walk(name: Bytes) returns (k: nat)
      ensures k <= |list| && (k < |list| <==> Value(name).Some?)
      ensures (k < |list| ==> list[k].name == name && Value(name) == B.Some(list[k].value))
    {
      k := 0;
      assert list[0..] == list;
      while k < |list| && list[k].name != name
        invariant k <= |list| && Find(list[k..], name) == Find(list, name)
      {
        assert list[k..][1..] == list[k + 1..];
        k := k + 1;
      }
    }

    /** `lc_xattrLink`; `ok` tells that its asserts hold. */
    method Link(name: Bytes, value: Bytes) returns (ok: bool)
      requires Valid() && name != [] && Value(name).None?
      modifies this
      ensures Valid() && list == [Attr(name, value)] + old(list) && ok == Short(Attr(name, value))
    {
      ok := |name| < 4096 && |value| < 4096;
      list := [Attr(name, value)] + list;
      xsize := xsize + |name| + 1;
      assert list[1..] == old(list);
    }

    /** `lc_xattrAdd`; `ok` tells that no assert fails. The size of a value that replaces another is not checked. */
    method Set(name: Bytes, value: Bytes, flag: Flag) returns (err: B.Option<Error>, ok: bool)
      requires Valid() && name != []
      modifies this
      ensures Valid()
      ensures err == if old(Value(name)).Some? && flag == Create then B.Some(EEXIST)
                     else if old(Value(name)).None? && flag == Replace then B.Some(ENODATA) else B.None
      ensures forall n: Bytes {:trigger Value(n)} ::
                Value(n) == if n == name && err.None? then B.Some(value) else old(Value(n))
      ensures ok <==> old(Value(name)).Some? || err.Some? || Short(Attr(name, value))
      ensures ok && |value| < 4096 && old(AllShort(list)) ==> AllShort(list)
    {
      var k := Walk(name);
      err, ok := B.None, true;
      if k < |list| {
        if flag == Create {
          err := B.Some(EEXIST);
        } else {
          forall n: Bytes
            ensures Find(list[k := Attr(name, value)], n) == if n == name then B.Some(value) else Find(list, n)
          {
            ChangeAt(list, k, value, n);
          }
          ChangeAt(list, k, value, []);
          assert list[k].name == name;
          list := list[k := Attr(name, value)];
        }
      } else if flag == Replace {
        err := B.Some(ENODATA);
      } else {
        ok := Link(name, value);
        assert list[1..] == old(list);
      }
    }

    /** `lc_xattrRemove`. */
    method Remove(name: Bytes) returns (err: B.Option<Error>)
      requires Valid()
      modifies this
      ensures Valid() && err == if old(Value(name)).Some? then B.None else B.Some(ENODATA)
      ensures forall n: Bytes {:trigger Value(n)} :: Value(n) == if n == name then B.None else old(Value(n))
    {
      var k := Walk(name);
      if k == |list| {
        return B.Some(ENODATA);
      }
      forall n: Bytes ensures Find(list[..k] + list[k + 1..], n) == if n == name then B.None else Find(list, n) {
        ChangeAt(list, k, [], n);
      }
      ChangeAt(list, k, [], []);
      list, xsize := list[..k] + list[k + 1..], xsize - (|name| + 1);
      err := B.None;
    }

    /** `lc_xattrCopy`: the attributes of a parent, in the opposite order. */
    method Copy(parent: Xattr) returns (ok: bool)
      requires parent != this && Valid() && list == [] && parent.Valid()
      modifies this
      ensures Valid() && Same(list, parent.list) && (ok <==> AllShort(parent.list))
    {
      ok := Reload(parent.list);
    }

    /** Links the attributes of `l` one by one. */
    method Reload(l: seq<Attr>) returns (ok: bool)
      requires Valid() && list == [] && Unique(l)
      modifies this
      ensures Valid() && Same(list, l) && xsize == NameSize(l) && (ok <==> AllShort(l))
    {
      ok := true;
      var k := 0;
      assert l[..0] == [];
      while k < |l|
        invariant k <= |l| && Valid() && Same(list, l[..k]) && xsize == NameSize(l[..k])
        invariant ok <==> forall i {:trigger l[i]} :: 0 <= i < k ==> Short(l[i])
      {
        UniqueAt(l, k);
        ghost var was := list;
        assert Find(was, l[k].name).None?;
        var short := Link(l[k].name, l[k].value);
        ok := ok && short;
        assert list[1..] == was;
        k := k + 1;
      }
      assert l[..k] == l;
    }

    /** `lc_xattrFlush`: the pages, newest first. No page is written beyond its end if and only if every attribute fits
        in one. */
    method Pack() returns (pages: seq<seq<Attr>>)
      requires Valid()
      ensures Packing.Unpacked(pages) == list && (Packing.PagesFit(AttrSize, pages) <==> Packing.AllFit(AttrSize, list))
    {
      pages := [];
      var k, remain: int, size: int := 0, 0, xsize;
      assert list[..0] == [];
      while k < |list|
        invariant k <= |list| && Packing.Packed(AttrSize, pages, remain, list[..k])
        invariant size == xsize - NameSize(list[..k])
      {
        UniqueAt(list, k);
        assert list[..k + 1] == list[..k] + [list[k]];
        pages, remain := Packing.Append(AttrSize, pages, remain, list[k], list[..k]);
        size := size - (|list[k].name| + 1);
        k := k + 1;
      }
      assert list[..k] == list;
      assert size == 0;
    }

    /** Flushing the attributes to new blocks and reading them back gives the same names, values and total. */
    method Remount(disk: map<nat, Packing.PBlock<Attr>>, alloc: nat -> nat) returns (x: Xattr, ok: bool)
      requires Valid() && Packing.AllFit(AttrSize, list)
      requires forall n: nat {:trigger alloc(n)} :: alloc(n) + n <= B.INVALID_BLOCK
      ensures fresh(x) && x.Valid() && Same(x.list, list) && x.xsize == xsize && ok
    {
      var pages := Pack();
      var disk', head := disk, B.INVALID_BLOCK;
      if |pages| > 0 {
        head := alloc(|pages|);
        disk' := Packing.FlushBlocks(disk, head, pages);
      }
      AllNamed(list);
      var l := Packing.ReadChain(AttrSize, DXATTR_SIZE, disk', head, alloc(|pages|), pages);
      x := new Xattr();
      forall i | 0 <= i < |list| ensures Short(list[i]) {
        assert list[i] in list;
      }
      ok := x.Reload(l);
    }
  }

  lemma AllNamed(l: seq<Attr>)
    requires Unique(l)
    ensures forall a {:trigger AttrSize(a)} :: a in l ==> AttrSize(a) > 4
  {
    forall a | a in l ensures AttrSize(a) > 4 {
      var k :| 0 <= k < |l| && l[k] == a;
      UniqueAt(l, k);
    }
  }

  /** A name and a value that are accepted, because each is shorter than a block, and then do not fit a page. */
  method AcceptedButTooLarge() returns (x: Xattr, pages: seq<seq<Attr>>)
    ensures x.Valid() && AllShort(x.list) && Packing.Unpacked(pages) == x.list && !Packing.PagesFit(AttrSize, pages)
  {
    x := new Xattr();
    var name, value: Bytes := seq(100, _ => 97), seq(4000, _ => 0);
    var err, ok := x.Set(name, value, Any);
    assert err.None? && ok && x.Value(name) == B.Some(value);
    FindIn(x.list, name);
    pages := x.Pack();
  }

  lemma {:induction false} FindIn(l: seq<Attr>, name: Bytes)
    requires Find(l, name).Some?
    ensures Attr(name, Find(l, name).value) in l
  {
    if l[0].name != name {
      FindIn(l[1..], name);
    }
  }

  /** A value that replaces another is not checked; a copy of it in a clone fails the assert. */
  method ReplacedButTooLarge() returns (x: Xattr, accepted: bool, copied: bool)
    ensures x.Valid() && accepted && !copied
  {
    x := new Xattr();
    var name, value: Bytes := [97], seq(5000, _ => 0);
    var err, ok := x.Set(name, [0], Any);
    err, accepted := x.Set(name, value, Any);
    assert err.None? && x.Value(name) == B.Some(value);
    FindIn(x.list, name);
    var clone := new Xattr();
    copied := clone.Copy(x);
  }
}
