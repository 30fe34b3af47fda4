/**
  * Directories (lcfs/dir.c): a list of entries, or a hash table of 512 such lists once there are 32 entries. Both stand
  * for one map from names to inodes.
  */
module Dirs {
  import B = Blocks
  import Packing

  /** The characters of a file name, without the final zero. */
  type Name = seq<int>

  /** `struct dirent`. The mode is the file type alone. */
  datatype Dirent = Dirent(ino: nat, mode: nat, name: Name, index: nat)

  type Lists = seq<seq<Dirent>>

  const DIRCACHE_MIN: nat := 32
  const S_IFDIR: nat := 0x4000
  const S_IFREG: nat := 0x8000
  const INDEXES: nat := 0x1_0000_0000   // 1 << LC_DIRHASH_SHIFT

  // ----- Names -----

  function HashSum(name: Name, n: nat): (h: nat)
    requires n <= |name|
    ensures h < 0x1_0000_0000
  {
    if n == 0 then 0 else (HashSum(name, n - 1) + name[n - 1]) % 0x1_0000_0000
  }

  function HashOf(name: Name): (h: nat)
    ensures h < 512
  {
    (HashSum(name, if |name| > 10 then 10 else |name|) + |name|) % 512
  }

  /** `lc_dirhash`. */
  method DirHash(name: Name) returns (hash: nat)
    ensures hash == HashOf(name)
  {
    var size := if |name| > 10 then 10 else |name|;
    var sum := 0;
    for i := 0 to size
      invariant sum == HashSum(name, i)
    {
      sum := (sum + name[i]) % 0x1_0000_0000;
    }
    hash := (sum + |name|) % 512;
  }

  // ----- Lists -----

  /** The entry of a name. */
  function Find(l: seq<Dirent>, name: Name): B.Option<Dirent> {
    if l == [] then B.None else if l[0].name == name then B.Some(l[0]) else Find(l[1..], name)
  }

  function Dirness(mode: nat): nat {
    if mode == S_IFDIR then 1 else 0
  }

  /** The number of subdirectories. */
  function Subdirs(l: seq<Dirent>): nat {
    if l == [] then 0 else Dirness(l[0].mode) + Subdirs(l[1..])
  }

  function TopIndex(l: seq<Dirent>): nat {
    if l == [] then 0 else l[0].index
  }

  /** The list in which a name belongs. */
  function ListFor(hashed: bool, name: Name): nat {
    if hashed then HashOf(name) else 0
  }

  /** List `i` of a directory: every name once and in its place, indices descending. */
  predicate Good(l: seq<Dirent>, hashed: bool, i: nat) {
    l == [] ||
    (&& l[0].index > TopIndex(l[1..]) && Find(l[1..], l[0].name).None? && ListFor(hashed, l[0].name) == i
     && l[0].ino > 1 && 0 < |l[0].name| <= 255
     && Good(l[1..], hashed, i))
  }

  lemma {:induction false} FindIn(l: seq<Dirent>, hashed: bool, i: nat, e: Dirent)
    requires Good(l, hashed, i)
    ensures e in l <==> Find(l, e.name) == B.Some(e)
  {
    if l != [] {
      FindIn(l[1..], hashed, i, e);
      assert e in l <==> e == l[0] || e in l[1..];
    }
  }

  lemma {:induction false} FindName(l: seq<Dirent>, name: Name)
    ensures Find(l, name).Some? ==> Find(l, name).value.name == name && Find(l, name).value in l
  {
    if l != [] {
      FindName(l[1..], name);
    }
  }

  lemma {:induction false} Misplaced(l: seq<Dirent>, hashed: bool, i: nat, name: Name)
    requires Good(l, hashed, i) && ListFor(hashed, name) != i
    ensures Find(l, name).None?
  {
    if l != [] {
      Misplaced(l[1..], hashed, i, name);
    }
  }

  lemma {:induction false} FindConcat(a: seq<Dirent>, b: seq<Dirent>, name: Name)
    ensures Find(a + b, name) == if Find(a, name).Some? then Find(a, name) else Find(b, name)
  {
    if a == [] {
      assert a + b == b;
    } else {
      assert (a + b)[1..] == a[1..] + b;
      FindConcat(a[1..], b, name);
    }
  }

  lemma {:induction false} Earlier(l: seq<Dirent>, hashed: bool, i: nat, k: nat)
    requires Good(l, hashed, i) && k < |l|
    ensures Find(l[..k], l[k].name).None? && l[k].ino > 1 && 0 < |l[k].name| <= 255
  {
    if k > 0 {
      Earlier(l[1..], hashed, i, k - 1);
      assert l[..k][1..] == l[1..][..k - 1];
      FindIn(l[1..], hashed, i, l[k]);
    }
  }

  // ----- Removing and renaming in a list -----

  function Removed(l: seq<Dirent>, name: Name): seq<Dirent> {
    if l == [] then [] else if l[0].name == name then l[1..] else [l[0]] + Removed(l[1..], name)
  }

  lemma {:induction false} RemovedIs(l: seq<Dirent>, hashed: bool, i: nat, name: Name, n: Name)
    requires Good(l, hashed, i) && Find(l, name).Some?
    ensures Good(Removed(l, name), hashed, i) && TopIndex(Removed(l, name)) <= TopIndex(l)
    ensures |Removed(l, name)| == |l| - 1 && Subdirs(Removed(l, name)) == Subdirs(l) - Dirness(Find(l, name).value.mode)
    ensures Find(Removed(l, name), n) == if n == name then B.None else Find(l, n)
  {
    if l[0].name != name {
      RemovedIs(l[1..], hashed, i, name, n);
      RemovedIs(l[1..], hashed, i, name, l[0].name);
      assert Removed(l, name)[1..] == Removed(l[1..], name);
    }
  }

  /** The walk of `lc_dirRemove` and `lc_dirRename` to a name; the source asserts that it is there. */
  method Walk(l: seq<Dirent>, name: Name) returns (k: nat)
    requires Find(l, name).Some?
    ensures k < |l| && l[k] == Find(l, name).value && l[k].name == name
    ensures l[..k] + l[k + 1..] == Removed(l, name) && forall j :: 0 <= j < k ==> l[j].name != name
  {
    k := 0;
    assert l[0..] == l && l[..0] + Removed(l, name) == Removed(l, name);
    while l[k].name != name
      invariant k < |l| && Find(l[k..], name) == Find(l, name) && l[..k] + Removed(l[k..], name) == Removed(l, name)
      invariant forall j :: 0 <= j < k ==> l[j].name != name
      decreases |l| - k
    {
      assert l[k..][1..] == l[k + 1..];
      assert l[..k] + ([l[k]] + Removed(l[k + 1..], name)) == l[..k + 1] + Removed(l[k + 1..], name);
      k := k + 1;
    }
    assert l[k..][1..] == l[k + 1..];
  }

  function Renamed(l: seq<Dirent>, name: Name, name': Name): seq<Dirent> {
    if l == [] then [] else if l[0].name == name then [l[0].(name := name')] + l[1..]
      else [l[0]] + Renamed(l[1..], name, name')
  }

  lemma {:induction false} RenamedIs(l: seq<Dirent>, hashed: bool, i: nat, name: Name, name': Name, n: Name)
    requires Good(l, hashed, i) && Find(l, name).Some? && Find(l, name').None?
    requires ListFor(hashed, name') == i && 0 < |name'| <= 255
    ensures Good(Renamed(l, name, name'), hashed, i) && TopIndex(Renamed(l, name, name')) == TopIndex(l)
    ensures |Renamed(l, name, name')| == |l| && Subdirs(Renamed(l, name, name')) == Subdirs(l)
    ensures Find(Renamed(l, name, name'), n) ==
            if n == name' then B.Some(Find(l, name).value.(name := name')) else if n == name then B.None else Find(l, n)
  {
    if l[0].name != name {
      RenamedIs(l[1..], hashed, i, name, name', n);
      RenamedIs(l[1..], hashed, i, name, name', l[0].name);
      assert Renamed(l, name, name')[1..] == Renamed(l[1..], name, name');
    } else {
      assert Renamed(l, name, name')[1..] == l[1..];
    }
  }

  lemma {:induction false} RenamedAt(l: seq<Dirent>, name: Name, name': Name, k: nat)
    requires k < |l| && l[k].name == name && forall j :: 0 <= j < k ==> l[j].name != name
    ensures Renamed(l, name, name') == l[k := l[k].(name := name')]
  {
    if k > 0 {
      RenamedAt(l[1..], name, name', k - 1);
    }
  }

  // ----- Tables -----

  function Width(hashed: bool): nat {
    if hashed then 512 else 1
  }

  ghost predicate Proper(lists: Lists, hashed: bool) {
    |lists| == Width(hashed) && forall i {:trigger lists[i]} :: 0 <= i < |lists| ==> Good(lists[i], hashed, i)
  }

  function Look(lists: Lists, hashed: bool, name: Name): B.Option<Dirent>
    requires |lists| == Width(hashed)
  {
    Find(lists[ListFor(hashed, name)], name)
  }

  /** What a name stands for. */
  datatype Target = Target(ino: nat, mode: nat)

  function Means(o: B.Option<Dirent>): B.Option<Target> {
    if o.Some? then B.Some(Target(o.value.ino, o.value.mode)) else B.None
  }

  function Total(lists: Lists): nat {
    if lists == [] then 0 else |lists[0]| + Total(lists[1..])
  }

  function SubdirTotal(lists: Lists): nat {
    if lists == [] then 0 else Subdirs(lists[0]) + SubdirTotal(lists[1..])
  }

  lemma {:induction false} TotalPut(lists: Lists, i: nat, l: seq<Dirent>)
    requires i < |lists|
    ensures Total(lists[i := l]) == Total(lists) - |lists[i]| + |l|
    ensures SubdirTotal(lists[i := l]) == SubdirTotal(lists) - Subdirs(lists[i]) + Subdirs(l)
  {
    if i == 0 {
      assert lists[i := l][1..] == lists[1..];
    } else {
      assert lists[i := l][1..] == lists[1..][i - 1 := l];
      TotalPut(lists[1..], i - 1, l);
    }
  }

  lemma {:induction false} TotalSplit(lists: Lists, i: nat)
    requires i <= |lists|
    ensures Total(lists) == Total(lists[..i]) + Total(lists[i..])
  {
    if i == 0 {
      assert lists[0..] == lists;
    } else {
      TotalSplit(lists[1..], i - 1);
      assert lists[..i][1..] == lists[1..][..i - 1] && lists[i..] == lists[1..][i - 1..];
    }
  }

  /** Every entry but that of `name` is where it was. */
  ghost predicate Stays(lists: Lists, lists': Lists, name: Name) {
    |lists'| == |lists| && forall i, e {:trigger e in lists[i]} ::
      0 <= i < |lists| && e in lists[i] && e.name != name ==> e in lists'[i]
  }

  lemma PutList(lists: Lists, hashed: bool, i: nat, l: seq<Dirent>)
    requires Proper(lists, hashed) && i < |lists| && Good(l, hashed, i)
    ensures Proper(lists[i := l], hashed) && Total(lists[i := l]) == Total(lists) - |lists[i]| + |l|
    ensures SubdirTotal(lists[i := l]) == SubdirTotal(lists) - Subdirs(lists[i]) + Subdirs(l)
  {
    TotalPut(lists, i, l);
  }

  /** No index is above `n`. */
  ghost predicate IndexedBy(lists: Lists, n: nat) {
    forall i {:trigger lists[i]} :: 0 <= i < |lists| ==> TopIndex(lists[i]) <= n
  }

  /** The highest index of a list grows by one at most. */
  ghost predicate Rises(lists: Lists, lists': Lists) {
    |lists'| == |lists| && forall i {:trigger lists'[i]} ::
      0 <= i < |lists| ==> TopIndex(lists'[i]) <= TopIndex(lists[i]) + 1
  }

  /** `lc_dirAdd` once the directory has its form. */
  method AddTo(lists: Lists, hashed: bool, ino: nat, mode: nat, name: Name) returns (lists': Lists)
    requires Proper(lists, hashed) && ino > 1 && 0 < |name| <= 255 && Look(lists, hashed, name).None?
    ensures Proper(lists', hashed) && Total(lists') == Total(lists) + 1 && Stays(lists, lists', name)
    ensures SubdirTotal(lists') == SubdirTotal(lists) + Dirness(mode) && Rises(lists, lists')
    ensures forall n: Name {:trigger Look(lists', hashed, n)} ::
              if n == name then Means(Look(lists', hashed, n)) == B.Some(Target(ino, mode))
                else Look(lists', hashed, n) == Look(lists, hashed, n)
  {
    var h := 0;
    if hashed {
      h := DirHash(name);
    }
    var l := lists[h];
    var e := Dirent(ino, mode, name, TopIndex(l) + 1);
    lists' := lists[h := [e] + l];
    assert ([e] + l)[1..] == l;
    PutList(lists, hashed, h, [e] + l);
  }

  /** `lc_dirRemove`. */
  method RemoveFrom(lists: Lists, hashed: bool, name: Name) returns (lists': Lists)
    requires Proper(lists, hashed) && Look(lists, hashed, name).Some?
    ensures Proper(lists', hashed) && Total(lists') == Total(lists) - 1 && Stays(lists, lists', name)
    ensures SubdirTotal(lists') == SubdirTotal(lists) - Dirness(Look(lists, hashed, name).value.mode)
    ensures forall n: Name {:trigger Look(lists', hashed, n)} ::
              Look(lists', hashed, n) == if n == name then B.None else Look(lists, hashed, n)
  {
    var h := 0;
    if hashed {
      h := DirHash(name);
    }
    var l := lists[h];
    var k := Walk(l, name);
    RemovedAll(l, hashed, h, name);
    lists' := lists[h := l[..k] + l[k + 1..]];
    PutList(lists, hashed, h, Removed(l, name));
  }

  lemma RemovedAll(l: seq<Dirent>, hashed: bool, i: nat, name: Name)
    requires Good(l, hashed, i) && Find(l, name).Some?
    ensures Good(Removed(l, name), hashed, i) && |Removed(l, name)| == |l| - 1
    ensures Subdirs(Removed(l, name)) == Subdirs(l) - Dirness(Find(l, name).value.mode)
    ensures forall n: Name {:trigger Find(Removed(l, name), n)} ::
              Find(Removed(l, name), n) == if n == name then B.None else Find(l, n)
    ensures forall e {:trigger e in Removed(l, name)} :: e in l && e.name != name ==> e in Removed(l, name)
  {
    RemovedIs(l, hashed, i, name, name);
    forall n: Name ensures Find(Removed(l, name), n) == if n == name then B.None else Find(l, n) {
      RemovedIs(l, hashed, i, name, n);
    }
    forall e | e in l && e.name != name ensures e in Removed(l, name) {
      Kept(l, Removed(l, name), hashed, i, e);
    }
  }

  /** An entry of a list whose lookup has not changed is still there. */
  lemma Kept(l: seq<Dirent>, l': seq<Dirent>, hashed: bool, i: nat, e: Dirent)
    requires Good(l, hashed, i) && Good(l', hashed, i) && Find(l', e.name) == Find(l, e.name)
    ensures e in l ==> e in l'
  {
    FindIn(l, hashed, i, e);
    FindIn(l', hashed, i, e);
  }

  lemma RenamedAll(l: seq<Dirent>, hashed: bool, i: nat, name: Name, name': Name)
    requires Good(l, hashed, i) && Find(l, name).Some? && Find(l, name').None?
    requires ListFor(hashed, name') == i && 0 < |name'| <= 255
    ensures Good(Renamed(l, name, name'), hashed, i) && |Renamed(l, name, name')| == |l|
    ensures Subdirs(Renamed(l, name, name')) == Subdirs(l)
    ensures forall n: Name {:trigger Find(Renamed(l, name, name'), n)} :: Find(Renamed(l, name, name'), n) ==
              if n == name' then B.Some(Find(l, name).value.(name := name')) else if n == name then B.None
                else Find(l, n)
    ensures forall e {:trigger e in Renamed(l, name, name')} :: e in l && e.name != name ==>
              e in Renamed(l, name, name')
  {
    var r := Renamed(l, name, name');
    RenamedIs(l, hashed, i, name, name', name);
    forall n: Name
      ensures Find(r, n) == if n == name' then B.Some(Find(l, name).value.(name := name'))
                else if n == name then B.None else Find(l, n)
    {
      RenamedIs(l, hashed, i, name, name', n);
    }
    forall e | e in l && e.name != name ensures e in r {
      FindIn(l, hashed, i, e);
      FindIn(r, hashed, i, e);
    }
  }

  /** The names of a directory after `lc_dirRename`. */
  ghost predicate RenamedTo(lists: Lists, lists': Lists, hashed: bool, name: Name, name': Name)
    requires |lists| == |lists'| == Width(hashed)
  {
    forall n: Name {:trigger Look(lists', hashed, n)} ::
      if n == name' then Means(Look(lists', hashed, n)) == Means(Look(lists, hashed, name))
      else Look(lists', hashed, n) == if n == name then B.None else Look(lists, hashed, n)
  }

  /** `lc_dirRename`: the entry moves to the head of another list if its new name belongs there, and stays where it is
      otherwise. */
  method RenameIn(lists: Lists, hashed: bool, ino: nat, name: Name, name': Name) returns (lists': Lists)
    requires Proper(lists, hashed) && Look(lists, hashed, name).Some? && Look(lists, hashed, name).value.ino == ino
    requires Look(lists, hashed, name').None? && 0 < |name'| <= 255
    ensures Proper(lists', hashed) && Total(lists') == Total(lists) && Stays(lists, lists', name)
    ensures RenamedTo(lists, lists', hashed, name, name')
    ensures SubdirTotal(lists') == SubdirTotal(lists)
  {
    var h, h' := 0, 0;
    if hashed {
      h := DirHash(name);
      h' := DirHash(name');
    }
    if h != h' {
      lists' := RenameAcross(lists, name, name', h, h');
    } else {
      var l := lists[h];
      var k := Walk(l, name);
      RenamedAt(l, name, name', k);
      RenamedAll(l, hashed, h, name, name');
      lists' := lists[h := l[k := l[k].(name := name')]];
      PutList(lists, hashed, h, Renamed(l, name, name'));
    }
  }

  method RenameAcross(lists: Lists, name: Name, name': Name, h: nat, h': nat) returns (lists': Lists)
    requires Proper(lists, true) && Look(lists, true, name).Some? && Look(lists, true, name').None?
    requires 0 < |name'| <= 255
    requires h == HashOf(name) != HashOf(name') == h'
    ensures Proper(lists', true) && Total(lists') == Total(lists) && Stays(lists, lists', name)
    ensures RenamedTo(lists, lists', true, name, name')
    ensures SubdirTotal(lists') == SubdirTotal(lists)
  {
    var l := lists[h];
    var k := Walk(l, name);
    Earlier(l, true, h, k);
    var lists1 := RemoveFrom(lists, true, name);
    assert Look(lists1, true, name').None?;
    lists' := MoveTo(lists1, true, l[k], h', name');
    forall i, e | 0 <= i < |lists| && e in lists[i] && e.name != name ensures e in lists'[i] {
      assert e in lists1[i];
    }
    forall n: Name
      ensures if n == name' then Means(Look(lists', true, n)) == Means(Look(lists, true, name))
              else Look(lists', true, n) == if n == name then B.None else Look(lists, true, n)
    {
      assert Look(lists', true, n) == Look(lists', true, n);
      if n != name' {
        assert Look(lists1, true, n) == if n == name then B.None else Look(lists, true, n);
      }
    }
  }

  /** Puts an entry that was taken out at the head of list `h`, under its new name. */
  method MoveTo(lists: Lists, hashed: bool, e: Dirent, h: nat, name: Name) returns (lists': Lists)
    requires Proper(lists, hashed) && h == ListFor(hashed, name) && e.ino > 1 && 0 < |name| <= 255
    requires Look(lists, hashed, name).None?
    ensures Proper(lists', hashed) && Total(lists') == Total(lists) + 1
    ensures SubdirTotal(lists') == SubdirTotal(lists) + Dirness(e.mode)
    ensures forall i, x {:trigger x in lists[i]} :: 0 <= i < |lists| && x in lists[i] ==> x in lists'[i]
    ensures forall n: Name {:trigger Look(lists', hashed, n)} ::
              if n == name then Means(Look(lists', hashed, n)) == Means(B.Some(e))
                else Look(lists', hashed, n) == Look(lists, hashed, n)
  {
    var l := lists[h];
    var e' := e.(index := TopIndex(l) + 1, name := name);
    lists' := lists[h := [e'] + l];
    assert ([e'] + l)[1..] == l;
    PutList(lists, hashed, h, [e'] + l);
  }

  // ----- Conversion and copies -----

  /** A table has the names of a list. */
  ghost predicate SameNames(lists: Lists, hashed: bool, l: seq<Dirent>)
    requires |lists| == Width(hashed)
  {
    forall n: Name {:trigger Look(lists, hashed, n)} {:trigger Find(l, n)} ::
      Means(Look(lists, hashed, n)) == Means(Find(l, n))
  }

  /** Adds the next entry of `l`. */
  method AddNext(lists: Lists, hashed: bool, l: seq<Dirent>, k: nat) returns (lists': Lists)
    requires Proper(lists, hashed) && k < |l| && SameNames(lists, hashed, l[..k])
    requires Find(l[..k], l[k].name).None? && l[k].ino > 1 && 0 < |l[k].name| <= 255
    ensures Proper(lists', hashed) && Total(lists') == Total(lists) + 1 && SameNames(lists', hashed, l[..k + 1])
    ensures SubdirTotal(lists') == SubdirTotal(lists) + Dirness(l[k].mode) && Rises(lists, lists')
  {
    assert Means(Look(lists, hashed, l[k].name)) == B.None;
    lists' := AddTo(lists, hashed, l[k].ino, l[k].mode, l[k].name);
    assert l[..k + 1] == l[..k] + [l[k]] && [l[k]][1..] == [];
    forall n: Name ensures Means(Look(lists', hashed, n)) == Means(Find(l[..k + 1], n)) {
      FindConcat(l[..k], [l[k]], n);
      assert Means(Look(lists, hashed, n)) == Means(Find(l[..k], n));
    }
  }

  lemma {:induction false} SubdirsNext(l: seq<Dirent>, k: nat)
    requires k < |l|
    ensures Subdirs(l[..k + 1]) == Subdirs(l[..k]) + Dirness(l[k].mode)
  {
    if k > 0 {
      SubdirsNext(l[1..], k - 1);
      assert l[..k + 1][1..] == l[1..][..k] && l[..k][1..] == l[1..][..k - 1];
    }
  }

  lemma {:induction false} TotalEmpty(n: nat)
    ensures Total(seq(n, i => [])) == 0 && SubdirTotal(seq(n, i => [])) == 0
  {
    if n > 0 {
      TotalEmpty(n - 1);
      assert seq(n, i => [])[1..] == seq<seq<Dirent>>(n - 1, i => []);
    }
  }

  /** An empty hash table. */
  method NewTable() returns (lists: Lists)
    ensures Proper(lists, true) && Total(lists) == SubdirTotal(lists) == 0 && SameNames(lists, true, [])
    ensures forall i :: 0 <= i < 512 ==> lists[i] == []
  {
    lists := seq(512, i => []);
    TotalEmpty(512);
  }

  /** `lc_dirConvertHashed`. */
  method ConvertHashed(l: seq<Dirent>) returns (lists: Lists)
    requires Good(l, false, 0)
    ensures Proper(lists, true) && Total(lists) == |l| && SubdirTotal(lists) == Subdirs(l) && SameNames(lists, true, l)
    ensures IndexedBy(lists, |l|)
  {
    lists := NewTable();
    var k := 0;
    assert l[..0] == [];
    while k < |l|
      invariant k <= |l| && Proper(lists, true) && Total(lists) == k && SameNames(lists, true, l[..k])
      invariant SubdirTotal(lists) == Subdirs(l[..k]) && IndexedBy(lists, k)
    {
      SubdirsNext(l, k);
      Earlier(l, false, 0, k);
      lists := AddNext(lists, true, l, k);
      k := k + 1;
    }
    assert l[..k] == l;
  }

  method CopyList(l: seq<Dirent>) returns (r: seq<Dirent>)
    ensures r == l
  {
    r := [];
    for k := 0 to |l|
      invariant r == l[..k]
    {
      r := r + [Dirent(l[k].ino, l[k].mode, l[k].name, l[k].index)];
    }
  }

  lemma {:induction false} NothingLeft(lists: Lists, i: nat)
    requires i <= |lists| && Total(lists[..i]) == Total(lists)
    ensures forall j {:trigger lists[j]} :: i <= j < |lists| ==> lists[j] == []
  {
    TotalSplit(lists, i);
    forall j | i <= j < |lists| ensures lists[j] == [] {
      TotalSplit(lists[i..], j - i);
      assert lists[i..][j - i..][0] == lists[j];
    }
  }

  lemma {:induction false} TotalNext(lists: Lists, i: nat)
    requires i < |lists|
    ensures Total(lists[..i + 1]) == Total(lists[..i]) + |lists[i]|
  {
    TotalSplit(lists[..i + 1], i);
    assert lists[..i + 1][..i] == lists[..i] && lists[..i + 1][i..] == [lists[i]];
    assert [lists[i]][1..] == [];
  }

  /** `lc_dirCopy`: stops as soon as all entries are copied. */
  method CopyLists(lists: Lists, hashed: bool, size: nat) returns (r: Lists)
    requires |lists| == Width(hashed) && size == Total(lists)
    ensures r == lists
  {
    r := [[]];
    if hashed {
      r := NewTable();
    }
    var i, count := 0, 0;
    assert lists[..0] == [];
    while i < |lists|
      invariant i <= |lists| == |r| && count == Total(lists[..i])
      invariant forall j {:trigger r[j]} :: 0 <= j < |r| ==> r[j] == if j < i then lists[j] else []
    {
      if hashed && count == size {
        NothingLeft(lists, i);
        break;
      }
      var l := CopyList(lists[i]);
      TotalNext(lists, i);
      r := r[i := l];
      count := count + |l|;
      i := i + 1;
    }
  }

  // ----- Directories on disk -----

  /** `struct ddirent`. */
  datatype DDirent = DDirent(ino: nat, mode: nat, name: Name)

  const MIN_DIRENT_SIZE: nat := 12

  function RecordSize(r: DDirent): nat {
    12 + |r.name|
  }

  function Record(e: Dirent): DDirent {
    DDirent(e.ino, e.mode, e.name)
  }

  function Records(l: seq<Dirent>): seq<DDirent> {
    if l == [] then [] else [Record(l[0])] + Records(l[1..])
  }

  /** The entries of the lists from list `i` on. */
  function Flat(lists: Lists, i: nat): seq<Dirent>
    decreases |lists| - i
  {
    if i >= |lists| then [] else lists[i] + Flat(lists, i + 1)
  }

  lemma {:induction false} RecordsConcat(a: seq<Dirent>, b: seq<Dirent>)
    ensures Records(a + b) == Records(a) + Records(b) && Subdirs(a + b) == Subdirs(a) + Subdirs(b)
  {
    if a == [] {
      assert a + b == b;
    } else {
      assert (a + b)[1..] == a[1..] + b;
      RecordsConcat(a[1..], b);
    }
  }

  lemma {:induction false} RecordsAt(l: seq<Dirent>)
    ensures |Records(l)| == |l|
    ensures forall k {:trigger l[k]} {:trigger Records(l)[k]} :: 0 <= k < |l| ==> Records(l)[k] == Record(l[k])
  {
    if l != [] {
      RecordsAt(l[1..]);
      forall k | 0 <= k < |l| ensures Records(l)[k] == Record(l[k]) {
        if k > 0 {
          assert Records(l)[k] == Records(l[1..])[k - 1] && l[k] == l[1..][k - 1];
        }
      }
    }
  }

  /** No name twice. */
  predicate Unique(l: seq<Dirent>) {
    l == [] || (Find(l[1..], l[0].name).None? && l[0].ino > 1 && 0 < |l[0].name| <= 255 && Unique(l[1..]))
  }

  lemma {:induction false} UniqueConcat(a: seq<Dirent>, b: seq<Dirent>, hashed: bool, i: nat)
    requires Good(a, hashed, i) && Unique(b)
    requires forall n: Name {:trigger Find(b, n)} :: ListFor(hashed, n) == i ==> Find(b, n).None?
    ensures Unique(a + b)
  {
    if a == [] {
      assert a + b == b;
    } else {
      UniqueConcat(a[1..], b, hashed, i);
      assert (a + b)[1..] == a[1..] + b;
      FindConcat(a[1..], b, a[0].name);
    }
  }

  lemma {:induction false} UniqueAt(l: seq<Dirent>, k: nat)
    requires Unique(l) && k < |l|
    ensures Find(l[..k], l[k].name).None? && l[k].ino > 1 && 0 < |l[k].name| <= 255
  {
    if k > 0 {
      UniqueAt(l[1..], k - 1);
      assert l[..k][1..] == l[1..][..k - 1];
      if l[0].name == l[k].name {
        Present(l[1..], k - 1);
        assert false;
      }
    }
  }

  lemma {:induction false} Present(l: seq<Dirent>, k: nat)
    requires k < |l|
    ensures Find(l, l[k].name).Some?
  {
    if k > 0 {
      Present(l[1..], k - 1);
    }
  }

  lemma {:induction false} FlatFind(lists: Lists, hashed: bool, i: nat, n: Name)
    requires Proper(lists, hashed) && i <= |lists|
    ensures Find(Flat(lists, i), n) == if ListFor(hashed, n) < i then B.None else Look(lists, hashed, n)
    decreases |lists| - i
  {
    if i < |lists| {
      FlatFind(lists, hashed, i + 1, n);
      FindConcat(lists[i], Flat(lists, i + 1), n);
      if ListFor(hashed, n) != i {
        Misplaced(lists[i], hashed, i, n);
      }
    }
  }

  lemma {:induction false} FlatUnique(lists: Lists, hashed: bool, i: nat)
    requires Proper(lists, hashed) && i <= |lists|
    ensures Unique(Flat(lists, i))
    decreases |lists| - i
  {
    if i < |lists| {
      FlatUnique(lists, hashed, i + 1);
      forall n: Name | ListFor(hashed, n) == i ensures Find(Flat(lists, i + 1), n).None? {
        FlatFind(lists, hashed, i + 1, n);
      }
      UniqueConcat(lists[i], Flat(lists, i + 1), hashed, i);
    }
  }

  lemma {:induction false} FlatNone(lists: Lists, i: nat)
    requires forall j {:trigger lists[j]} :: i <= j < |lists| ==> lists[j] == []
    ensures Flat(lists, i) == []
    decreases |lists| - i
  {
    if i < |lists| {
      FlatNone(lists, i + 1);
    }
  }

  /** The entries of one list go to pages. */
  method PackList(l: seq<Dirent>, pages: seq<seq<DDirent>>, remain: int, subdirs: nat, ghost list: seq<DDirent>)
    returns (pages': seq<seq<DDirent>>, remain': int, subdirs': nat)
    requires Packing.Packed(RecordSize, pages, remain, list)
    ensures Packing.Packed(RecordSize, pages', remain', list + Records(l)) && subdirs' == subdirs + Subdirs(l)
  {
    pages', remain', subdirs' := pages, remain, subdirs;
    var k := 0;
    assert list + Records(l[..0]) == list;
    while k < |l|
      invariant k <= |l| && Packing.Packed(RecordSize, pages', remain', list + Records(l[..k]))
      invariant subdirs' == subdirs + Subdirs(l[..k])
    {
      RecordsConcat(l[..k], [l[k]]);
      assert l[..k + 1] == l[..k] + [l[k]] && [l[k]][1..] == [];
      assert list + Records(l[..k + 1]) == list + Records(l[..k]) + [Record(l[k])];
      pages', remain' := Packing.Append(RecordSize, pages', remain', Record(l[k]), list + Records(l[..k]));
      if l[k].mode == S_IFDIR {
        subdirs' := subdirs' + 1;
      }
      k := k + 1;
    }
    assert l[..k] == l;
  }

  /** The pages of `lc_dirFlush`, newest first. */
  method PackDir(lists: Lists, hashed: bool, size: nat, links: nat) returns (pages: seq<seq<DDirent>>, nlink: nat)
    requires Proper(lists, hashed) && size == Total(lists)
    ensures Packing.Unpacked(pages) == Records(Flat(lists, 0)) && nlink == links + Subdirs(Flat(lists, 0))
    ensures Packing.PagesFit(RecordSize, pages)
  {
    var i, entries, remain := 0, 0, 0;
    pages, nlink := [], links;
    ghost var list: seq<DDirent> := [];
    assert lists[..0] == [];
    while i < |lists|
      invariant i <= |lists| && entries == Total(lists[..i]) && Packing.Packed(RecordSize, pages, remain, list)
      invariant list + Records(Flat(lists, i)) == Records(Flat(lists, 0))
      invariant nlink + Subdirs(Flat(lists, i)) == links + Subdirs(Flat(lists, 0))
    {
      FlatNext(lists, i, list);
      pages, remain, nlink := PackList(lists[i], pages, remain, nlink, list);
      list := list + Records(lists[i]);
      TotalNext(lists, i);
      entries := entries + |lists[i]|;
      i := i + 1;
      if entries == size {
        NothingLeft(lists, i);
        FlatNone(lists, i);
        break;
      }
    }
    assert Flat(lists, i) == [] && list + Records([]) == list;
    AllSmall(lists, hashed);
  }

  lemma FlatNext(lists: Lists, i: nat, list: seq<DDirent>)
    requires i < |lists|
    ensures list + Records(Flat(lists, i)) == (list + Records(lists[i])) + Records(Flat(lists, i + 1))
    ensures Subdirs(Flat(lists, i)) == Subdirs(lists[i]) + Subdirs(Flat(lists, i + 1))
  {
    RecordsConcat(lists[i], Flat(lists, i + 1));
  }

  lemma AllSmall(lists: Lists, hashed: bool)
    requires Proper(lists, hashed)
    ensures Packing.AllFit(RecordSize, Records(Flat(lists, 0)))
    ensures forall r {:trigger RecordSize(r)} :: r in Records(Flat(lists, 0)) ==> RecordSize(r) > 12
  {
    var l := Flat(lists, 0);
    FlatUnique(lists, hashed, 0);
    RecordsAt(l);
    forall r | r in Records(l) ensures 12 < RecordSize(r) <= 267 {
      var k :| 0 <= k < |Records(l)| && Records(l)[k] == r;
      UniqueAt(l, k);
    }
  }

  /** `lc_dirFlush` writes the entries of a directory to new blocks; `links` is 2, or 0 if the directory is removed. */
  method DirFlush(disk: map<nat, Packing.PBlock<DDirent>>, alloc: nat -> nat, lists: Lists, hashed: bool, size: nat,
                  links: nat)
    returns (disk': map<nat, Packing.PBlock<DDirent>>, head: nat, nlink: nat, pages: seq<seq<DDirent>>)
    requires Proper(lists, hashed) && size == Total(lists)
    ensures nlink == links + SubdirTotal(lists) && EntriesStored(disk', head, alloc(|pages|), pages, lists)
    ensures Packing.Elsewhere(disk, disk', alloc(|pages|), |pages|)
  {
    var ps, n := PackDir(lists, hashed, size, links);
    pages, nlink := ps, n;
    AllSmall(lists, hashed);
    FlatSize(lists, 0);
    assert lists[0..] == lists;
    disk', head := disk, B.INVALID_BLOCK;
    if |ps| > 0 {
      head := alloc(|ps|);
      disk' := Packing.FlushBlocks(disk, head, ps);
    }
  }

  /** The blocks from `head` on hold the entries of a directory. */
  ghost predicate EntriesStored(disk: map<nat, Packing.PBlock<DDirent>>, head: nat, first: nat,
                                pages: seq<seq<DDirent>>, lists: Lists)
  {
    && Packing.Unpacked(pages) == Records(Flat(lists, 0)) && Packing.PagesFit(RecordSize, pages)
    && Packing.Laid(disk, first, pages, |pages|) && head == if pages == [] then B.INVALID_BLOCK else first
  }

  // ----- Reading a directory -----

  /** `lc_dirAdd`: converts the directory first if it has grown large enough. */
  method DirAdd(lists: Lists, hashed: bool, size: nat, ino: nat, mode: nat, name: Name)
      returns (lists': Lists, hashed': bool, size': nat)
    requires Proper(lists, hashed) && size == Total(lists) && ino > 1 && 0 < |name| <= 255
    requires Look(lists, hashed, name).None?
    ensures Proper(lists', hashed') && size' == Total(lists') == size + 1
    ensures SubdirTotal(lists') == SubdirTotal(lists) + Dirness(mode)
    ensures hashed' == (hashed || size >= DIRCACHE_MIN)
    ensures hashed' == hashed ==> Stays(lists, lists', name)
    ensures forall m: nat {:trigger IndexedBy(lists, m)} :: IndexedBy(lists, m) && size <= m ==>
              IndexedBy(lists', m + 1)
    ensures forall n: Name {:trigger Look(lists', hashed', n)} ::
              Means(Look(lists', hashed', n)) == if n == name then B.Some(Target(ino, mode))
                else Means(Look(lists, hashed, n))
  {
    lists', hashed' := lists, hashed;
    if size >= DIRCACHE_MIN && !hashed {
      lists' := ConvertHashed(lists[0]);
      hashed' := true;
      assert Total(lists) == |lists[0]| && SubdirTotal(lists) == Subdirs(lists[0]) by {
        assert lists[1..] == [];
      }
      assert forall n: Name {:trigger Look(lists', true, n)} ::
                Means(Look(lists', true, n)) == Means(Look(lists, false, n));
    }
    ghost var lists1 := lists';
    assert Means(Look(lists1, hashed', name)).None?;
    lists' := AddTo(lists', hashed', ino, mode, name);
    forall n: Name
      ensures Means(Look(lists', hashed', n)) == if n == name then B.Some(Target(ino, mode))
                else Means(Look(lists, hashed, n))
    {
      assert Look(lists', hashed', n) == Look(lists', hashed', n);
      assert Means(Look(lists1, hashed', n)) == Means(Look(lists, hashed, n));
    }
    size' := size + 1;
  }

  lemma {:induction false} FlatSize(lists: Lists, i: nat)
    requires i <= |lists|
    ensures |Flat(lists, i)| == Total(lists[i..]) && Subdirs(Flat(lists, i)) == SubdirTotal(lists[i..])
    decreases |lists| - i
  {
    if i < |lists| {
      FlatSize(lists, i + 1);
      RecordsConcat(lists[i], Flat(lists, i + 1));
      assert lists[i..][1..] == lists[i + 1..];
    }
  }

  /** One record of a directory block. */
  method ReadEntry(lists: Lists, hashed: bool, entries: nat, nlink: nat, r: DDirent, ghost l: seq<Dirent>)
    returns (lists': Lists, entries': nat, nlink': nat)
    requires Proper(lists, hashed) && entries == Total(lists) && entries < |l| && SameNames(lists, hashed, l[..entries])
    requires r == Record(l[entries])
    requires Find(l[..entries], r.name).None? && r.ino > 1 && 0 < |r.name| <= 255 && (hashed || entries < DIRCACHE_MIN)
    ensures Proper(lists', hashed) && entries' == Total(lists') == entries + 1
    ensures SameNames(lists', hashed, l[..entries + 1])
    ensures nlink' == nlink + Dirness(r.mode) && SubdirTotal(lists') == SubdirTotal(lists) + Dirness(r.mode)
    ensures Subdirs(l[..entries + 1]) == Subdirs(l[..entries]) + Dirness(r.mode)
  {
    var h;
    assert Means(Look(lists, hashed, r.name)).None?;
    lists', h, entries' := DirAdd(lists, hashed, entries, r.ino, r.mode, r.name);
    nlink' := if r.mode == S_IFDIR then nlink + 1 else nlink;
    ghost var e := l[entries];
    assert l[..entries + 1] == l[..entries] + [e] && [e][1..] == [];
    SubdirsNext(l, entries);
    forall n: Name ensures Means(Look(lists', hashed, n)) == Means(Find(l[..entries + 1], n)) {
      FindConcat(l[..entries], [e], n);
      assert Means(Look(lists, hashed, n)) == Means(Find(l[..entries], n));
    }
  }

  /** Adds the records that were read to an empty directory. */
  method AddRecords(hashed: bool, records: seq<DDirent>, ghost l: seq<Dirent>)
      returns (lists: Lists, entries: nat, nlink: nat)
    requires records == Records(l) && Unique(l) && (hashed || |records| < DIRCACHE_MIN)
    ensures Proper(lists, hashed) && entries == Total(lists) == |l| && SameNames(lists, hashed, l)
    ensures nlink == 2 + Subdirs(l) == 2 + SubdirTotal(lists)
  {
    RecordsAt(l);
    lists := [[]];
    if hashed {
      lists := NewTable();
    }
    assert l[..0] == [];
    entries, nlink := 0, 2;
    while entries < |records|
      invariant entries <= |records| && Proper(lists, hashed) && entries == Total(lists)
      invariant SameNames(lists, hashed, l[..entries])
      invariant nlink == 2 + Subdirs(l[..entries]) == 2 + SubdirTotal(lists)
    {
      UniqueAt(l, entries);
      assert records[entries] == Record(l[entries]);
      lists, entries, nlink := ReadEntry(lists, hashed, entries, nlink, records[entries], l);
    }
    assert l[..entries] == l;
  }

  /** `lc_dirRead`: the entries come back under the same names, in lists or in a hash table; `size` is the size of the
      directory as the inode has it. The count of links is 2 and the number of subdirectories. */
  method DirRead(disk: map<nat, Packing.PBlock<DDirent>>, head: nat, size: nat, ghost first: nat,
                 ghost pages: seq<seq<DDirent>>, ghost was: Lists, ghost washed: bool)
    returns (lists: Lists, hashed: bool, entries: nat, nlink: nat)
    requires Proper(was, washed) && size == Total(was) && EntriesStored(disk, head, first, pages, was)
    requires first + |pages| <= B.INVALID_BLOCK
    ensures Proper(lists, hashed) && entries == Total(lists) == size && hashed == (size >= DIRCACHE_MIN)
    ensures forall n: Name {:trigger Look(lists, hashed, n)} ::
              Means(Look(lists, hashed, n)) == Means(Look(was, washed, n))
    ensures nlink == 2 + SubdirTotal(was) == 2 + SubdirTotal(lists)
  {
    ghost var l := Flat(was, 0);
    AllSmall(was, washed);
    var records := Packing.ReadChain(RecordSize, MIN_DIRENT_SIZE, disk, head, first, pages);
    hashed := size >= DIRCACHE_MIN;
    FlatUnique(was, washed, 0);
    FlatSize(was, 0);
    RecordsAt(l);
    assert was[0..] == was;
    lists, entries, nlink := AddRecords(hashed, records, l);
    forall n: Name ensures Means(Look(lists, hashed, n)) == Means(Look(was, washed, n)) {
      FlatFind(was, washed, 0, n);
    }
  }
}
