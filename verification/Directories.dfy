/**
  * Directory inodes and the entries they share (lcfs/dir.c, lcfs/inode.c, lcfs/fops.c). A directory that is cloned from
  * a parent layer uses the entries of its parent until it is changed for the first time.
  */
module Directories {
  import opened Dirs
  import B = Blocks
  import Packing

  /** The entries `i_dirent` or `i_hdirent` points to. */
  class DirTable {
    var lists: Lists

    constructor (l: Lists)
      ensures lists == l
    {
      lists := l;
    }
  }

  /** What a directory stands for. */
  ghost function NamesOf(lists: Lists, hashed: bool): imap<Name, Target>
    requires |lists| == Width(hashed)
  {
    imap n: Name | Look(lists, hashed, n).Some? :: Means(Look(lists, hashed, n)).value
  }

  lemma NamesAre(lists: Lists, hashed: bool, m: imap<Name, Target>)
    requires |lists| == Width(hashed)
    requires forall n: Name {:trigger Look(lists, hashed, n)} ::
              Means(Look(lists, hashed, n)) == if n in m then B.Some(m[n]) else B.None
    ensures NamesOf(lists, hashed) == m
  {
    var names := NamesOf(lists, hashed);
    forall n: Name ensures (n in names <==> n in m) && (n in m ==> names[n] == m[n]) {
      assert Means(Look(lists, hashed, n)) == if n in m then B.Some(m[n]) else B.None;
    }
  }

  /** A change to a directory. A rename replaces what is at the new name. Of the inode that is removed or replaced,
      `busy` tells that it has entries, if it is a directory, and `own` that it belongs to this layer and not to a
      parent layer. */
  datatype Change =
    | Create(name: Name, ino: nat, mode: nat)
    | Remove(name: Name, busy: bool)
    | Rename(name: Name, to: Name, own: bool, busy: bool)
  {
    predicate Valid() {
      match this
      case Create(name, ino, mode) => ino > 1 && 0 < |name| <= 255
      case Remove(name, busy) => true
      case Rename(name, to, own, busy) => name != to && 0 < |to| <= 255
    }
  }

  /** The name is that of a directory with entries. */
  ghost predicate Busy(names: imap<Name, Target>, name: Name, busy: bool) {
    name in names && names[name].mode == S_IFDIR && busy
  }

  /** The target of a rename is an empty directory that the layer has not copied from its parent. */
  ghost predicate Inherited(names: imap<Name, Target>, to: Name, own: bool, busy: bool) {
    to in names && names[to].mode == S_IFDIR && !busy && !own
  }

  /** What a change makes of the names. Creating a name that exists and removing or renaming one that does not are
      refused. So are replacing a directory with entries and, except in the root layer, removing one. */
  ghost function Changed(root: bool, names: imap<Name, Target>, c: Change): imap<Name, Target> {
    match c
    case Create(name, ino, mode) => if name in names then names else names[name := Target(ino, mode)]
    case Remove(name, busy) => if Busy(names, name, busy) && !root then names else names - {name}
    case Rename(name, to, own, busy) =>
      if name in names && !Busy(names, to, busy) then (names - {name})[to := names[name]] else names
  }

  ghost function AllChanged(root: bool, names: imap<Name, Target>, changes: seq<Change>): imap<Name, Target> {
    if changes == [] then names
    else Changed(root, AllChanged(root, names, changes[..|changes| - 1]), changes[|changes| - 1])
  }

  /** The change replaces an inherited directory. */
  ghost predicate Stale(names: imap<Name, Target>, c: Change) {
    c.Rename? && c.name in names && Inherited(names, c.to, c.own, c.busy)
  }

  /** How often a run replaces an inherited directory. */
  ghost function StaleCount(root: bool, names: imap<Name, Target>, changes: seq<Change>): nat {
    if changes == [] then 0
    else
      var rest := changes[..|changes| - 1];
      StaleCount(root, names, rest) + if Stale(AllChanged(root, names, rest), changes[|changes| - 1]) then 1 else 0
  }

  // ----- What the changes mean -----

  /** The name is in one directory exactly if it is in the other, and for the same inode. */
  ghost predicate SameAt(m: imap<Name, Target>, r: imap<Name, Target>, n: Name) {
    (n in r <==> n in m) && (n in m ==> r[n] == m[n])
  }

  /** Only the names in `some` may differ. */
  ghost predicate SameBut(m: imap<Name, Target>, r: imap<Name, Target>, some: set<Name>) {
    forall n: Name {:trigger SameAt(m, r, n)} :: n !in some ==> SameAt(m, r, n)
  }

  lemma PutChanges(m: imap<Name, Target>, name: Name, t: Target)
    ensures SameBut(m, m[name := t], {name})
  {
  }

  /** What a removal does: the name goes, unless it is a directory with entries and not in the root layer. */
  lemma RemoveChanges(root: bool, m: imap<Name, Target>, name: Name, busy: bool)
    ensures var r := Changed(root, m, Remove(name, busy));
            && (name in r <==> name in m && m[name].mode == 0x4000 && busy && !root)
            && (name in r ==> r[name] == m[name]) && SameBut(m, r, {name})
  {
  }

  /** What a rename does: the inode is there under the new name only, unless there is none or the new name is that of a
      directory with entries. */
  lemma RenameChanges(root: bool, m: imap<Name, Target>, name: Name, to: Name, own: bool, busy: bool)
    requires name != to
    ensures var r := Changed(root, m, Rename(name, to, own, busy));
            && (if name in m && !(to in m && m[to].mode == 0x4000 && busy)
                then name !in r && to in r && r[to] == m[name] && SameBut(m, r, {name, to})
                else SameBut(m, r, {}))
  {
  }

  // ----- What a run means, change by change -----

  /** A name that is created after other changes. One that is there already stays as it is. */
  lemma CreateLaw(root: bool, names: imap<Name, Target>, changes: seq<Change>, name: Name, ino: nat, mode: nat)
    ensures var m := AllChanged(root, names, changes);
            var r := AllChanged(root, names, changes + [Create(name, ino, mode)]);
            name in r && r[name] == (if name in m then m[name] else Target(ino, mode)) && SameBut(m, r, {name})
  {
    assert (changes + [Create(name, ino, mode)])[..|changes|] == changes;
    PutChanges(AllChanged(root, names, changes), name, Target(ino, mode));
  }

  /** A name that is removed after other changes. */
  lemma RemoveLaw(root: bool, names: imap<Name, Target>, changes: seq<Change>, name: Name, busy: bool)
    ensures var m := AllChanged(root, names, changes);
            var r := AllChanged(root, names, changes + [Remove(name, busy)]);
            && (name in r <==> name in m && m[name].mode == 0x4000 && busy && !root)
            && (name in r ==> r[name] == m[name]) && SameBut(m, r, {name})
  {
    assert (changes + [Remove(name, busy)])[..|changes|] == changes;
    RemoveChanges(root, AllChanged(root, names, changes), name, busy);
  }

  /** A name that is renamed after other changes. */
  lemma RenameLaw(root: bool, names: imap<Name, Target>, changes: seq<Change>, name: Name, to: Name, own: bool,
                  busy: bool)
    requires name != to
    ensures var m := AllChanged(root, names, changes);
            var r := AllChanged(root, names, changes + [Rename(name, to, own, busy)]);
            && (if name in m && !(to in m && m[to].mode == 0x4000 && busy)
                then name !in r && to in r && r[to] == m[name] && SameBut(m, r, {name, to})
                else SameBut(m, r, {}))
  {
    assert (changes + [Rename(name, to, own, busy)])[..|changes|] == changes;
    RenameChanges(root, AllChanged(root, names, changes), name, to, own, busy);
  }

  /** The link count goes off by one more exactly if a rename that is carried out replaces an empty directory of a
      parent layer. */
  lemma CountLaw(root: bool, names: imap<Name, Target>, changes: seq<Change>, c: Change)
    ensures AllChanged(root, names, []) == names && StaleCount(root, names, []) == 0
    ensures var m := AllChanged(root, names, changes);
            StaleCount(root, names, changes + [c]) == StaleCount(root, names, changes) +
            if c.Rename? && c.name in m && c.to in m && m[c.to].mode == 0x4000 && !c.own && !c.busy then 1 else 0
  {
    assert (changes + [c])[..|changes|] == changes;
  }

  // ----- What holds of a whole run -----

  /** The names a change is about. */
  ghost function About(c: Change): set<Name> {
    if c.Rename? then {c.name, c.to} else {c.name}
  }

  /** A name that no change of a run is about stays as it is. */
  lemma {:induction false} Untouched(root: bool, names: imap<Name, Target>, changes: seq<Change>, n: Name)
    requires forall i :: 0 <= i < |changes| ==> n !in About(changes[i])
    ensures SameAt(names, AllChanged(root, names, changes), n)
  {
    if changes != [] {
      Untouched(root, names, changes[..|changes| - 1], n);
    }
  }

  /** No two names are for one inode. */
  ghost predicate NoTwins(m: imap<Name, Target>) {
    forall a: Name, b: Name :: a in m && b in m && m[a].ino == m[b].ino ==> a == b
  }

  /** The inode number is new to the directory and to the changes before. */
  ghost predicate NewInode(names: imap<Name, Target>, changes: seq<Change>, i: nat)
    requires i < |changes|
  {
    changes[i].Create? ==>
      && (forall n :: n in names ==> names[n].ino != changes[i].ino)
      && (forall j :: 0 <= j < i && changes[j].Create? ==> changes[j].ino != changes[i].ino)
  }

  /** An inode is there under a name after a run only if it was before, or is one the run creates. */
  lemma {:induction false} FromSomewhere(root: bool, names: imap<Name, Target>, changes: seq<Change>, n: Name)
    requires n in AllChanged(root, names, changes)
    ensures var t := AllChanged(root, names, changes)[n];
            || (exists a :: a in names && names[a] == t)
            || (exists i :: 0 <= i < |changes| && changes[i].Create? && t == Target(changes[i].ino, changes[i].mode))
  {
    if changes != [] {
      var rest := changes[..|changes| - 1];
      var c := changes[|changes| - 1];
      var m := AllChanged(root, names, rest);
      if c.Rename? && c.name in m && n == c.to {
        FromSomewhere(root, names, rest, if Busy(m, c.to, c.busy) then n else c.name);
      } else if n in m {
        FromSomewhere(root, names, rest, n);
      }
    }
  }

  /** However files are created, removed and renamed, no inode gets a second name, unless a link is made: a run in which
      every name that is created is for a new inode keeps the names of the inodes apart. */
  lemma {:induction false} OneName(root: bool, names: imap<Name, Target>, changes: seq<Change>)
    requires NoTwins(names) && forall i :: 0 <= i < |changes| ==> NewInode(names, changes, i)
    ensures NoTwins(AllChanged(root, names, changes))
  {
    if changes != [] {
      var k := |changes| - 1;
      var rest := changes[..k];
      var c := changes[k];
      forall i | 0 <= i < |rest| ensures NewInode(names, rest, i) {
        assert NewInode(names, changes, i);
      }
      OneName(root, names, rest);
      var m := AllChanged(root, names, rest);
      if c.Create? && c.name !in m {
        assert NewInode(names, changes, k);
        forall n | n in m ensures m[n].ino != c.ino {
          FromSomewhere(root, names, rest, n);
        }
      }
    }
  }

  lemma RenameOver(m: imap<Name, Target>, name: Name, to: Name)
    requires name in m && name != to
    ensures name in m - {to} && ((m - {to}) - {name})[to := (m - {to})[name]] == (m - {name})[to := m[name]]
  {
  }

  lemma PutOver(m: imap<Name, Target>, to: Name, t: Target)
    ensures to !in m - {to} && (m - {to})[to := Target(t.ino, t.mode)] == m[to := t]
  {
  }

  class Directory {
    var table: DirTable
    var hashed: bool    // LC_INODE_DHASHED
    var shared: bool    // LC_INODE_SHARED
    var size: nat       // i_size
    var nlink: int      // i_nlink
    const root: bool    // in the root layer

    ghost predicate Valid()
      reads this, table
    {
      Proper(table.lists, hashed) && size == Total(table.lists)
    }

    ghost function Names(): imap<Name, Target>
      requires Valid()
      reads this, table
    {
      NamesOf(table.lists, hashed)
    }

    /** The link count that `lc_dirFlush` and `lc_dirRead` assert. */
    ghost predicate LinksOk()
      reads this, table
    {
      nlink == 2 + SubdirTotal(table.lists)
    }

    /** How far the link count is off. */
    ghost function Excess(): int
      reads this, table
    {
      nlink - 2 - SubdirTotal(table.lists)
    }

    constructor Empty(root: bool)
      ensures Valid() && LinksOk() && Names() == imap[] && !shared && fresh(table) && this.root == root
    {
      this.root := root;
      table := new DirTable([[]]);
      hashed, shared, size, nlink := false, false, 0, 2;
      new;
      NamesAre(table.lists, false, imap[]);
    }

    /** A directory as it is read from disk. */
    constructor Loaded(lists: Lists, h: bool, entries: nat, links: int, root: bool)
      requires Proper(lists, h) && entries == Total(lists)
      ensures Valid() && Names() == NamesOf(lists, h) && size == entries && nlink == links && !shared && fresh(table)
      ensures table.lists == lists && this.root == root
    {
      this.root := root;
      table := new DirTable(lists);
      hashed, shared, size, nlink := h, false, entries, links;
    }

    /** `lc_cloneInode` and `lc_cloneRootDir`: the entries are shared, if there are any. A clone is never in the root
        layer. */
    constructor Clone(parent: Directory)
      requires parent.Valid()
      ensures Valid() && Names() == parent.Names() && nlink == parent.nlink && Excess() == parent.Excess()
      ensures (if shared then table == parent.table else fresh(table)) && !root
    {
      root := false;
      var share := parent.hashed || parent.table.lists != [[]];
      if share {
        table := parent.table;
      } else {
        table := new DirTable([[]]);
      }
      hashed, shared, size, nlink := parent.hashed, share, parent.size, parent.nlink;
      new;
      if !share {
        assert table.lists == parent.table.lists;
      }
    }

    /** `lc_dirCopy`, where the directory still shares entries. */
    method Own()
      requires Valid()
      modifies this
      ensures Valid() && !shared && table.lists == old(table.lists) && hashed == old(hashed) && nlink == old(nlink)
      ensures if old(shared) then fresh(table) else table == old(table)
    {
      if shared {
        var copy := CopyLists(table.lists, hashed, size);
        table := new DirTable(copy);
        shared := false;
      }
    }

    /** `lc_dirLookup`. */
    method Lookup(name: Name) returns (t: B.Option<Target>)
      requires Valid()
      ensures t == if name in Names() then B.Some(Names()[name]) else B.None
    {
      var h := 0;
      if hashed {
        h := DirHash(name);
      }
      var l := table.lists[h];
      var k := 0;
      assert l[0..] == l;
      while k < |l|
        invariant k <= |l| && Find(l[k..], name) == Find(l, name)
      {
        if l[k].name == name {
          return B.Some(Target(l[k].ino, l[k].mode));
        }
        assert l[k..][1..] == l[k + 1..];
        k := k + 1;
      }
      return B.None;
    }

    /** A new name, as `lc_createInode` and `lc_link` add it. */
    method CreateName(name: Name, ino: nat, mode: nat)
      requires Valid() && ino > 1 && 0 < |name| <= 255 && name !in Names()
      modifies this, if shared then {} else {table}
      ensures Valid() && Names() == old(Names())[name := Target(ino, mode)] && Excess() == old(Excess())
      ensures SameBut(old(Names()), Names(), {name})
      ensures !shared && (if old(shared) then fresh(table) else table == old(table))
    {
      Own();
      var lists, h, n := DirAdd(table.lists, hashed, size, ino, mode, name);
      table.lists, hashed, size, nlink := lists, h, n, nlink + Dirness(mode);
      NamesAre(lists, h, old(Names())[name := Target(ino, mode)]);
      PutChanges(old(Names()), name, Target(ino, mode));
    }

    /** Takes a name out of entries of its own. */
    method TakeOut(name: Name)
      requires Valid() && !shared && name in Names()
      modifies table, this`size
      ensures Valid() && Names() == old(Names()) - {name}
      ensures SubdirTotal(table.lists) == old(SubdirTotal(table.lists)) - Dirness(old(Names())[name].mode)
    {
      var lists := RemoveFrom(table.lists, hashed, name);
      table.lists, size := lists, size - 1;
      NamesAre(lists, hashed, old(Names()) - {name});
    }

    /** `lc_remove`: copies shared entries even if the name is not there. `rmdir` tells that a directory is to be
        removed; one with entries stays, except in the root layer. */
    method RemoveName(name: Name, rmdir: bool, busy: bool) returns (ok: bool)
      requires Valid() && (name in Names() ==> (rmdir <==> Names()[name].mode == S_IFDIR))
      modifies this, if shared then {} else {table}
      ensures Valid() && Names() == Changed(root, old(Names()), Remove(name, busy))
      ensures (ok ==> name !in Names()) && SameBut(old(Names()), Names(), if ok then {name} else {})
      ensures ok == (name in old(Names()) && (Busy(old(Names()), name, busy) ==> root))
      ensures Excess() == old(Excess())
      ensures !shared && (if old(shared) then fresh(table) else table == old(table))
    {
      Own();
      var t := Lookup(name);
      ok := t.Some? && !(rmdir && busy && !root);
      if ok {
        TakeOut(name);
        if rmdir {
          nlink := nlink - 1;
        }
      } else if t.None? {
        assert Names() == old(Names()) - {name};
      }
      RemoveChanges(root, old(Names()), name, busy);
    }

    /** A name moves in the directory, in entries of its own. */
    method Retitle(name: Name, to: Name)
      requires Valid() && !shared && name in Names() && to !in Names() && 0 < |to| <= 255
      modifies table
      ensures Valid() && Names() == (old(Names()) - {name})[to := old(Names())[name]]
      ensures SubdirTotal(table.lists) == old(SubdirTotal(table.lists))
    {
      var t := Lookup(name);
      var lists := RenameIn(table.lists, hashed, t.value.ino, name, to);
      ghost var was := table.lists;
      table.lists := lists;
      ghost var m := (old(Names()) - {name})[to := old(Names())[name]];
      forall n: Name ensures Means(Look(lists, hashed, n)) == if n in m then B.Some(m[n]) else B.None {
        assert Look(lists, hashed, n) == Look(lists, hashed, n);
      }
      NamesAre(lists, hashed, m);
    }

    /** `lc_rename` in one directory: what is at the new name goes first, unless it is a directory with entries. The
        link count is then one too high exactly if that was a directory of a parent layer. */
    method RenameName(name: Name, to: Name, own: bool, busy: bool) returns (ok: bool)
      requires Valid() && name != to && 0 < |to| <= 255
      modifies this, if shared then {} else {table}
      ensures Valid() && ok == (name in old(Names()) && !Busy(old(Names()), to, busy))
      ensures Names() == Changed(root, old(Names()), Rename(name, to, own, busy))
      ensures ok ==> name !in Names() && to in Names() && Names()[to] == old(Names())[name]
      ensures SameBut(old(Names()), Names(), if ok then {name, to} else {})
      ensures Excess() == old(Excess()) + if Stale(old(Names()), Rename(name, to, own, busy)) then 1 else 0
      ensures (table == old(table) && shared == old(shared)) || (fresh(table) && !shared)
    {
      var t := Lookup(name);
      if t.None? {
        RenameChanges(root, old(Names()), name, to, own, busy);
        return false;
      }
      Own();
      ok := ClearTarget(to, own, busy);
      if ok {
        Retitle(name, to);
        RenameOver(old(Names()), name, to);
      }
      RenameChanges(root, old(Names()), name, to, own, busy);
    }

    /** `lc_dirRemoveName` for the target of a rename. */
    method ClearTarget(to: Name, own: bool, busy: bool) returns (ok: bool)
      requires Valid() && !shared
      modifies table, this`size, this`nlink
      ensures Valid() && ok == !Busy(old(Names()), to, busy)
      ensures Names() == if ok then old(Names()) - {to} else old(Names())
      ensures Excess() == old(Excess()) + if Inherited(old(Names()), to, own, busy) then 1 else 0
    {
      var u := Lookup(to);
      ok := true;
      if u.Some? {
        if busy && u.value.mode == S_IFDIR {
          return false;
        }
        TakeOut(to);
        if own && u.value.mode == S_IFDIR {
          nlink := nlink - 1;
        }
      } else {
        assert Names() - {to} == Names();
      }
    }

    /** The target of a rename from another directory. */
    method TakeIn(to: Name, t: Target, own: bool, busy: bool) returns (ok: bool)
      requires Valid() && 0 < |to| <= 255 && t.ino > 1
      modifies this, if shared then {} else {table}
      ensures Valid() && ok == !Busy(old(Names()), to, busy)
      ensures Names() == if ok then old(Names())[to := t] else old(Names())
      ensures Excess() == old(Excess()) + if Inherited(old(Names()), to, own, busy) then 1 else 0
      ensures table == old(table) || fresh(table)
    {
      Own();
      ok := ClearTarget(to, own, busy);
      if ok {
        PutOver(old(Names()), to, t);
        CreateName(to, t.ino, t.mode);
      }
    }

    /** The source of a rename to another directory. */
    method GiveAway(name: Name)
      requires Valid() && name in Names()
      modifies this, if shared then {} else {table}
      ensures Valid() && Names() == old(Names()) - {name} && Excess() == old(Excess())
      ensures table == old(table) || fresh(table)
    {
      var t := Lookup(name);
      Own();
      TakeOut(name);
      nlink := nlink - Dirness(t.value.mode);
    }

    /** Any change. The kernel looks a name up before it is created. */
    method Apply(c: Change)
      requires Valid() && c.Valid()
      modifies this, if shared then {} else {table}
      ensures Valid() && Names() == Changed(root, old(Names()), c)
      ensures Excess() == old(Excess()) + if Stale(old(Names()), c) then 1 else 0
      ensures (table == old(table) && shared == old(shared)) || fresh(table)
    {
      match c
      case Create(name, ino, mode) =>
        var t := Lookup(name);
        if t.None? {
          CreateName(name, ino, mode);
        }
      case Remove(name, busy) =>
        var t := Lookup(name);
        var _ := RemoveName(name, t.Some? && t.value.mode == S_IFDIR, busy);
      case Rename(name, to, own, busy) =>
        var _ := RenameName(name, to, own, busy);
    }

    /** Any run of changes: the link count stays right exactly if no rename replaces an inherited directory. */
    method Run(changes: seq<Change>)
      requires Valid() && forall i {:trigger changes[i]} :: 0 <= i < |changes| ==> changes[i].Valid()
      modifies this, if shared then {} else {table}
      ensures Valid() && Names() == AllChanged(root, old(Names()), changes)
      ensures Excess() == old(Excess()) + StaleCount(root, old(Names()), changes)
      ensures old(LinksOk()) ==> (LinksOk() <==> StaleCount(root, old(Names()), changes) == 0)
    {
      ghost var names, excess := Names(), Excess();
      assert changes[..0] == [];
      for i := 0 to |changes|
        invariant Valid() && Names() == AllChanged(root, names, changes[..i])
        invariant Excess() == excess + StaleCount(root, names, changes[..i])
        invariant (table == old(table) && shared == old(shared)) || fresh(table)
      {
        assert changes[..i + 1][..i] == changes[..i];
        Apply(changes[i]);
      }
      assert changes[..|changes|] == changes;
    }

    /** The directory is flushed and read back: `ok` tells that the link count is what `lc_dirFlush` and `lc_dirRead`
        assert. The inode keeps the count. */
    method Remount(disk: map<nat, Packing.PBlock<DDirent>>, alloc: nat -> nat) returns (d: Directory, ok: bool)
      requires Valid() && forall n: nat {:trigger alloc(n)} :: alloc(n) + n <= B.INVALID_BLOCK
      ensures fresh(d.table) && d.Valid() && d.Names() == Names() && d.size == size && d.nlink == nlink
      ensures !d.shared && d.root == root
      ensures d.Excess() == Excess() && (ok <==> LinksOk())
    {
      var disk', head, flushed, pages;
      disk', head, flushed, pages := DirFlush(disk, alloc, table.lists, hashed, size, 2);
      var lists, h, entries, read := DirRead(disk', head, size, alloc(|pages|), pages, table.lists, hashed);
      ok := nlink == flushed && nlink == read;
      NamesAre(lists, h, Names());
      d := new Directory.Loaded(lists, h, entries, nlink, root);
    }
  }

  lemma InodeAbove(lists: Lists, hashed: bool, name: Name)
    requires Proper(lists, hashed) && Look(lists, hashed, name).Some?
    ensures Look(lists, hashed, name).value.ino > 1
  {
    var l := lists[ListFor(hashed, name)];
    FindName(l, name);
    var k :| 0 <= k < |l| && l[k] == Find(l, name).value;
    Earlier(l, hashed, ListFor(hashed, name), k);
  }

  /** The part of a rename to another directory in which the two directories change. */
  method MoveEntry(sdir: Directory, tdir: Directory, name: Name, to: Name, t: Target, own: bool, busy: bool)
      returns (ok: bool)
    requires sdir.Valid() && tdir.Valid() && sdir != tdir && sdir.table != tdir.table && 0 < |to| <= 255
    requires name in sdir.Names() && t.ino > 1
    modifies sdir, tdir, if sdir.shared then {} else {sdir.table}, if tdir.shared then {} else {tdir.table}
    ensures sdir.Valid() && tdir.Valid() && ok == !Busy(old(tdir.Names()), to, busy)
    ensures sdir.Names() == if ok then old(sdir.Names()) - {name} else old(sdir.Names())
    ensures tdir.Names() == if ok then old(tdir.Names())[to := t] else old(tdir.Names())
    ensures sdir.Excess() == old(sdir.Excess())
    ensures tdir.Excess() == old(tdir.Excess()) + if Inherited(old(tdir.Names()), to, own, busy) then 1 else 0
  {
    ok := tdir.TakeIn(to, t, own, busy);
    if ok {
      sdir.GiveAway(name);
    }
  }

  /** `lc_rename` from one directory to another: what is at the new name goes first, unless it is a directory with
      entries. Only the link count of the target can go wrong, and only as in a rename in one directory. */
  method MoveName(sdir: Directory, tdir: Directory, name: Name, to: Name, own: bool, busy: bool) returns (ok: bool)
    requires sdir.Valid() && tdir.Valid() && sdir != tdir && sdir.table != tdir.table && 0 < |to| <= 255
    modifies sdir, tdir, if sdir.shared then {} else {sdir.table}, if tdir.shared then {} else {tdir.table}
    ensures sdir.Valid() && tdir.Valid()
    ensures ok == (name in old(sdir.Names()) && !Busy(old(tdir.Names()), to, busy))
    ensures sdir.Names() == if ok then old(sdir.Names()) - {name} else old(sdir.Names())
    ensures tdir.Names() == if ok then old(tdir.Names())[to := old(sdir.Names())[name]] else old(tdir.Names())
    ensures sdir.Excess() == old(sdir.Excess())
    ensures tdir.Excess() == old(tdir.Excess()) + if ok && Inherited(old(tdir.Names()), to, own, busy) then 1 else 0
  {
    var t := sdir.Lookup(name);
    ok := t.Some?;
    if ok {
      InodeAbove(sdir.table.lists, sdir.hashed, name);
      ok := MoveEntry(sdir, tdir, name, to, t.value, own, busy);
    }
  }

  /** Clone isolation: a method that changes nothing which exists already. Whatever is done in the child, the parent
      keeps its entries, and the child has the entries of the parent with all changes made. */
  method CloneAndRun(parent: Directory, changes: seq<Change>) returns (child: Directory)
    requires parent.Valid() && forall i {:trigger changes[i]} :: 0 <= i < |changes| ==> changes[i].Valid()
    ensures fresh(child) && child.Valid() && child.Names() == AllChanged(false, parent.Names(), changes)
    ensures child.Excess() == parent.Excess() + StaleCount(false, parent.Names(), changes)
    ensures parent.Valid() && parent.Names() == old(parent.Names())
  {
    child := new Directory.Clone(parent);
    child.Run(changes);
  }

  /** A directory with two subdirectories. */
  method TwoSubdirs(a: Name, b: Name) returns (d: Directory)
    requires a != b && 0 < |a| <= 255 && 0 < |b| <= 255
    ensures fresh(d) && fresh(d.table) && d.Valid() && d.LinksOk()
    ensures d.Names() == imap[a := Target(2, S_IFDIR), b := Target(3, S_IFDIR)]
  {
    d := new Directory.Empty(false);
    ghost var none: imap<Name, Target> := imap[];
    d.CreateName(a, 2, S_IFDIR);
    assert d.Names() == none[a := Target(2, S_IFDIR)];
    d.CreateName(b, 3, S_IFDIR);
  }

  /** A rename in a clone. */
  method CloneAndRename(parent: Directory, a: Name, b: Name, own: bool) returns (child: Directory)
    requires parent.Valid() && parent.LinksOk() && a != b && 0 < |b| <= 255 && a in parent.Names()
    requires b in parent.Names() && parent.Names()[b].mode == S_IFDIR
    ensures fresh(child) && child.Valid() && (child.LinksOk() <==> own)
  {
    child := new Directory.Clone(parent);
    var _ := child.RenameName(a, b, own, false);
  }

  /** The failure: a parent has two empty directories, and a clone renames one over the other. */
  method RenameOverInherited() returns (parent: Directory, child: Directory)
    ensures parent.Valid() && parent.LinksOk() && child.Valid() && !child.LinksOk()
  {
    var a, b: Name := [97], [98];
    parent := TwoSubdirs(a, b);
    child := CloneAndRename(parent, a, b, false);
  }
}
