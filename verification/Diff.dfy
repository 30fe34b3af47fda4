/**
  * The list of changes in a layer, as the file system sends it in blocks of 4096 bytes (`lc_replyDiff`,
  * lcfs/diff.c:502-566) and the storage driver reads it back (plugin/lcfs_plugin.go:298-347).
  */
module Diff {
  newtype Byte = b: int | 0 <= b < 256

  const SLASH: Byte := 47

  /** `LC_NONE`; changes are `LC_MODIFIED`, `LC_ADDED` and `LC_REMOVED`, which are 0, 1 and 2. */
  const NONE: nat := 3

  /** `struct cfile`. */
  datatype CFile = CFile(name: seq<Byte>, ctype: nat)

  /** `struct cdir`; `root` says that it is the root directory of the layer. */
  datatype CDir = CDir(root: bool, ctype: nat, path: seq<Byte>, files: seq<CFile>) {
    /** The change reported for the directory itself. */
    function Type(): nat {
      if root then NONE else ctype
    }

    predicate HasRecord() {
      Type() != NONE || files != []
    }
  }

  /** `struct pchange`. */
  datatype Rec = Rec(ctype: nat, path: seq<Byte>)

  /** A change the driver reports: a full path and what happened to it. */
  datatype Change = Change(path: seq<Byte>, ctype: nat)

  // ----- What is to be reported -----

  /** The prefix of the names in a directory. */
  function Prefix(path: seq<Byte>): seq<Byte> {
    if path == [SLASH] then [] else path
  }

  function FileChanges(dir: seq<Byte>, files: seq<CFile>): seq<Change> {
    if files == [] then [] else [Change(dir + [SLASH] + files[0].name, files[0].ctype)] + FileChanges(dir, files[1..])
  }

  function DirChanges(d: CDir): seq<Change> {
    (if d.Type() == NONE then [] else [Change(d.path, d.Type())]) + FileChanges(Prefix(d.path), d.files)
  }

  /** The changes of a list, in order. */
  function Expected(list: seq<CDir>): seq<Change> {
    if list == [] then [] else DirChanges(list[0]) + Expected(list[1..])
  }

  /** Names the list can have: paths of directories start with a slash, names of files do not, and neither is empty. */
  ghost predicate GoodFile(f: CFile) {
    f.name != [] && f.name[0] != SLASH && f.ctype < NONE && |f.name| < 16384
  }

  ghost predicate GoodDir(d: CDir) {
    && d.ctype <= NONE && (d.HasRecord() ==> d.path != [] && d.path[0] == SLASH && |d.path| < 16384)
    && forall i :: 0 <= i < |d.files| ==> GoodFile(d.files[i])
  }

  ghost predicate GoodList(list: seq<CDir>) {
    forall i :: 0 <= i < |list| ==> GoodDir(list[i])
  }

  // ----- Where a change is in the report, and with what path -----

  /** How many changes a list has. */
  function Count(list: seq<CDir>): nat {
    if list == [] then 0
    else (if list[0].root || list[0].ctype == 3 then 0 else 1) + |list[0].files| + Count(list[1..])
  }

  lemma {:induction false} FileAt(dir: seq<Byte>, files: seq<CFile>, k: nat)
    ensures |FileChanges(dir, files)| == |files|
    ensures k < |files| ==> FileChanges(dir, files)[k] == Change(dir + [SLASH] + files[k].name, files[k].ctype)
  {
    if files != [] {
      FileAt(dir, files[1..], if k > 0 then k - 1 else 0);
    }
  }

  lemma {:induction false} ExpectedLength(list: seq<CDir>)
    ensures |Expected(list)| == Count(list)
  {
    if list != [] {
      FileAt(Prefix(list[0].path), list[0].files, 0);
      ExpectedLength(list[1..]);
    }
  }

  /** The changes of a directory are between those of the directories before it and those of the rest. */
  lemma {:induction false} ExpectedCut(list: seq<CDir>, i: nat)
    requires i < |list|
    ensures Expected(list) == Expected(list[..i]) + (DirChanges(list[i]) + Expected(list[i + 1..]))
  {
    var tail := list[1..];
    if i == 0 {
      assert list[..i] == [];
    } else {
      ExpectedCut(tail, i - 1);
      assert list[..i][1..] == tail[..i - 1] && list[i + 1..] == tail[i..];
      Accounts(DirChanges(list[0]), Expected(tail[..i - 1]), DirChanges(list[i]) + Expected(list[i + 1..]));
    }
  }

  lemma {:induction false} ExpectedAt(list: seq<CDir>, i: nat, j: nat)
    requires i < |list| && j < |DirChanges(list[i])|
    ensures var p := Count(list[..i]) + j; p < |Expected(list)| && Expected(list)[p] == DirChanges(list[i])[j]
  {
    ExpectedCut(list, i);
    ExpectedLength(list[..i]);
  }

  /** A change of a directory is reported with its path, unless it is the root directory of the layer. */
  lemma DirectoryAt(list: seq<CDir>, i: nat)
    requires i < |list| && !list[i].root && list[i].ctype != 3
    ensures var p := Count(list[..i]);
            p < |Expected(list)| && Expected(list)[p] == Change(list[i].path, list[i].ctype)
  {
    ExpectedAt(list, i, 0);
  }

  lemma {:induction false} FileInDir(d: CDir, k: nat)
    requires k < |d.files|
    ensures var j, f := (if d.root || d.ctype == 3 then 0 else 1) + k, d.files[k];
            && j < |DirChanges(d)|
            && DirChanges(d)[j] == Change(if d.path == [47] then [47] + f.name else d.path + [47] + f.name, f.ctype)
  {
    FileAt(Prefix(d.path), d.files, k);
    assert [] + [SLASH] + d.files[k].name == [SLASH] + d.files[k].name;
  }

  /** A change of a file is reported with the path of its directory, a slash and its name. In the directory `/` it is a
      slash and the name. */
  lemma FileChangeAt(list: seq<CDir>, i: nat, k: nat)
    requires i < |list| && k < |list[i].files|
    ensures var d, f := list[i], list[i].files[k];
            var p := Count(list[..i]) + ((if d.root || d.ctype == 3 then 0 else 1) + k);
            && p < |Expected(list)|
            && Expected(list)[p] == Change(if d.path == [47] then [47] + f.name else d.path + [47] + f.name, f.ctype)
  {
    FileInDir(list[i], k);
    ExpectedAt(list, i, (if list[i].root || list[i].ctype == 3 then 0 else 1) + k);
  }

  /** The path has two slashes in a row. */
  ghost predicate Doubled(path: seq<Byte>) {
    exists i :: 0 <= i < |path| - 1 && path[i] == 47 && path[i + 1] == 47
  }

  lemma DoubledBefore(a: seq<Byte>, name: seq<Byte>)
    requires name != [] && name[0] != 47 && !Doubled(name) && Doubled(a + name)
    ensures Doubled(a)
  {
    var path := a + name;
    assert forall i :: 0 <= i < |name| ==> path[|a| + i] == name[i];
    var i :| 0 <= i < |path| - 1 && path[i] == 47 && path[i + 1] == 47;
    assert i < |a| - 1;
    assert a[i] == 47 && a[i + 1] == 47;
  }

  /** A path below a directory, as the reports have it, has two slashes in a row exactly if the path of the directory
      has, or ends in a slash and is not just that. */
  lemma JoinedPath(dir: seq<Byte>, name: seq<Byte>)
    requires dir != [] && name != [] && name[0] != 47 && !Doubled(name)
    ensures var path := if dir == [47] then [47] + name else dir + [47] + name;
            Doubled(path) <==> dir != [47] && (Doubled(dir) || dir[|dir| - 1] == 47)
  {
    var path := if dir == [47] then [47] + name else dir + [47] + name;
    if Doubled(path) {
      DoubledBefore(if dir == [47] then [47] else dir + [47], name);
    }
    if dir != [47] && Doubled(dir) {
      var i :| 0 <= i < |dir| - 1 && dir[i] == 47 && dir[i + 1] == 47;
      assert path[i] == 47 && path[i + 1] == 47;
    } else if dir != [47] && dir[|dir| - 1] == 47 {
      assert path[|dir| - 1] == 47 && path[|dir| - 1 + 1] == 47;
    }
  }

  /** The directory has no change, or a path without two slashes in a row which ends in one only if it is `/`. */
  ghost predicate CleanDir(d: CDir) {
    && (d.HasRecord() ==> d.path == [47] || (d.path != [] && !Doubled(d.path) && d.path[|d.path| - 1] != 47))
    && forall k :: 0 <= k < |d.files| ==> !Doubled(d.files[k].name)
  }

  lemma {:induction false} CleanFiles(path: seq<Byte>, files: seq<CFile>)
    requires path == [47] || (path != [] && !Doubled(path) && path[|path| - 1] != 47)
    requires forall k :: 0 <= k < |files| ==> GoodFile(files[k]) && !Doubled(files[k].name)
    ensures forall c :: c in FileChanges(Prefix(path), files) ==> !Doubled(c.path)
  {
    if files != [] {
      CleanFiles(path, files[1..]);
      JoinedPath(path, files[0].name);
      assert [] + [SLASH] + files[0].name == [SLASH] + files[0].name;
    }
  }

  /** No path that is reported has two slashes in a row. */
  lemma {:induction false} NoDoubleSlash(list: seq<CDir>)
    requires GoodList(list) && forall i :: 0 <= i < |list| ==> CleanDir(list[i])
    ensures forall c :: c in Expected(list) ==> !Doubled(c.path)
  {
    if list != [] {
      NoDoubleSlash(list[1..]);
      var d := list[0];
      assert GoodDir(d) && CleanDir(d);
      if d.HasRecord() {
        CleanFiles(d.path, d.files);
      }
    }
  }

  // ----- What one reply takes off the list -----

  /** The records of the files that fit when `size` bytes are used. */
  function TakeFiles(files: seq<CFile>, size: nat): (seq<Rec>, seq<CFile>, nat) {
    if files == [] || size + 3 + |files[0].name| >= 4096 then ([], files, size)
    else
      var (recs, rest, end) := TakeFiles(files[1..], size + 3 + |files[0].name|);
      ([Rec(files[0].ctype, files[0].name)] + recs, rest, end)
  }

  /** The record of a directory, if it has one. */
  function OwnRec(d: CDir): seq<Rec> {
    if d.HasRecord() then [Rec(d.Type(), d.path)] else []
  }

  function Used(d: CDir, size: nat): nat {
    if d.HasRecord() then size + 3 + |d.path| else size
  }

  /** The records of a reply that has `size` bytes already, and the list it leaves. */
  function Take(list: seq<CDir>, size: nat): (seq<Rec>, seq<CDir>) {
    if list == [] then ([], [])
    else
      var d := list[0].(ctype := list[0].Type());
      if d.HasRecord() && size + 3 + |d.path| >= 4096 then ([], [d] + list[1..])
      else
        var (recs, files, end) := TakeFiles(d.files, Used(d, size));
        if files != [] then (OwnRec(d) + recs, [d.(ctype := NONE, files := files)] + list[1..])
        else if |list| > 1 || end == 0 then
          var (more, rest) := Take(list[1..], end);
          (OwnRec(d) + recs + more, rest)
        else (OwnRec(d) + recs, [d.(ctype := NONE, path := [], files := [])])
  }

  // ----- What the driver makes of records -----

  predicate IsDir(r: Rec) {
    r.path != [] && r.path[0] == SLASH
  }

  /** The directory the driver is in after a record. */
  function StepDir(r: Rec, dir: seq<Byte>): seq<Byte> {
    if IsDir(r) then Prefix(r.path) else dir
  }

  /** The change one record stands for, in directory `dir`. */
  function One(r: Rec, dir: seq<Byte>): seq<Change> {
    if r.ctype == NONE then [] else [Change(if IsDir(r) then r.path else dir + [SLASH] + r.path, r.ctype)]
  }

  function DirAfter(recs: seq<Rec>, dir: seq<Byte>): seq<Byte> {
    if recs == [] then dir else DirAfter(recs[1..], StepDir(recs[0], dir))
  }

  function Report(recs: seq<Rec>, dir: seq<Byte>): seq<Change> {
    if recs == [] then [] else One(recs[0], dir) + Report(recs[1..], StepDir(recs[0], dir))
  }

  lemma {:induction false} ReportConcat(a: seq<Rec>, b: seq<Rec>, dir: seq<Byte>)
    ensures DirAfter(a + b, dir) == DirAfter(b, DirAfter(a, dir))
    ensures Report(a + b, dir) == Report(a, dir) + Report(b, DirAfter(a, dir))
  {
    if a == [] {
      assert a + b == b;
    } else {
      assert (a + b)[1..] == a[1..] + b;
      var next := StepDir(a[0], dir);
      ReportConcat(a[1..], b, next);
      Accounts(One(a[0], dir), Report(a[1..], next), Report(b, DirAfter(a[1..], next)));
    }
  }

  /** How many of the records stand for a change. */
  function Reported(recs: seq<Rec>): nat {
    if recs == [] then 0 else (if recs[0].ctype == 3 then 0 else 1) + Reported(recs[1..])
  }

  lemma {:induction false} ReportLength(recs: seq<Rec>, dir: seq<Byte>)
    ensures |Report(recs, dir)| == Reported(recs)
  {
    if recs != [] {
      ReportLength(recs[1..], StepDir(recs[0], dir));
    }
  }

  /** No record from `j` on is that of a directory. */
  ghost predicate NoDirs(recs: seq<Rec>, j: nat) {
    forall i :: j <= i < |recs| && recs[i].path != [] ==> recs[i].path[0] != 47
  }

  lemma {:induction false} SameDir(recs: seq<Rec>, dir: seq<Byte>)
    requires NoDirs(recs, 0)
    ensures DirAfter(recs, dir) == dir
  {
    if recs != [] {
      SameDir(recs[1..], dir);
    }
  }

  lemma {:induction false} LastDir(recs: seq<Rec>, dir: seq<Byte>, j: nat)
    requires j < |recs| && recs[j].path != [] && recs[j].path[0] == 47 && NoDirs(recs, j + 1)
    ensures DirAfter(recs, dir) == if recs[j].path == [47] then [] else recs[j].path
  {
    if j == 0 {
      SameDir(recs[1..], StepDir(recs[0], dir));
    } else {
      LastDir(recs[1..], StepDir(recs[0], dir), j - 1);
    }
  }

  /** The change of a record comes after those of the records before it. The path of a directory is that of the record.
      Any other path is in the directory of the last such record before it, in this block or in an earlier one. */
  lemma ReportAt(recs: seq<Rec>, dir: seq<Byte>, k: nat)
    requires k < |recs| && recs[k].ctype != 3 && recs[k].path != []
    ensures var r, p := recs[k], Reported(recs[..k]);
            && p < |Report(recs, dir)| && Report(recs, dir)[p].ctype == r.ctype
            && (r.path[0] == 47 ==> Report(recs, dir)[p].path == r.path)
            && (r.path[0] != 47 && NoDirs(recs[..k], 0) ==> Report(recs, dir)[p].path == dir + [47] + r.path)
            && (r.path[0] != 47 ==>
                  forall j :: 0 <= j < k && recs[j].path != [] && recs[j].path[0] == 47 && NoDirs(recs[..k], j + 1) ==>
                    Report(recs, dir)[p].path ==
                    if recs[j].path == [47] then [47] + r.path else recs[j].path + [47] + r.path)
  {
    var a, b := recs[..k], recs[k..];
    assert recs == a + b;
    ReportConcat(a, b, dir);
    ReportLength(a, dir);
    var now := DirAfter(a, dir);
    assert Report(b, now)[0] == One(b[0], now)[0];
    if NoDirs(a, 0) {
      SameDir(a, dir);
    }
    forall j | 0 <= j < k && recs[j].path != [] && recs[j].path[0] == 47 && NoDirs(a, j + 1)
      ensures now == if recs[j].path == [47] then [] else recs[j].path
    {
      LastDir(a, dir, j);
    }
    assert [] + [SLASH] + recs[k].path == [SLASH] + recs[k].path;
  }

  ghost predicate GoodFiles(files: seq<CFile>) {
    forall i :: 0 <= i < |files| ==> GoodFile(files[i])
  }

  lemma {:induction false} FilesReport(files: seq<CFile>, size: nat, dir: seq<Byte>)
    requires GoodFiles(files)
    ensures FileChanges(dir, files) == Report(TakeFiles(files, size).0, dir)
              + FileChanges(dir, TakeFiles(files, size).1)
    ensures DirAfter(TakeFiles(files, size).0, dir) == dir && GoodFiles(TakeFiles(files, size).1)
  {
    if files != [] && size + 3 + |files[0].name| < 4096 {
      FilesReport(files[1..], size + 3 + |files[0].name|, dir);
      var recs := TakeFiles(files[1..], size + 3 + |files[0].name|).0;
      var r := Rec(files[0].ctype, files[0].name);
      assert ([r] + recs)[1..] == recs && !IsDir(r);
      Accounts(One(r, dir), Report(recs, dir), FileChanges(dir, TakeFiles(files, size).1));
    }
  }

  /** The records of a directory and of the first of its files account for their changes. */
  lemma {:induction false} DirReport(d: CDir, size: nat, dir: seq<Byte>)
    requires GoodDir(d)
    ensures var recs, files := OwnRec(d) + TakeFiles(d.files, size).0, TakeFiles(d.files, size).1;
            DirChanges(d) == Report(recs, dir) + FileChanges(Prefix(d.path), files) && GoodFiles(files)
  {
    var dir' := if d.HasRecord() then Prefix(d.path) else dir;
    var recs := TakeFiles(d.files, size).0;
    FilesReport(d.files, size, dir');
    ReportConcat(OwnRec(d), recs, dir);
    if d.HasRecord() {
      assert OwnRec(d)[1..] == [] && IsDir(OwnRec(d)[0]);
    }
  }

  /** The directory as the code sees it: that of the root directory itself has no change. */
  function Seen(d: CDir): CDir {
    d.(ctype := d.Type())
  }

  /** The record of the directory does not fit. */
  predicate Blocked(d: CDir, size: nat) {
    d.HasRecord() && size + 3 + |d.path| >= 4096
  }

  /** The directory is the last thing of the reply: its record or some of its files do not fit. */
  lemma {:induction false} TakeStops(list: seq<CDir>, size: nat, d: CDir, take: (seq<Rec>, seq<CFile>, nat))
    requires list != [] && d == Seen(list[0]) && take == TakeFiles(d.files, Used(d, size))
    ensures Blocked(d, size) ==> Take(list, size) == ([], [d] + list[1..])
    ensures !Blocked(d, size) && take.1 != [] ==>
              Take(list, size) == (OwnRec(d) + take.0, [d.(ctype := NONE, files := take.1)] + list[1..])
  {
  }

  /** The directory is done: it is the last one, or the reply goes on. */
  lemma {:induction false} TakeGoesOn(list: seq<CDir>, size: nat, d: CDir, take: (seq<Rec>, seq<CFile>, nat))
    requires list != [] && d == Seen(list[0]) && take == TakeFiles(d.files, Used(d, size)) && !Blocked(d, size)
    requires take.1 == []
    ensures |list| > 1 || take.2 == 0 ==>
              Take(list, size) == (OwnRec(d) + take.0 + Take(list[1..], take.2).0, Take(list[1..], take.2).1)
    ensures |list| == 1 && take.2 != 0 ==>
              Take(list, size) == (OwnRec(d) + take.0, [d.(ctype := NONE, path := [], files := [])])
  {
  }

  lemma {:induction false} Accounts<T>(a: seq<T>, b: seq<T>, c: seq<T>)
    ensures a + (b + c) == (a + b) + c
  {
  }

  lemma {:induction false} GoodSeen(list: seq<CDir>)
    requires GoodList(list) && list != []
    ensures GoodDir(Seen(list[0])) && GoodList(list[1..])
    ensures Expected(list) == DirChanges(Seen(list[0])) + Expected(list[1..])
  {
    assert GoodDir(list[0]);
  }

  lemma {:induction false} HeadOf(e: CDir, tail: seq<CDir>)
    requires GoodDir(e) && GoodList(tail)
    ensures GoodList([e] + tail) && Expected([e] + tail) == DirChanges(e) + Expected(tail)
  {
    assert ([e] + tail)[1..] == tail;
  }

  /** Some of the files of a directory are left. */
  lemma {:induction false} TakePart(d: CDir, tail: seq<CDir>, sent: seq<Change>, files: seq<CFile>)
    requires GoodDir(d) && GoodList(tail) && files != [] && d.files != [] && GoodFiles(files)
    requires DirChanges(d) == sent + FileChanges(Prefix(d.path), files)
    ensures var rest := [d.(ctype := NONE, files := files)] + tail;
            GoodList(rest) && DirChanges(d) + Expected(tail) == sent + Expected(rest)
  {
    var e, more := d.(ctype := NONE, files := files), FileChanges(Prefix(d.path), files);
    HeadOf(e, tail);
    assert DirChanges(e) == more by {
      assert [] + more == more;
    }
    Accounts(sent, more, Expected(tail));
  }

  /** A reply and the list it leaves account for all changes, each once and in order. */
  lemma {:induction false} TakeReport(list: seq<CDir>, size: nat, dir: seq<Byte>)
    requires GoodList(list)
    ensures Expected(list) == Report(Take(list, size).0, dir) + Expected(Take(list, size).1)
    ensures GoodList(Take(list, size).1)
    decreases |list|, 1
  {
    if list != [] {
      GoodSeen(list);
      var d, tail := Seen(list[0]), list[1..];
      var take := TakeFiles(d.files, Used(d, size));
      TakeStops(list, size, d, take);
      if Blocked(d, size) {
        HeadOf(d, tail);
      } else {
        DirReport(d, Used(d, size), dir);
        if take.1 != [] {
          TakePart(d, tail, Report(OwnRec(d) + take.0, dir), take.1);
        } else {
          TakeRest(list, size, dir, d, take);
        }
      }
    }
  }

  lemma {:induction false} TakeRest(list: seq<CDir>, size: nat, dir: seq<Byte>, d: CDir,
                                    take: (seq<Rec>, seq<CFile>, nat))
    requires GoodList(list) && list != [] && d == Seen(list[0]) && take == TakeFiles(d.files, Used(d, size))
    requires !Blocked(d, size) && take.1 == [] && DirChanges(d) == Report(OwnRec(d) + take.0, dir)
    ensures Expected(list) == Report(Take(list, size).0, dir) + Expected(Take(list, size).1)
    ensures GoodList(Take(list, size).1)
    decreases |list|, 0
  {
    GoodSeen(list);
    TakeGoesOn(list, size, d, take);
    if |list| > 1 || take.2 == 0 {
      var recs, more := OwnRec(d) + take.0, Take(list[1..], take.2);
      TakeReport(list[1..], take.2, DirAfter(recs, dir));
      ReportConcat(recs, more.0, dir);
      Accounts(Report(recs, dir), Report(more.0, DirAfter(recs, dir)), Expected(more.1));
    } else {
      HeadOf(d.(ctype := NONE, path := [], files := []), []);
    }
  }

  // ----- Progress -----

  /** The record of the directory fits a block, and together with it the record of each of its files. */
  ghost predicate FitsDir(d: CDir) {
    && (d.HasRecord() ==> |d.path| + 3 < 4096)
    && forall i :: 0 <= i < |d.files| ==> (|d.path| + 3) + (|d.files[i].name| + 3) < 4096
  }

  ghost predicate AllFit(list: seq<CDir>) {
    forall i :: 0 <= i < |list| ==> FitsDir(list[i])
  }

  /** What is left to send. */
  function Weight(list: seq<CDir>): nat {
    if list == [] then 0 else 1 + (if list[0].Type() == NONE then 0 else 1) + |list[0].files| + Weight(list[1..])
  }

  lemma {:induction false} FilesTaken(files: seq<CFile>, size: nat)
    ensures var take := TakeFiles(files, size);
            && |take.1| + |take.0| == |files| && take.1 == files[|files| - |take.1|..] && size <= take.2
            && (take.2 == size <==> take.0 == [])
  {
    if files != [] && size + 3 + |files[0].name| < 4096 {
      FilesTaken(files[1..], size + 3 + |files[0].name|);
    }
  }

  lemma {:induction false} WeightHead(e: CDir, tail: seq<CDir>)
    ensures Weight([e] + tail) == 1 + (if e.Type() == NONE then 0 else 1) + |e.files| + Weight(tail)
  {
    assert ([e] + tail)[1..] == tail;
  }

  lemma {:induction false} FitHead(e: CDir, tail: seq<CDir>)
    requires FitsDir(e) && AllFit(tail)
    ensures AllFit([e] + tail)
  {
  }

  /** A reply sends something new, unless nothing is left. */
  lemma {:induction false} TakeProgress(list: seq<CDir>, size: nat)
    requires AllFit(list)
    ensures AllFit(Take(list, size).1) && Weight(Take(list, size).1) <= Weight(list)
    ensures size == 0 && Take(list, size).0 == [] ==> Take(list, size).1 == []
    ensures size == 0 && Take(list, size).0 != [] ==> Weight(Take(list, size).1) < Weight(list)
  {
    if list != [] {
      var d, tail := Seen(list[0]), list[1..];
      var take := TakeFiles(d.files, Used(d, size));
      assert FitsDir(list[0]) && FitsDir(d);
      FilesTaken(d.files, Used(d, size));
      TakeStops(list, size, d, take);
      if Blocked(d, size) {
        WeightHead(d, tail);
      } else if take.1 != [] {
        var e := d.(ctype := NONE, files := take.1);
        WeightHead(e, tail);
        FitHead(e, tail);
      } else {
        TakeGoesOn(list, size, d, take);
        if |list| > 1 || take.2 == 0 {
          TakeProgress(tail, take.2);
        } else {
          WeightHead(d.(ctype := NONE, path := [], files := []), []);
        }
      }
    }
  }

  // ----- Exactly when the driver gets all changes -----

  lemma {:induction false} FileStays(files: seq<CFile>, size: nat, k: nat)
    requires k < |files| && size + 3 + |files[k].name| >= 4096
    ensures |TakeFiles(files, size).1| >= |files| - k
  {
    if k > 0 && size + 3 + |files[0].name| < 4096 {
      assert files[1..][k - 1] == files[k];
      FileStays(files[1..], size + 3 + |files[0].name|, k - 1);
    }
  }

  lemma UnfitAt(e: CDir, j: nat, name: seq<Byte>)
    requires j < |e.files| && e.files[j].name == name && (|e.path| + 3) + (|name| + 3) >= 4096
    ensures !FitsDir(e)
  {
  }

  /** A directory that does not fit is never done. */
  lemma {:induction false} UnfitStays(d: CDir, size: nat, take: (seq<Rec>, seq<CFile>, nat))
    requires !FitsDir(d) && take == TakeFiles(d.files, Used(d, size)) && !Blocked(d, size)
    ensures take.1 != [] && !FitsDir(d.(ctype := NONE, files := take.1))
  {
    var k :| 0 <= k < |d.files| && (|d.path| + 3) + (|d.files[k].name| + 3) >= 4096;
    FileStays(d.files, Used(d, size), k);
    FilesTaken(d.files, Used(d, size));
    var skipped := |d.files| - |take.1|;
    UnfitAt(d.(ctype := NONE, files := take.1), k - skipped, d.files[k].name);
  }

  lemma {:induction false} UnfitHead(e: CDir, tail: seq<CDir>)
    ensures AllFit([e] + tail) <==> FitsDir(e) && AllFit(tail)
  {
    assert ([e] + tail)[0] == e;
    if AllFit([e] + tail) {
      forall i | 0 <= i < |tail| ensures FitsDir(tail[i]) {
        assert tail[i] == ([e] + tail)[i + 1];
      }
    }
  }

  lemma {:induction false} TakeUnfit(list: seq<CDir>, size: nat)
    requires !AllFit(list)
    ensures !AllFit(Take(list, size).1)
  {
    var d, tail := Seen(list[0]), list[1..];
    assert list == [list[0]] + tail && (FitsDir(list[0]) <==> FitsDir(d));
    UnfitHead(list[0], tail);
    var take := TakeFiles(d.files, Used(d, size));
    TakeStops(list, size, d, take);
    if Blocked(d, size) {
      UnfitHead(d, tail);
    } else if !FitsDir(d) {
      UnfitStays(d, size, take);
      UnfitHead(d.(ctype := NONE, files := take.1), tail);
    } else if take.1 != [] {
      UnfitHead(d.(ctype := NONE, files := take.1), tail);
    } else {
      TakeGoesOn(list, size, d, take);
      TakeUnfit(tail, take.2);
    }
  }

  lemma {:induction false} UnfitHasChange(list: seq<CDir>)
    requires !AllFit(list)
    ensures Expected(list) != []
  {
    assert list == [list[0]] + list[1..];
    UnfitHead(list[0], list[1..]);
    if FitsDir(list[0]) {
      UnfitHasChange(list[1..]);
    }
  }

  /** The list after `n` replies. */
  function After(list: seq<CDir>, n: nat): seq<CDir>
    decreases n
  {
    if n == 0 then list else After(Take(list, 0).1, n - 1)
  }

  /** What the driver has made of `n` replies. */
  function Received(list: seq<CDir>, n: nat, dir: seq<Byte>): seq<Change>
    decreases n
  {
    if n == 0 then []
    else Report(Take(list, 0).0, dir) + Received(Take(list, 0).1, n - 1, DirAfter(Take(list, 0).0, dir))
  }

  /** The driver stops after `n` replies with records, because the next one has none. */
  ghost predicate Stops(list: seq<CDir>, n: nat) {
    && Take(After(list, n), 0).0 == []
    && forall m: nat {:trigger After(list, m)} :: m < n ==> Take(After(list, m), 0).0 != []
  }

  lemma {:induction false} ReceivedSoFar(list: seq<CDir>, n: nat, dir: seq<Byte>)
    requires GoodList(list)
    ensures Expected(list) == Received(list, n, dir) + Expected(After(list, n))
    ensures AllFit(list) || !AllFit(After(list, n))
    decreases n
  {
    if n > 0 {
      var recs, rest := Take(list, 0).0, Take(list, 0).1;
      TakeReport(list, 0, dir);
      ReceivedSoFar(rest, n - 1, DirAfter(recs, dir));
      Accounts(Report(recs, dir), Received(rest, n - 1, DirAfter(recs, dir)), Expected(After(list, n)));
      if !AllFit(list) {
        TakeUnfit(list, 0);
      }
    }
  }

  /** How many replies it takes when everything fits. */
  lemma {:induction false} AllReceived(list: seq<CDir>, dir: seq<Byte>) returns (n: nat)
    requires GoodList(list) && AllFit(list)
    ensures Stops(list, n) && After(list, n + 1) == [] && Received(list, n, dir) == Expected(list)
    decreases Weight(list)
  {
    TakeProgress(list, 0);
    TakeReport(list, 0, dir);
    var recs, rest := Take(list, 0).0, Take(list, 0).1;
    if recs == [] {
      n := 0;
    } else {
      var k := AllReceived(rest, DirAfter(recs, dir));
      n := k + 1;
      StopsNext(list, k);
    }
  }

  lemma StopsNext(list: seq<CDir>, n: nat)
    requires Take(list, 0).0 != [] && Stops(Take(list, 0).1, n)
    ensures Stops(list, n + 1)
  {
    forall m: nat | m < n + 1
      ensures Take(After(list, m), 0).0 != []
    {
      if m > 0 {
        assert After(list, m) == After(Take(list, 0).1, m - 1);
      }
    }
  }

  /** The driver rebuilds the list of changes if and only if every directory record fits a block together with the
      record of each file in the directory. Otherwise it stops too early or never stops. */
  lemma {:induction false} ReceivedExactly(list: seq<CDir>)
    requires GoodList(list)
    ensures (exists n: nat :: Stops(list, n) && Received(list, n, []) == Expected(list)) <==> AllFit(list)
  {
    if AllFit(list) {
      var n := AllReceived(list, []);
    } else {
      forall n: nat ensures Received(list, n, []) != Expected(list) {
        ReceivedSoFar(list, n, []);
        UnfitHasChange(After(list, n));
      }
    }
  }

  /** The failure that does not end: a directory whose record fits a block by itself, with a first file whose record
      does too, but not the two together. Every reply repeats the record of the directory. */
  lemma {:induction false} NeverStops(d: CDir, tail: seq<CDir>, n: nat)
    requires d.Type() == NONE && d.ctype == NONE && |d.path| + 3 < 4096
    requires d.files != [] && (|d.path| + 3) + (|d.files[0].name| + 3) >= 4096
    ensures After([d] + tail, n) == [d] + tail && !Stops([d] + tail, n)
    decreases n
  {
    var list := [d] + tail;
    assert list[1..] == tail && Seen(list[0]) == d;
    var take := TakeFiles(d.files, Used(d, 0));
    TakeStops(list, 0, d, take);
    assert d.(ctype := NONE, files := take.1) == d;
    if n > 0 {
      NeverStops(d, tail, n - 1);
    }
  }

  // ----- Bytes -----

  /** The bytes of a record: the length of the path in two bytes, the low one first, the type, and the path. */
  function RecBytes(r: Rec): seq<Byte> {
    [(|r.path| % 256) as Byte, (|r.path| / 256 % 256) as Byte, (r.ctype % 256) as Byte] + r.path
  }

  function Encode(recs: seq<Rec>): seq<Byte> {
    if recs == [] then [] else RecBytes(recs[0]) + Encode(recs[1..])
  }

  lemma {:induction false} EncodeConcat(a: seq<Rec>, b: seq<Rec>)
    ensures Encode(a + b) == Encode(a) + Encode(b)
  {
    if a == [] {
      assert a + b == b;
    } else {
      assert (a + b)[1..] == a[1..] + b;
      EncodeConcat(a[1..], b);
    }
  }

  lemma {:induction false} EncodeMore(recs: seq<Rec>, r: Rec)
    ensures Encode(recs + [r]) == Encode(recs) + RecBytes(r)
  {
    EncodeConcat(recs, [r]);
    assert [r][1..] == [];
  }

  /** A block: the bytes of a reply, filled up with zeros. */
  function Block(bytes: seq<Byte>): seq<Byte> {
    if |bytes| < 4096 then bytes + seq(4096 - |bytes|, i => 0) else bytes
  }

  /** The loop of `lc_replyDiff` has put `recs` into `size` bytes of the block and has `now` left; `more` says that it
      goes on. */
  ghost predicate Taking(list: seq<CDir>, recs: seq<Rec>, now: seq<CDir>, size: nat, more: bool) {
    && Take(list, 0).0 == (if more then recs + Take(now, size).0 else recs)
    && Take(list, 0).1 == if more then Take(now, size).1 else now
  }

  /** What the loop does with a directory. */
  lemma {:induction false} TakingDir(list: seq<CDir>, recs: seq<Rec>, now: seq<CDir>, size: nat, recs': seq<Rec>,
                                     size': nat, d: CDir)
    requires Taking(list, recs, now, size, true) && now != [] && !Blocked(Seen(now[0]), size)
    requires var s := Seen(now[0]); var take := TakeFiles(s.files, Used(s, size));
             recs' == recs + (OwnRec(s) + take.0) && size' == take.2 && d == s.(ctype := NONE, files := take.1)
    ensures d.files != [] ==> Taking(list, recs', [d] + now[1..], size', false)
    ensures d.files == [] && (|now| > 1 || size' == 0) ==> Taking(list, recs', now[1..], size', true)
    ensures d.files == [] && !(|now| > 1 || size' == 0) ==> Taking(list, recs', [d.(path := [])], size', false)
  {
    var s := Seen(now[0]);
    var take := TakeFiles(s.files, Used(s, size));
    TakeStops(now, size, s, take);
    if take.1 == [] {
      TakeGoesOn(now, size, s, take);
      if |now| > 1 || size' == 0 {
        Accounts(recs, OwnRec(s) + take.0, Take(now[1..], size').0);
      }
    }
  }

  lemma {:induction false} FilesFull(files: seq<CFile>, size: nat)
    ensures var take := TakeFiles(files, size);
            && take.2 == size + |Encode(take.0)|
            && (take.1 != [] ==> take.2 + 3 + |take.1[0].name| >= 4096)
  {
    if files != [] && size + 3 + |files[0].name| < 4096 {
      FilesFull(files[1..], size + 3 + |files[0].name|);
      var recs := TakeFiles(files[1..], size + 3 + |files[0].name|).0;
      assert ([Rec(files[0].ctype, files[0].name)] + recs)[1..] == recs;
    }
  }

  lemma NothingLeft(e: CDir)
    requires !e.HasRecord()
    ensures Expected([e]) == []
  {
    assert [e][1..] == [];
  }

  /** The next record, that of the first directory or that of its first file, does not fit after `size` bytes. */
  ghost predicate NoRoom(list: seq<CDir>, size: nat) {
    && list != [] && list[0].HasRecord()
    && (|| size + 3 + |list[0].path| >= 4096
        || (list[0].files != [] && size + 3 + |list[0].files[0].name| >= 4096))
  }

  /** A reply is as full as it can be: if it leaves any change, the next record does not fit. */
  lemma {:induction false} TakeFull(list: seq<CDir>, size: nat)
    ensures Expected(Take(list, size).1) != [] ==> NoRoom(Take(list, size).1, size + |Encode(Take(list, size).0)|)
  {
    if list != [] {
      var d, tail := Seen(list[0]), list[1..];
      var take := TakeFiles(d.files, Used(d, size));
      TakeStops(list, size, d, take);
      FilesFull(d.files, Used(d, size));
      EncodeConcat(OwnRec(d), take.0);
      assert Used(d, size) == size + |Encode(OwnRec(d))|;
      if !Blocked(d, size) && take.1 == [] {
        TakeGoesOn(list, size, d, take);
        if |list| > 1 || take.2 == 0 {
          TakeFull(tail, take.2);
          EncodeConcat(OwnRec(d) + take.0, Take(tail, take.2).0);
        } else {
          NothingLeft(d.(ctype := NONE, path := [], files := []));
        }
      }
    }
  }

  /** The list of changes of a layer, `fs_changes`. */
  class Changes {
    var list: seq<CDir>

    constructor (list: seq<CDir>)
      ensures this.list == list
    {
      this.list := list;
    }

    /** `lc_replyDiff`: the records that fit a block, as bytes; what was sent leaves the list. */
    method ReplyDiff() returns (buf: seq<Byte>)
      modifies this
      ensures list == Take(old(list), 0).1 && buf == Block(Encode(Take(old(list), 0).0)) && |buf| == 4096
      ensures |Encode(Take(old(list), 0).0)| < 4096
    {
      buf := [];
      ghost var recs := [];
      var more := true;
      while list != [] && more
        invariant buf == Encode(recs) && |buf| < 4096
        invariant Taking(old(list), recs, list, |buf|, more)
        decreases |list|, more
      {
        list, buf, recs, more := ReplyNext(old(list), list, buf, recs);
      }
      assert recs + [] == recs;
      buf := Block(buf);
    }
  }

  /** One directory of the loop of `lc_replyDiff`. */
  method ReplyNext(ghost all: seq<CDir>, list: seq<CDir>, buf: seq<Byte>, ghost recs: seq<Rec>)
    returns (list': seq<CDir>, buf': seq<Byte>, ghost recs': seq<Rec>, more: bool)
    requires list != [] && buf == Encode(recs) && |buf| < 4096 && Taking(all, recs, list, |buf|, true)
    ensures buf' == Encode(recs') && |buf'| < 4096 && Taking(all, recs', list', |buf'|, more)
    ensures more ==> |list'| < |list|
    ensures !more ==> |list'| <= |list|
  {
    var d := list[0].(ctype := list[0].Type());
    buf', recs', more := buf, recs, false;
    if d.HasRecord() && |buf| + 3 + |d.path| >= 4096 {
      TakeStops(list, |buf|, d, TakeFiles(d.files, Used(d, |buf|)));
      list' := [d] + list[1..];
    } else {
      buf', recs', d := SendDir(d, buf, recs);
      TakingDir(all, recs, list, |buf|, recs', |buf'|, d);
      if d.files != [] {
        list' := [d] + list[1..];
      } else if |list| > 1 || |buf'| == 0 {
        list', more := list[1..], true;
      } else {
        list' := [d.(path := [])];
      }
    }
  }

  /** The record of a directory and the records of as many of its files as fit. */
  method SendDir(d: CDir, buf: seq<Byte>, ghost recs: seq<Rec>)
      returns (buf': seq<Byte>, ghost recs': seq<Rec>, d': CDir)
    requires buf == Encode(recs) && |buf| < 4096 && !Blocked(d, |buf|) && d.ctype == d.Type()
    ensures buf' == Encode(recs') && |buf'| < 4096
    ensures var take := TakeFiles(d.files, Used(d, |buf|));
            recs' == recs + (OwnRec(d) + take.0) && d' == d.(ctype := NONE, files := take.1) && |buf'| == take.2
  {
    buf', recs' := buf, recs;
    if d.HasRecord() {
      EncodeMore(recs, Rec(d.ctype, d.path));
      buf', recs' := buf + RecBytes(Rec(d.ctype, d.path)), recs + [Rec(d.ctype, d.path)];
    }
    ghost var own := recs';
    assert own == recs + OwnRec(d);
    var files;
    buf', recs', files := SendFiles(d.files, buf', recs');
    d' := d.(ctype := NONE, files := files);
  }

  /** The inner loop of `lc_replyDiff`. */
  method SendFiles(files: seq<CFile>, buf: seq<Byte>, ghost recs: seq<Rec>)
    returns (buf': seq<Byte>, ghost recs': seq<Rec>, rest: seq<CFile>)
    requires buf == Encode(recs) && |buf| < 4096
    ensures buf' == Encode(recs') && |buf'| < 4096
    ensures recs' == recs + TakeFiles(files, |buf|).0 && rest == TakeFiles(files, |buf|).1
    ensures |buf'| == TakeFiles(files, |buf|).2
  {
    buf', recs', rest := buf, recs, files;
    while rest != [] && |buf'| + 3 + |rest[0].name| < 4096
      invariant buf' == Encode(recs') && |buf'| < 4096
      invariant recs + TakeFiles(files, |buf|).0 == recs' + TakeFiles(rest, |buf'|).0
      invariant TakeFiles(files, |buf|).1 == TakeFiles(rest, |buf'|).1
      invariant TakeFiles(files, |buf|).2 == TakeFiles(rest, |buf'|).2
      decreases |rest|
    {
      var r := Rec(rest[0].ctype, rest[0].name);
      EncodeMore(recs', r);
      ghost var size := |buf'| + 3 + |rest[0].name|;
      assert recs' + ([r] + TakeFiles(rest[1..], size).0) == (recs' + [r]) + TakeFiles(rest[1..], size).0;
      buf', recs', rest := buf' + RecBytes(r), recs' + [r], rest[1..];
    }
  }

  // ----- The driver -----

  /** Records the driver can read: the length of the path fits its two bytes and is not zero. */
  ghost predicate Readable(recs: seq<Rec>) {
    forall i :: 0 <= i < |recs| ==> 0 < |recs[i].path| < 65536 && recs[i].ctype < 256
  }

  lemma {:induction false} FilesReadable(files: seq<CFile>, size: nat)
    requires GoodFiles(files)
    ensures Readable(TakeFiles(files, size).0)
  {
    if files != [] && size + 3 + |files[0].name| < 4096 {
      FilesReadable(files[1..], size + 3 + |files[0].name|);
    }
  }

  lemma {:induction false} TakeReadable(list: seq<CDir>, size: nat)
    requires GoodList(list)
    ensures Readable(Take(list, size).0)
  {
    if list != [] {
      GoodSeen(list);
      var d := Seen(list[0]);
      var take := TakeFiles(d.files, Used(d, size));
      TakeStops(list, size, d, take);
      FilesReadable(d.files, Used(d, size));
      if !Blocked(d, size) && take.1 == [] {
        TakeGoesOn(list, size, d, take);
        if |list| > 1 || take.2 == 0 {
          TakeReadable(list[1..], take.2);
        }
      }
    }
  }

  lemma {:induction false} SliceAt(a: seq<Byte>, b: seq<Byte>, c: seq<Byte>, cbuf: seq<Byte>)
    requires |a + b + c| <= |cbuf| && cbuf[..|a + b + c|] == a + b + c
    ensures cbuf[|a|..|a| + |b|] == b
  {
    assert (a + b + c)[|a|..|a| + |b|] == b;
  }

  lemma {:induction false} EncodeCut(recs: seq<Rec>, k: nat)
    requires k < |recs|
    ensures Encode(recs) == Encode(recs[..k]) + Encode([recs[k]]) + Encode(recs[k + 1..])
    ensures Encode(recs[..k + 1]) == Encode(recs[..k]) + Encode([recs[k]])
  {
    EncodeConcat(recs[..k], [recs[k]]);
    EncodeConcat(recs[..k + 1], recs[k + 1..]);
    assert recs[..k + 1] == recs[..k] + [recs[k]] && recs == recs[..k + 1] + recs[k + 1..];
  }

  lemma {:induction false} Header(r: Rec)
    requires 0 < |r.path| < 65536 && r.ctype < 256
    ensures |Encode([r])| == 3 + |r.path| && Encode([r])[3..] == r.path && Encode([r])[2] as nat == r.ctype
    ensures Encode([r])[0] as nat + 256 * Encode([r])[1] as nat == |r.path|
  {
    assert Encode([r]) == RecBytes(r) by {
      assert [r][1..] == [];
    }
  }

  /** Where a record starts in a block, the driver finds it. */
  lemma {:induction false} ReadHere(recs: seq<Rec>, k: nat, cbuf: seq<Byte>)
    requires cbuf == Block(Encode(recs)) && |Encode(recs)| < 4096 && k < |recs| && Readable(recs)
    ensures |Encode(recs[..k])| + 3 + |recs[k].path| < 4096
    ensures |Encode(recs[..k + 1])| == |Encode(recs[..k])| + 3 + |recs[k].path|
    ensures |cbuf| == 4096 && cbuf[|Encode(recs[..k])|..|Encode(recs[..k + 1])|] == Encode([recs[k]])
  {
    EncodeCut(recs, k);
    Header(recs[k]);
    SliceAt(Encode(recs[..k]), Encode([recs[k]]), Encode(recs[k + 1..]), cbuf);
  }

  lemma {:induction false} ReadEnd(recs: seq<Rec>, cbuf: seq<Byte>)
    requires cbuf == Block(Encode(recs)) && |Encode(recs)| + 3 < 4096
    ensures |cbuf| == 4096 && cbuf[|Encode(recs)|] == 0 && cbuf[|Encode(recs)| + 1] == 0
  {
  }

  /** One record of the loop of the driver. */
  method ReadOne(cbuf: seq<Byte>, psize: nat, dir0: seq<Byte>, changes0: seq<Change>, ghost r: Rec)
    returns (plen: nat, dir: seq<Byte>, changes: seq<Change>)
    requires 0 < |r.path| < 65536 && r.ctype < 256 && psize + 3 + |r.path| <= |cbuf|
    requires cbuf[psize..psize + 3 + |r.path|] == Encode([r])
    ensures plen == |r.path| && dir == StepDir(r, dir0) && changes == changes0 + One(r, dir0)
    ensures dir == if r.path[0] != 47 then dir0 else if r.path == [47] then [] else r.path
    ensures r.ctype == 3 ==> changes == changes0
    ensures r.ctype != 3 ==>
              changes == changes0 + [Change(if r.path[0] == 47 then r.path else dir0 + [47] + r.path, r.ctype)]
  {
    Header(r);
    ghost var slice := cbuf[psize..psize + 3 + |r.path|];
    assert slice[0] == cbuf[psize] && slice[1] == cbuf[psize + 1] && slice[2] == cbuf[psize + 2];
    plen := cbuf[psize] as nat + 256 * cbuf[psize + 1] as nat;
    var ctype, file := cbuf[psize + 2] as nat, cbuf[psize + 3..psize + 3 + plen];
    assert file == slice[3..];
    dir, changes := dir0, changes0;
    if file[0] == SLASH {
      dir := if |file| > 1 then file else [];
    } else {
      file := dir + [SLASH] + file;
    }
    if ctype != NONE {
      changes := changes + [Change(file, ctype)];
    }
  }

  /** The loop of the driver over the records of a block. */
  method ReadChunk(cbuf: seq<Byte>, dir0: seq<Byte>, changes0: seq<Change>, ghost recs: seq<Rec>)
    returns (psize: nat, dir: seq<Byte>, changes: seq<Change>)
    requires cbuf == Block(Encode(recs)) && |Encode(recs)| < 4096 && Readable(recs)
    ensures psize == |Encode(recs)| && dir == DirAfter(recs, dir0) && changes == changes0 + Report(recs, dir0)
  {
    psize, dir, changes := 0, dir0, changes0;
    ghost var k := 0;
    Ahead(recs, 0, cbuf);
    while psize + 3 < 4096
      invariant k <= |recs| && psize == |Encode(recs[..k])| && (k < |recs| ==> psize + 3 < 4096)
      invariant Reading(recs, dir0, changes0, k, dir, changes)
      decreases |recs| - k
    {
      Ahead(recs, k, cbuf);
      if cbuf[psize] as nat + 256 * cbuf[psize + 1] as nat == 0 {
        break;
      }
      ReadingNext(recs, dir0, changes0, k, dir, changes);
      var plen;
      plen, dir, changes := ReadOne(cbuf, psize, dir, changes, recs[k]);
      psize, k := psize + 3 + plen, k + 1;
      Ahead(recs, k, cbuf);
    }
    assert recs[..|recs|] == recs;
  }

  /** The driver has read `k` records. */
  ghost predicate Reading(recs: seq<Rec>, dir0: seq<Byte>, changes0: seq<Change>, k: nat, dir: seq<Byte>,
                          changes: seq<Change>)
  {
    && k <= |recs| && changes0 + Report(recs, dir0) == changes + Report(recs[k..], dir)
    && DirAfter(recs, dir0) == DirAfter(recs[k..], dir)
  }

  lemma {:induction false} ReadingNext(recs: seq<Rec>, dir0: seq<Byte>, changes0: seq<Change>, k: nat, dir: seq<Byte>,
                                       changes: seq<Change>)
    requires k < |recs| && Reading(recs, dir0, changes0, k, dir, changes)
    ensures Reading(recs, dir0, changes0, k + 1, StepDir(recs[k], dir), changes + One(recs[k], dir))
  {
    assert recs[k..][1..] == recs[k + 1..];
    Accounts(changes, One(recs[k], dir), Report(recs[k + 1..], StepDir(recs[k], dir)));
  }

  /** What the driver finds after `k` records: the next record, or an empty one. */
  lemma {:induction false} Ahead(recs: seq<Rec>, k: nat, cbuf: seq<Byte>)
    requires cbuf == Block(Encode(recs)) && |Encode(recs)| < 4096 && k <= |recs| && Readable(recs)
    ensures |cbuf| == 4096
    ensures var p := |Encode(recs[..k])|;
            k < |recs| ==> && p + 3 + |recs[k].path| < 4096 && |Encode(recs[..k + 1])| == p + 3 + |recs[k].path|
                           && cbuf[p..p + 3 + |recs[k].path|] == Encode([recs[k]])
    ensures var p := |Encode(recs[..k])|;
            p + 3 < 4096 ==> (cbuf[p] as nat + 256 * cbuf[p + 1] as nat == 0 <==> k == |recs|)
  {
    if k < |recs| {
      ReadHere(recs, k, cbuf);
      Header(recs[k]);
      var p := |Encode(recs[..k])|;
      var slice := cbuf[p..p + 3 + |recs[k].path|];
      assert slice[0] == cbuf[p] && slice[1] == cbuf[p + 1];
    } else {
      assert recs[..k] == recs;
      if |Encode(recs)| + 3 < 4096 {
        ReadEnd(recs, cbuf);
      }
    }
  }

  /** A reply has been received and not read: what has been read, what it has and what is left are all the changes. */
  ghost predicate Receiving(all: seq<CDir>, changes: seq<Change>, dir: seq<Byte>, cbuf: seq<Byte>, recs: seq<Rec>,
                            list: seq<CDir>)
  {
    && Expected(all) == changes + (Report(recs, dir) + Expected(list)) && GoodList(list) && AllFit(list)
    && cbuf == Block(Encode(recs)) && |Encode(recs)| < 4096 && Readable(recs) && (recs == [] ==> list == [])
  }

  lemma {:induction false} ReceiveNext(all: seq<CDir>, changes: seq<Change>, dir: seq<Byte>, list: seq<CDir>)
    requires Expected(all) == changes + Expected(list) && GoodList(list) && AllFit(list)
    requires |Encode(Take(list, 0).0)| < 4096
    ensures Receiving(all, changes, dir, Block(Encode(Take(list, 0).0)), Take(list, 0).0, Take(list, 0).1)
    ensures Take(list, 0).0 != [] ==> Weight(Take(list, 0).1) < Weight(list)
    ensures Weight(Take(list, 0).1) <= Weight(list)
  {
    TakeReport(list, 0, dir);
    TakeProgress(list, 0);
    TakeReadable(list, 0);
  }

  lemma {:induction false} EncodeSome(recs: seq<Rec>)
    ensures |Encode(recs)| == 0 <==> recs == []
  {
  }

  /** The loop of the driver over replies: it ends and has rebuilt the list of changes. */
  method GetChanges(c: Changes) returns (changes: seq<Change>)
    requires GoodList(c.list) && AllFit(c.list)
    modifies c
    ensures changes == Expected(old(c.list)) && c.list == []
  {
    var dir := [];
    changes := [];
    ghost var recs := Take(c.list, 0).0;
    var cbuf := c.ReplyDiff();
    assert [] + Expected(old(c.list)) == Expected(old(c.list));
    ReceiveNext(old(c.list), changes, dir, old(c.list));
    while true
      invariant Receiving(old(c.list), changes, dir, cbuf, recs, c.list)
      decreases Weight(c.list), recs != []
    {
      EncodeSome(recs);
      Accounts(changes, Report(recs, dir), Expected(c.list));
      var psize;
      psize, dir, changes := ReadChunk(cbuf, dir, changes, recs);
      if psize == 0 {
        break;
      }
      ghost var list := c.list;
      recs := Take(list, 0).0;
      cbuf := c.ReplyDiff();
      ReceiveNext(old(c.list), changes, dir, list);
    }
  }
}
