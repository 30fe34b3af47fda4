/**
  * Reading a directory in pieces (lcfs/dir.c, `lc_dirReaddir`). Every entry of a reply carries a cookie made of its
  * list and its index; the next call goes on from the last cookie. Entries may come and go between the calls.
  */
module Readdir {
  import opened Dirs

  /** An entry in its list. */
  datatype Item = Item(list: nat, e: Dirent)

  /** How far a reader has come: past index `index` of list `list`, or nowhere in that list if `index` is zero. */
  datatype Mark = Mark(list: nat, index: nat)

  predicate Ahead(m: Mark, x: Item) {
    x.list > m.list || (x.list == m.list && (m.index == 0 || x.e.index < m.index))
  }

  ghost predicate Holds(lists: Lists, x: Item) {
    x.list < |lists| && x.e in lists[x.list]
  }

  // ----- Cookies -----

  /** `hoff | dirent->di_index`. */
  function Cookie(hashed: bool, x: Item): nat {
    (if hashed then x.list else 512) * INDEXES + x.e.index
  }

  /** A directory that has become a hash table since the last call is read from the beginning. */
  function Decode(hashed: bool, off: nat): Mark {
    if !hashed then Mark(0, off % INDEXES)
    else if off / INDEXES == 512 then Mark(0, 0)
    else Mark(off / INDEXES, off % INDEXES)
  }

  lemma CookieMark(hashed: bool, x: Item)
    requires x.list < Width(hashed) && x.e.index < INDEXES
    ensures Decode(hashed, Cookie(hashed, x)) == Mark(x.list, x.e.index) && Cookie(hashed, x) / INDEXES <= 512
  {
    var hoff := if hashed then x.list else 512;
    assert (hoff * 0x1_0000_0000 + x.e.index) / 0x1_0000_0000 == hoff;
    assert (hoff * 0x1_0000_0000 + x.e.index) % 0x1_0000_0000 == x.e.index;
  }

  // ----- What is left to read -----

  function Skip(l: seq<Dirent>, off: nat): seq<Dirent> {
    if off == 0 || l == [] || l[0].index < off then l else Skip(l[1..], off)
  }

  function ItemsOf(l: seq<Dirent>, i: nat): (r: seq<Item>)
    ensures |r| == |l|
  {
    if l == [] then [] else [Item(i, l[0])] + ItemsOf(l[1..], i)
  }

  /** The entries of a directory from index `off` of list `i` on, in the order in which they are read. */
  function Rest(lists: Lists, i: nat, off: nat): seq<Item>
    decreases |lists| - i
  {
    if i >= |lists| then [] else ItemsOf(Skip(lists[i], off), i) + Rest(lists, i + 1, 0)
  }

  lemma {:induction false} ItemsIn(l: seq<Dirent>, i: nat, x: Item)
    ensures x in ItemsOf(l, i) <==> x.list == i && x.e in l
  {
    if l != [] {
      ItemsIn(l[1..], i, x);
      assert x.e in l <==> x.e == l[0] || x.e in l[1..];
    }
  }

  lemma {:induction false} Below(l: seq<Dirent>, hashed: bool, i: nat, e: Dirent)
    requires Good(l, hashed, i) && e in l
    ensures 0 < e.index <= TopIndex(l)
  {
    if e != l[0] {
      Below(l[1..], hashed, i, e);
    }
  }

  lemma {:induction false} SkipIs(l: seq<Dirent>, hashed: bool, i: nat, off: nat, e: Dirent)
    requires Good(l, hashed, i)
    ensures Good(Skip(l, off), hashed, i)
    ensures e in Skip(l, off) <==> e in l && (off == 0 || e.index < off)
  {
    if off == 0 || l == [] {
    } else if l[0].index < off {
      if e in l {
        Below(l, hashed, i, e);
      }
    } else {
      SkipIs(l[1..], hashed, i, off, e);
      assert e in l <==> e == l[0] || e in l[1..];
    }
  }

  lemma {:induction false} RestIn(lists: Lists, hashed: bool, i: nat, off: nat, x: Item)
    requires Proper(lists, hashed)
    ensures x in Rest(lists, i, off) <==> Holds(lists, x) && Ahead(Mark(i, off), x)
    decreases |lists| - i
  {
    if i < |lists| {
      RestIn(lists, hashed, i + 1, 0, x);
      ItemsIn(Skip(lists[i], off), i, x);
      SkipIs(lists[i], hashed, i, off, x.e);
    }
  }

  /** The order in which entries are read. */
  predicate Before(x: Item, y: Item) {
    x.list < y.list || (x.list == y.list && x.e.index > y.e.index)
  }

  ghost predicate Sorted(s: seq<Item>) {
    forall a, b {:trigger s[a], s[b]} :: 0 <= a < b < |s| ==> Before(s[a], s[b])
  }

  lemma SortedConcat(s: seq<Item>, t: seq<Item>)
    requires Sorted(s) && Sorted(t) && forall x, y {:trigger x in s, y in t} :: x in s && y in t ==> Before(x, y)
    ensures Sorted(s + t)
  {
    forall a, b | 0 <= a < b < |s + t| ensures Before((s + t)[a], (s + t)[b]) {
      if a < |s| <= b {
        assert s[a] in s && t[b - |s|] in t;
      }
    }
  }

  lemma {:induction false} ItemsSorted(l: seq<Dirent>, hashed: bool, i: nat)
    requires Good(l, hashed, i)
    ensures Sorted(ItemsOf(l, i))
  {
    if l != [] {
      ItemsSorted(l[1..], hashed, i);
      forall x, y | x in [Item(i, l[0])] && y in ItemsOf(l[1..], i) ensures Before(x, y) {
        ItemsIn(l[1..], i, y);
        Below(l[1..], hashed, i, y.e);
      }
      SortedConcat([Item(i, l[0])], ItemsOf(l[1..], i));
    }
  }

  lemma {:induction false} RestSorted(lists: Lists, hashed: bool, i: nat, off: nat)
    requires Proper(lists, hashed)
    ensures Sorted(Rest(lists, i, off))
    decreases |lists| - i
  {
    if i < |lists| {
      RestSorted(lists, hashed, i + 1, 0);
      var l := Skip(lists[i], off);
      SkipIs(lists[i], hashed, i, off, Dirent(0, 0, [], 0));
      ItemsSorted(l, hashed, i);
      forall x, y | x in ItemsOf(l, i) && y in Rest(lists, i + 1, 0) ensures Before(x, y) {
        ItemsIn(l, i, x);
        RestIn(lists, hashed, i + 1, 0, y);
      }
      SortedConcat(ItemsOf(l, i), Rest(lists, i + 1, 0));
    }
  }

  // ----- A call -----

  /** All indices fit in a cookie. */
  ghost predicate Indexed(lists: Lists) {
    forall i {:trigger lists[i]} :: 0 <= i < |lists| ==> TopIndex(lists[i]) < INDEXES
  }

  /** What one call returns: the entries that follow the cookie, as many as fit, and none only if there are none
      left. */
  ghost predicate Replies(lists: Lists, hashed: bool, off: nat, reply: seq<Item>) {
    var m := Decode(hashed, off);
    && Proper(lists, hashed) && Indexed(lists) && reply <= Rest(lists, m.list, m.index)
    && (reply == [] ==> Rest(lists, m.list, m.index) == [])
  }

  /** The cookie for the next call. */
  function NextOff(hashed: bool, off: nat, reply: seq<Item>): nat {
    if reply == [] then off else Cookie(hashed, reply[|reply| - 1])
  }

  method SkipTo(l: seq<Dirent>, off: nat) returns (k: nat)
    ensures k <= |l| && l[k..] == Skip(l, off)
  {
    k := 0;
    assert l[0..] == l;
    while off != 0 && k < |l| && l[k].index >= off
      invariant k <= |l| && Skip(l[k..], off) == Skip(l, off)
    {
      assert l[k..][1..] == l[k + 1..];
      k := k + 1;
    }
  }

  lemma ItemsStep(l: seq<Dirent>, k: nat, i: nat, reply: seq<Item>)
    requires k < |l|
    ensures reply + ItemsOf(l[k..], i) == (reply + [Item(i, l[k])]) + ItemsOf(l[k + 1..], i)
  {
    assert l[k..][1..] == l[k + 1..];
  }

  /** Copies the entries of one list from index `off` on, as long as there is room. */
  method ReadList(l: seq<Dirent>, ghost hashed: bool, i: nat, off: nat, size: nat, esize: Name -> nat, reply: seq<Item>,
                  csize: nat)
    returns (reply': seq<Item>, csize': nat, full: bool)
    requires Good(l, hashed, i) && (reply == [] ==> csize == 0)
    requires forall n: Name {:trigger esize(n)} :: |n| <= 255 ==> esize(n) < size
    ensures reply' == [] ==> csize' == 0 && !full
    ensures if full then reply' <= reply + ItemsOf(Skip(l, off), i) else reply' == reply + ItemsOf(Skip(l, off), i)
  {
    var k := SkipTo(l, off);
    reply', csize', full := reply, csize, false;
    ghost var all := reply + ItemsOf(Skip(l, off), i);
    while k < |l|
      invariant k <= |l| && reply' + ItemsOf(l[k..], i) == all && (reply' == [] ==> csize' == 0)
    {
      Earlier(l, hashed, i, k);
      csize' := csize' + esize(l[k].name);
      if csize' >= size {
        csize', full := csize' - esize(l[k].name), true;
        return;
      }
      ItemsStep(l, k, i, reply');
      reply' := reply' + [Item(i, l[k])];
      k := k + 1;
    }
    assert reply' + [] == reply';
  }

  lemma RestStep(lists: Lists, i: nat, off: nat, reply: seq<Item>)
    requires i < |lists|
    ensures reply + Rest(lists, i, off) == (reply + ItemsOf(Skip(lists[i], off), i)) + Rest(lists, i + 1, 0)
  {
  }

  /** `lc_dirReaddir` with a buffer of `size` bytes, where `esize` is what an entry takes in it. */
  method DirReaddir(lists: Lists, hashed: bool, size: nat, esize: Name -> nat, off: nat) returns (reply: seq<Item>)
    requires Proper(lists, hashed) && Indexed(lists) && off / INDEXES <= 512
    requires forall n: Name {:trigger esize(n)} :: |n| <= 255 ==> esize(n) < size
    ensures Replies(lists, hashed, off, reply)
  {
    var start: nat, skip: nat := 0, off % INDEXES;
    if hashed && off != 0 {
      start := off / INDEXES;
      if start == 512 {
        start, skip := 0, 0;
      }
    }
    ghost var all := Rest(lists, start, skip);
    reply := [];
    var csize: nat, i: nat := 0, start;
    while i < |lists|
      invariant reply + Rest(lists, i, skip) == all && (reply == [] ==> csize == 0)
      decreases |lists| - i
    {
      RestStep(lists, i, skip, reply);
      var full;
      reply, csize, full := ReadList(lists[i], hashed, i, skip, size, esize, reply, csize);
      if full {
        return;
      }
      i, skip := i + 1, 0;
    }
    assert reply + [] == reply;
  }

  // ----- A session -----

  /** A reply is exactly the entries between two marks, each once. */
  ghost predicate Between(lists: Lists, reply: seq<Item>, m: Mark, m': Mark, x: Item) {
    && multiset(reply)[x] == (if Holds(lists, x) && Ahead(m, x) && !Ahead(m', x) then 1 else 0)
    && (Ahead(m', x) ==> Ahead(m, x))
  }

  lemma {:induction false} CountSorted(s: seq<Item>, x: Item)
    requires Sorted(s)
    ensures multiset(s)[x] == if x in s then 1 else 0
  {
    if s != [] {
      assert s == [s[0]] + s[1..];
      assert Sorted(s[1..]) by {
        forall a, b | 0 <= a < b < |s[1..]| ensures Before(s[1..][a], s[1..][b]) {
          assert Before(s[a + 1], s[b + 1]);
        }
      }
      CountSorted(s[1..], x);
      if x in s[1..] {
        var k :| 0 <= k < |s[1..]| && s[1..][k] == x;
        assert Before(s[0], s[k + 1]);
      }
    }
  }

  lemma ReplyBetween(lists: Lists, hashed: bool, off: nat, reply: seq<Item>, x: Item)
    requires Replies(lists, hashed, off, reply)
    ensures Between(lists, reply, Decode(hashed, off), Decode(hashed, NextOff(hashed, off, reply)), x)
    ensures reply == [] ==> !(Holds(lists, x) && Ahead(Decode(hashed, off), x))
  {
    var m := Decode(hashed, off);
    var all := Rest(lists, m.list, m.index);
    RestSorted(lists, hashed, m.list, m.index);
    RestIn(lists, hashed, m.list, m.index, x);
    CountSorted(reply, x);
    if reply != [] {
      var y := reply[|reply| - 1];
      assert y in all;
      RestIn(lists, hashed, m.list, m.index, y);
      Below(lists[y.list], hashed, y.list, y.e);
      CookieMark(hashed, y);
      if x in all {
        var k :| 0 <= k < |all| && all[k] == x;
        PrefixIn(all, reply, k);
      }
    }
  }

  lemma PrefixIn(all: seq<Item>, reply: seq<Item>, k: nat)
    requires Sorted(all) && reply <= all && reply != [] && k < |all|
    ensures all[k] in reply <==> k < |reply|
    ensures k < |reply| <==> !Before(reply[|reply| - 1], all[k])
  {
    var n := |reply| - 1;
    assert all[n] == reply[n];
    if k < |reply| {
      assert all[k] == reply[k];
      assert k < n ==> Before(all[k], all[n]);
    } else {
      assert Before(all[n], all[k]);
      forall j | 0 <= j < |reply| ensures reply[j] != all[k] {
        assert reply[j] == all[j] && Before(all[j], all[k]);
      }
    }
  }

  /** A call in a session: the directory at that time, in its form, and the reply. */
  datatype Round = Round(lists: Lists, hashed: bool, reply: seq<Item>)

  /** A reader that starts at `off` and passes on the last cookie, while the directory changes between the calls. Its
      form was `hashed` when the cookie was given; a list may become a hash table, and a hash table stays one. */
  ghost predicate Session(rounds: seq<Round>, hashed: bool, off: nat) {
    rounds == [] ||
    (&& (hashed ==> rounds[0].hashed) && Replies(rounds[0].lists, rounds[0].hashed, off, rounds[0].reply)
     && Session(rounds[1..], rounds[0].hashed, NextOff(rounds[0].hashed, off, rounds[0].reply)))
  }

  /** The cookie after a session, and the form of the directory at its last call. */
  function End(rounds: seq<Round>, off: nat): nat {
    if rounds == [] then off else End(rounds[1..], NextOff(rounds[0].hashed, off, rounds[0].reply))
  }

  function Form(rounds: seq<Round>, hashed: bool): bool {
    if rounds == [] then hashed else rounds[|rounds| - 1].hashed
  }

  lemma {:induction false} SessionConcat(a: seq<Round>, b: seq<Round>, hashed: bool, off: nat)
    ensures Session(a + b, hashed, off) <==> Session(a, hashed, off) && Session(b, Form(a, hashed), End(a, off))
    ensures End(a + b, off) == End(b, End(a, off))
  {
    if a == [] {
      assert a + b == b;
    } else {
      assert (a + b)[1..] == a[1..] + b;
      SessionConcat(a[1..], b, a[0].hashed, NextOff(a[0].hashed, off, a[0].reply));
    }
  }

  /** How often a name is in a reply, and in all replies of a session. */
  function Named(reply: seq<Item>, n: Name): nat {
    if reply == [] then 0 else (if reply[0].e.name == n then 1 else 0) + Named(reply[1..], n)
  }

  function Times(rounds: seq<Round>, n: Name): nat {
    if rounds == [] then 0 else Named(rounds[0].reply, n) + Times(rounds[1..], n)
  }

  lemma {:induction false} TimesConcat(a: seq<Round>, b: seq<Round>, n: Name)
    ensures Times(a + b, n) == Times(a, n) + Times(b, n)
  {
    if a == [] {
      assert a + b == b;
    } else {
      assert (a + b)[1..] == a[1..] + b;
      TimesConcat(a[1..], b, n);
    }
  }

  /** The entry is in the directory at every call, in the same place. */
  ghost predicate Throughout(rounds: seq<Round>, x: Item) {
    forall i {:trigger rounds[i]} :: 0 <= i < |rounds| ==> Holds(rounds[i].lists, x)
  }

  lemma ThroughoutRest(rounds: seq<Round>, x: Item)
    requires rounds != [] && Throughout(rounds, x)
    ensures Holds(rounds[0].lists, x) && Throughout(rounds[1..], x)
  {
    forall i | 0 <= i < |rounds[1..]| ensures Holds(rounds[1..][i].lists, x) {
      assert rounds[1..][i] == rounds[i + 1];
    }
  }

  /** A directory has one entry of a name. */
  lemma OneEntry(lists: Lists, hashed: bool, x: Item, y: Item)
    requires Proper(lists, hashed) && Holds(lists, x) && Holds(lists, y) && x.e.name == y.e.name
    ensures x == y
  {
    InPlace(lists[x.list], hashed, x.list, x.e);
    InPlace(lists[y.list], hashed, y.list, y.e);
    FindIn(lists[x.list], hashed, x.list, x.e);
    FindIn(lists[y.list], hashed, y.list, y.e);
  }

  lemma {:induction false} InPlace(l: seq<Dirent>, hashed: bool, i: nat, e: Dirent)
    requires Good(l, hashed, i) && e in l
    ensures ListFor(hashed, e.name) == i
  {
    if e != l[0] {
      InPlace(l[1..], hashed, i, e);
    }
  }

  lemma {:induction false} NamedIs(reply: seq<Item>, lists: Lists, hashed: bool, x: Item)
    requires Proper(lists, hashed) && Holds(lists, x)
    requires forall y {:trigger y in reply} :: y in reply ==> Holds(lists, y)
    ensures Named(reply, x.e.name) == multiset(reply)[x]
  {
    if reply != [] {
      var y := reply[0];
      assert reply == [y] + reply[1..] && y in reply;
      if y.e.name == x.e.name {
        OneEntry(lists, hashed, x, y);
      }
      forall z | z in reply[1..] ensures Holds(lists, z) {
        assert z in reply;
      }
      NamedIs(reply[1..], lists, hashed, x);
    }
  }

  /** A call returns a name that is there once if its entry lies between the two cookies, and otherwise not at all. */
  lemma ReplyNamed(lists: Lists, hashed: bool, off: nat, reply: seq<Item>, x: Item)
    requires Replies(lists, hashed, off, reply) && Holds(lists, x)
    ensures var m := Decode(hashed, off); var m' := Decode(hashed, NextOff(hashed, off, reply));
            && Named(reply, x.e.name) == (if Ahead(m, x) && !Ahead(m', x) then 1 else 0)
            && (Ahead(m', x) ==> Ahead(m, x)) && (reply == [] ==> !Ahead(m, x))
  {
    ReplyBetween(lists, hashed, off, reply, x);
    var m := Decode(hashed, off);
    forall y | y in reply ensures Holds(lists, y) {
      assert y in Rest(lists, m.list, m.index);
      RestIn(lists, hashed, m.list, m.index, y);
    }
    NamedIs(reply, lists, hashed, x);
  }

  ghost predicate AllIn(rounds: seq<Round>, hashed: bool) {
    forall i {:trigger rounds[i]} :: 0 <= i < |rounds| ==> rounds[i].hashed == hashed
  }

  /** As long as the directory keeps its form, a name comes once when the reader passes its entry. */
  lemma {:induction false} OneForm(rounds: seq<Round>, hashed: bool, off: nat, x: Item)
    requires Session(rounds, hashed, off) && AllIn(rounds, hashed) && Throughout(rounds, x)
    ensures var m, m' := Decode(hashed, off), Decode(hashed, End(rounds, off));
            && Times(rounds, x.e.name) == (if Ahead(m, x) && !Ahead(m', x) then 1 else 0)
            && (Ahead(m', x) ==> Ahead(m, x))
            && (rounds != [] && rounds[|rounds| - 1].reply == [] ==> !Ahead(m', x))
  {
    if rounds != [] {
      var r, rest := rounds[0], rounds[1..];
      ReplyNamed(r.lists, hashed, off, r.reply, x) by {
        assert r.hashed == hashed;
      }
      ThroughoutRest(rounds, x);
      forall i | 0 <= i < |rest| ensures rest[i].hashed == hashed {
        assert rest[i] == rounds[i + 1];
      }
      OneForm(rest, hashed, NextOff(hashed, off, r.reply), x);
    }
  }

  /** The cookies of a list do not occur in a hash table. */
  lemma {:induction false} ListCookie(rounds: seq<Round>, off: nat)
    requires Session(rounds, false, off) && AllIn(rounds, false) && (off == 0 || off / INDEXES == 512)
    ensures Decode(true, End(rounds, off)) == Mark(0, 0)
  {
    if rounds != [] {
      var r, rest := rounds[0], rounds[1..];
      if r.reply != [] {
        var m := Decode(false, off);
        var y := r.reply[|r.reply| - 1];
        assert y in Rest(r.lists, m.list, m.index);
        RestIn(r.lists, false, m.list, m.index, y);
        Below(r.lists[y.list], false, y.list, y.e);
        assert (512 * 0x1_0000_0000 + y.e.index) / 0x1_0000_0000 == 512;
      }
      forall i | 0 <= i < |rest| ensures !rest[i].hashed {
        assert rest[i] == rounds[i + 1];
      }
      ListCookie(rest, NextOff(false, off, r.reply));
    }
  }

  /** The directory becomes a hash table between call `k - 1` and call `k`, or not at all if there is no call `k`. */
  ghost predicate Converted(rounds: seq<Round>, k: nat) {
    k <= |rounds| && AllIn(rounds[..k], false) && AllIn(rounds[k..], true)
  }

  /** There is one such `k` for every session. */
  lemma {:induction false} Converts(rounds: seq<Round>, hashed: bool, off: nat) returns (k: nat)
    requires Session(rounds, hashed, off)
    ensures Converted(rounds, k) && (hashed ==> k == 0)
  {
    if rounds == [] {
      k := 0;
    } else {
      var n := Converts(rounds[1..], rounds[0].hashed, NextOff(rounds[0].hashed, off, rounds[0].reply));
      k := if rounds[0].hashed then 0 else n + 1;
      forall i | 0 <= i < |rounds[..k]| ensures !rounds[..k][i].hashed {
        assert i > 0 ==> rounds[..k][i] == rounds[1..][..n][i - 1];
      }
      forall i | 0 <= i < |rounds[k..]| ensures rounds[k..][i].hashed {
        assert k + i > 0 ==> rounds[k..][i] == rounds[1..][n..][k + i - 1 - n];
      }
    }
  }

  /** The entry of a name is left alone: it stays where it is in the list and, from call `k` on, in the hash table. */
  ghost predicate LeftAlone(rounds: seq<Round>, k: nat, x: Item, y: Item)
    requires k <= |rounds|
  {
    x.e.name == y.e.name && Throughout(rounds[..k], x) && Throughout(rounds[k..], y)
  }

  lemma {:induction false} AfterConversion(rounds: seq<Round>, hashed: bool, off: nat, y: Item)
    requires Session(rounds, hashed, off) && AllIn(rounds, true) && Throughout(rounds, y)
    requires rounds != [] && rounds[|rounds| - 1].reply == [] && Decode(true, off) == Mark(0, 0)
    ensures Times(rounds, y.e.name) == 1
  {
    assert rounds[0].hashed && Session(rounds, true, off);
    OneForm(rounds, true, off, y);
    assert Holds(rounds[0].lists, y) && Ahead(Mark(0, 0), y);
  }

  /** Before a conversion, and if there is none. */
  lemma {:induction false} BeforeConversion(rounds: seq<Round>, x: Item)
    requires Session(rounds, false, 0) && AllIn(rounds, false) && Throughout(rounds, x)
    ensures Times(rounds, x.e.name) <= 1 && Decode(true, End(rounds, 0)) == Mark(0, 0)
    ensures Times(rounds, x.e.name) == 0 <==> Ahead(Decode(false, End(rounds, 0)), x)
    ensures rounds != [] && rounds[|rounds| - 1].reply == [] ==> Times(rounds, x.e.name) == 1
  {
    OneForm(rounds, false, 0, x);
    ListCookie(rounds, 0);
    if rounds != [] {
      assert Holds(rounds[0].lists, x);
    }
    assert Decode(false, 0) == Mark(0, 0) && Ahead(Mark(0, 0), x);
  }

  /** A reader that goes on until an empty reply gets every entry that is left alone meanwhile, whatever else is added,
      removed or renamed. It gets the entry exactly once, if and only if the directory is not converted or its entry is
      still ahead of the cookie when that happens, which is if it has not been returned; otherwise it comes twice. */
  lemma {:induction false} ExactlyOnce(rounds: seq<Round>, k: nat, x: Item, y: Item)
    requires Session(rounds, false, 0) && rounds != [] && rounds[|rounds| - 1].reply == []
    requires Converted(rounds, k) && LeftAlone(rounds, k, x, y)
    ensures 1 <= Times(rounds, x.e.name) <= 2
    ensures Times(rounds, x.e.name) == 1 <==> k == |rounds| || Ahead(Decode(false, End(rounds[..k], 0)), x)
    ensures Ahead(Decode(false, End(rounds[..k], 0)), x) <==> Times(rounds[..k], x.e.name) == 0
  {
    if k == |rounds| {
      assert rounds[..k] == rounds;
      BeforeConversion(rounds, x);
    } else {
      Halves(rounds, rounds[..k], rounds[k..], x, y);
    }
  }

  lemma {:induction false} Halves(rounds: seq<Round>, before: seq<Round>, after: seq<Round>, x: Item, y: Item)
    requires rounds == before + after && Session(rounds, false, 0) && after != [] && after[|after| - 1].reply == []
    requires AllIn(before, false) && AllIn(after, true) && x.e.name == y.e.name
    requires Throughout(before, x) && Throughout(after, y)
    ensures Times(before, x.e.name) <= 1 && Times(rounds, x.e.name) == Times(before, x.e.name) + 1
    ensures Times(before, x.e.name) == 0 <==> Ahead(Decode(false, End(before, 0)), x)
  {
    SessionConcat(before, after, false, 0);
    TimesConcat(before, after, x.e.name);
    BeforeConversion(before, x);
    AfterConversion(after, Form(before, false), End(before, 0), y);
  }

  /** A bound on the calls that can still return entries. */
  function Left(hashed: bool, m: Mark): int {
    (Width(hashed) - m.list) * INDEXES + (if m.index == 0 then INDEXES else m.index) - INDEXES
  }

  lemma Advances(lists: Lists, hashed: bool, off: nat, reply: seq<Item>)
    requires Replies(lists, hashed, off, reply) && reply != []
    ensures 0 <= Left(hashed, Decode(hashed, NextOff(hashed, off, reply))) < Left(hashed, Decode(hashed, off))
  {
    var m := Decode(hashed, off);
    var y := reply[|reply| - 1];
    assert y in Rest(lists, m.list, m.index);
    RestIn(lists, hashed, m.list, m.index, y);
    Below(lists[y.list], hashed, y.list, y.e);
    CookieMark(hashed, y);
  }

  /** The same for a reader whose directory may still be converted. */
  function Bound(hashed: bool, off: nat): int {
    Left(hashed, Decode(hashed, off)) + if hashed then 0 else 512 * INDEXES
  }

  /** Reading comes to an end however many entries are added meanwhile, and even if the directory is converted. */
  lemma {:induction false} SessionEnds(rounds: seq<Round>, hashed: bool, off: nat)
    requires Session(rounds, hashed, off) && rounds != []
    requires forall i {:trigger rounds[i]} :: 0 <= i < |rounds| ==> rounds[i].reply != []
    ensures |rounds| <= Bound(rounds[0].hashed, off)
  {
    var r := rounds[0];
    Advances(r.lists, r.hashed, off, r.reply);
    if |rounds| > 1 {
      forall i | 0 <= i < |rounds[1..]| ensures rounds[1..][i].reply != [] {
        assert rounds[1..][i] == rounds[i + 1];
      }
      var next := NextOff(r.hashed, off, r.reply);
      SessionEnds(rounds[1..], r.hashed, next);
      if !r.hashed && rounds[1].hashed {
        assert Left(true, Decode(true, next)) <= 512 * INDEXES;
      }
    }
  }

  // ----- An entry that comes twice -----

  /** Adds a file of which there is none. */
  method AddFile(lists: Lists, hashed: bool, size: nat, name: Name)
      returns (lists': Lists, hashed': bool, size': nat)
    requires Proper(lists, hashed) && size == Total(lists) < 100 && IndexedBy(lists, size)
    requires 0 < |name| <= 255 && Look(lists, hashed, name).None?
    ensures Proper(lists', hashed') && size' == Total(lists') == size + 1 && IndexedBy(lists', size')
    ensures hashed' == (hashed || size >= DIRCACHE_MIN)
    ensures forall n: Name {:trigger Look(lists', hashed', n)} ::
              Look(lists', hashed', n).Some? <==> n == name || Look(lists, hashed, n).Some?
  {
    lists', hashed', size' := DirAdd(lists, hashed, size, 2 + size, S_IFREG, name);
  }

  /** A directory with 32 files, which is still a list. */
  method LargeList() returns (lists: Lists)
    ensures Proper(lists, false) && Total(lists) == 32 && IndexedBy(lists, 32) && Look(lists, false, [0]).None?
  {
    lists := [[]];
    var size, hashed: bool := 0, false;
    assert Total(lists) == 0 by {
      assert lists[1..] == [];
    }
    while size < 32
      invariant 0 <= size <= 32 && !hashed && Proper(lists, false) && Total(lists) == size && IndexedBy(lists, size)
      invariant forall c: int {:trigger Look(lists, false, [c])} :: c <= 0 || c > size ==> Look(lists, false, [c]).None?
    {
      lists, hashed, size := AddFile(lists, hashed, size, [size + 1]);
    }
  }

  lemma LastCookie(lists: Lists, hashed: bool, off: nat, reply: seq<Item>)
    requires Replies(lists, hashed, off, reply) && reply != []
    ensures NextOff(hashed, off, reply) / INDEXES <= 512
  {
    var m := Decode(hashed, off);
    var y := reply[|reply| - 1];
    assert y in Rest(lists, m.list, m.index);
    RestIn(lists, hashed, m.list, m.index, y);
    Below(lists[y.list], hashed, y.list, y.e);
    CookieMark(hashed, y);
  }

  /** A session in which the directory does not change. */
  ghost predicate Quiet(rounds: seq<Round>, lists: Lists, hashed: bool, off: nat) {
    Session(rounds, hashed, off) && forall i {:trigger rounds[i]} :: 0 <= i < |rounds| ==>
      rounds[i].lists == lists && rounds[i].hashed == hashed
  }

  lemma {:induction false} OneMore(rounds: seq<Round>, lists: Lists, hashed: bool, off: nat, reply: seq<Item>)
    requires Quiet(rounds, lists, hashed, off) && Replies(lists, hashed, End(rounds, off), reply)
    ensures var more := rounds + [Round(lists, hashed, reply)];
            Quiet(more, lists, hashed, off) && End(more, off) == NextOff(hashed, End(rounds, off), reply)
  {
    var r := Round(lists, hashed, reply);
    SessionConcat(rounds, [r], hashed, off);
    assert [r][1..] == [] && Form(rounds, hashed) == hashed;
  }

  /** Reads on until an empty reply. */
  method ReadToEnd(lists: Lists, hashed: bool, from: nat) returns (rounds: seq<Round>)
    requires Proper(lists, hashed) && Indexed(lists) && from / INDEXES <= 512
    ensures Quiet(rounds, lists, hashed, from) && rounds != [] && rounds[|rounds| - 1].reply == []
  {
    rounds := [];
    var off, reply := from, [];
    while true
      invariant Quiet(rounds, lists, hashed, from) && off == End(rounds, from) && off / INDEXES <= 512
      decreases Left(hashed, Decode(hashed, off))
    {
      reply := DirReaddir(lists, hashed, 4096, (n: Name) => 24 + |n|, off);
      OneMore(rounds, lists, hashed, from, reply);
      rounds := rounds + [Round(lists, hashed, reply)];
      if reply == [] {
        return;
      }
      Advances(lists, hashed, off, reply);
      LastCookie(lists, hashed, off, reply);
      off := NextOff(hashed, off, reply);
    }
  }

  /** The session: someone reads a directory of 32 files, a file is created, and the reader goes on. */
  method ReadTwice() returns (rounds: seq<Round>, name: Name)
    ensures Session(rounds, false, 0) && rounds != [] && rounds[|rounds| - 1].reply == []
    ensures Converted(rounds, 1) && Times(rounds, name) == 2
  {
    var lists := LargeList();
    var reply := DirReaddir(lists, false, 4096, (n: Name) => 24 + |n|, 0);
    var first := Round(lists, false, reply);
    FirstReply(lists, reply);
    name := reply[0].e.name;
    var table, hashed, size := AddFile(lists, false, 32, [0]);
    LastCookie(lists, false, 0, reply);
    var after := ReadToEnd(table, true, NextOff(false, 0, reply));
    rounds := [first] + after;
    ComesTwice(first, after, reply[0], table);
  }

  lemma FirstReply(lists: Lists, reply: seq<Item>)
    requires Replies(lists, false, 0, reply) && Total(lists) > 0
    ensures reply != [] && Holds(lists, reply[0])
  {
    assert lists[1..] == [] && Total(lists[1..]) == 0 && lists[0] != [];
    RestIn(lists, false, 0, 0, Item(0, lists[0][0]));
    if reply != [] {
      assert reply[0] in Rest(lists, 0, 0);
      RestIn(lists, false, 0, 0, reply[0]);
    }
  }

  lemma {:induction false} ComesTwice(first: Round, after: seq<Round>, x: Item, table: Lists)
    requires Replies(first.lists, false, 0, first.reply) && !first.hashed && x in first.reply && Holds(first.lists, x)
    requires Quiet(after, table, true, NextOff(false, 0, first.reply)) && after != [] && after[|after| - 1].reply == []
    requires Proper(table, true) && Look(table, true, x.e.name).Some?
    ensures Session([first] + after, false, 0) && Converted([first] + after, 1)
    ensures Times([first] + after, x.e.name) == 2
  {
    var rounds := [first] + after;
    assert rounds[1..] == after && rounds[..1] == [first];
    var h := ListFor(true, x.e.name);
    FindName(table[h], x.e.name);
    var y := Item(h, Find(table[h], x.e.name).value);
    assert Throughout([first], x) && Throughout(after, y);
    Halves(rounds, [first], after, x, y);
    NamedSome(first.reply, x);
    assert [first][1..] == [];
  }

  lemma {:induction false} NamedSome(reply: seq<Item>, x: Item)
    requires x in reply
    ensures Named(reply, x.e.name) > 0
  {
    if x != reply[0] {
      NamedSome(reply[1..], x);
    }
  }
}
