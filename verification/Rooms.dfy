/** What the allocator can give a layer, as the code that writes data and metadata sees it. */
module Rooms {
  import opened Extents
  import opened Checkpoint
  import opened Blocks
  import opened Allocator

  /** The blocks layer `l` could be given: free ones and its own reserve. */
  ghost function Room(owner: map<nat, Owner>, l: nat): set<nat> {
    Owned(owner, Free) + Owned(owner, Reserve(l))
  }

  /** Every block in use at first still has its owner. */
  ghost predicate StillOwned(own0: map<nat, Owner>, own: map<nat, Owner>) {
    forall b: nat {:trigger b in InUse(own0)} :: b in InUse(own0) ==> b in own && own[b] == own0[b]
  }

  /** A step that takes blocks takes them from the room of the layer, and they are then in use. */
  lemma TakesRoom(s: State, l: nat, block: nat, count: nat, step: Step)
    requires Partition(s) && Enabled(s, step)
    requires step == TakeReserve(l, block, count) || (step.TakePool? && step == TakePool(l, block, count, step.chunk))
    ensures Range(block, count) <= Room(s.owner, l)
    ensures Room(Apply(s, step).owner, l) == Room(s.owner, l) - Range(block, count)
    ensures InUse(Apply(s, step).owner) == InUse(s.owner) + Range(block, count)
    ensures Owned(Apply(s, step).owner, Alloc(l)) == Owned(s.owner, Alloc(l)) + Range(block, count)
    ensures 0 !in Range(block, count) && StillOwned(s.owner, Apply(s, step).owner)
  {
    var own := Apply(s, step).owner;
    forall b | b in s.owner ensures b in Room(own, l) <==> b in Room(s.owner, l) && b !in Range(block, count) {
    }
  }

  /** When not even one block can be given, there is no room. */
  lemma NoRoom(g: Lists, owner: map<nat, Owner>, l: nat)
    requires Agree(g, owner, |g.layers|) && IsLayer(g, l)
    requires forall e :: e in g.layers[l].value.extents ==> e.count < 1
    requires forall b :: !Holds(owner, Range(b, 1), Free)
    ensures Room(owner, l) == {}
  {
    AgreeIs(g, owner, |g.layers|);
    var e := g.layers[l].value.extents;
    LooseIs(e);
    assert forall x :: x in e ==> x.count > 0;
    forall b | b in owner ensures owner[b] != Free {
      assert Range(b, 1) == {b};
      assert !Holds(owner, Range(b, 1), Free);
    }
  }

  /** `lc_blockAlloc` by what it does to the room of the layer. */
  method Take(gfs: Gfs, l: nat, count: nat) returns (ok: bool, block: nat)
    requires gfs.Valid() && IsLayer(gfs.Now(), l) && count > 0
    modifies gfs
    ensures gfs.Valid() && IsLayer(gfs.Now(), l) && gfs.Aside(l) == old(gfs.Aside(l))
    ensures ok ==> gfs.taken == old(gfs.taken) + Range(block, count)
    ensures ok ==> Range(block, count) <= old(Room(gfs.owner, l)) && block > 0
    ensures ok ==> Room(gfs.owner, l) == old(Room(gfs.owner, l)) - Range(block, count)
    ensures ok ==> InUse(gfs.owner) == old(InUse(gfs.owner)) + Range(block, count)
    ensures ok ==> Owned(gfs.owner, Alloc(l)) == old(Owned(gfs.owner, Alloc(l))) + Range(block, count)
    ensures StillOwned(old(gfs.owner), gfs.owner)
    ensures !ok ==> gfs.View() == old(gfs.View()) && (count == 1 ==> Room(gfs.owner, l) == {})
    ensures ok <==> Allotted(old(gfs.Now()), l, count) != INVALID_BLOCK
    ensures if ok then block == Allotted(old(gfs.Now()), l, count) else gfs.Now() == old(gfs.Now())
  {
    ghost var step;
    ghost var was := gfs.View();
    gfs.ValidPartition();
    assert l in was.layers;
    block, step := gfs.BlockAlloc(l, count);
    ok := block != INVALID_BLOCK;
    if ok {
      TakesRoom(was, l, block, count, step);
      assert l in gfs.View().layers;
    } else if count == 1 {
      NoRoom(gfs.Now(), gfs.owner, l);
    }
  }

  /** The blocks are all in one piece exactly if the allocator has such a piece, and then where it would give it. */
  ghost predicate OnePiece(g: Lists, l: nat, want: nat, block: nat, n: nat)
    requires IsLayer(g, l)
  {
    && (n == want <==> Allotted(g, l, want) != INVALID_BLOCK)
    && (n == want ==> block == Allotted(g, l, want))
  }

  /** Blocks in one piece, or as large a half, quarter, ... of them as the allocator has: the loop
      `lc_flushPages` asks for blocks with. */
  method TakeSome(gfs: Gfs, l: nat, want: nat) returns (block: nat, n: nat)
    requires gfs.Valid() && IsLayer(gfs.Now(), l) && want > 0 && Room(gfs.owner, l) != {}
    modifies gfs
    ensures gfs.Valid() && IsLayer(gfs.Now(), l) && gfs.Aside(l) == old(gfs.Aside(l)) && 0 < n <= want && block > 0
    ensures gfs.taken == old(gfs.taken) + Range(block, n)
    ensures Range(block, n) <= old(Room(gfs.owner, l))
    ensures Room(gfs.owner, l) == old(Room(gfs.owner, l)) - Range(block, n)
    ensures InUse(gfs.owner) == old(InUse(gfs.owner)) + Range(block, n)
    ensures Owned(gfs.owner, Alloc(l)) == old(Owned(gfs.owner, Alloc(l))) + Range(block, n)
    ensures StillOwned(old(gfs.owner), gfs.owner)
    ensures OnePiece(old(gfs.Now()), l, want, block, n)
  {
    n := want;
    var ok;
    ok, block := Take(gfs, l, n);
    while !ok
      invariant gfs.Valid() && IsLayer(gfs.Now(), l) && gfs.Aside(l) == old(gfs.Aside(l)) && 0 < n <= want
      invariant ok ==> gfs.taken == old(gfs.taken) + Range(block, n)
      invariant !ok ==> gfs.View() == old(gfs.View()) && n > 1
      invariant ok ==> Range(block, n) <= old(Room(gfs.owner, l)) && block > 0
      invariant ok ==> Room(gfs.owner, l) == old(Room(gfs.owner, l)) - Range(block, n)
      invariant ok ==> InUse(gfs.owner) == old(InUse(gfs.owner)) + Range(block, n)
      invariant ok ==> Owned(gfs.owner, Alloc(l)) == old(Owned(gfs.owner, Alloc(l))) + Range(block, n)
      invariant StillOwned(old(gfs.owner), gfs.owner)
      invariant if n == want && ok then OnePiece(old(gfs.Now()), l, want, block, n)
                else Allotted(old(gfs.Now()), l, want) == INVALID_BLOCK
      decreases n, !ok
    {
      n := n / 2;
      ok, block := Take(gfs, l, n);
    }
  }

  /** How much room a layer has. */
  method CountRoom(gfs: Gfs, l: nat) returns (n: nat)
    requires gfs.Valid() && IsLayer(gfs.Now(), l)
    ensures n == |Room(gfs.owner, l)|
  {
    var fs := gfs.layers[l].value;
    n := Total(gfs.extents) + fs.reserved;
    AgreeIs(gfs.Now(), gfs.owner, |gfs.layers|);
    assert LayerOk(gfs.owner, l, fs);
    CanonicalSize(gfs.extents);
    ApartIs(fs.extents);
    assert Owned(gfs.owner, Free) * Owned(gfs.owner, Reserve(l)) == {};
    UnionSize(Owned(gfs.owner, Free), Owned(gfs.owner, Reserve(l)));
  }
}
