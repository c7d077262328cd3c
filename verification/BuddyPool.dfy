/**
 Allocating a block as one step on the tree, for a client or for a pool of descriptors,
 and what the allocator keeps about its pools.
 */
module BuddyPool {
  import opened Arith
  import opened BuddyTree
  import opened BuddyOps
  import opened BuddyLookup
  import opened BuddyTypes
  import opened BuddyOrder
  import opened BuddyLive
  import opened BuddyRep
  import opened BuddyShape

  const POOL_CLASS: nat := 1
  const POOL_ENTRIES: nat := 127
  /** BOOT_MEM_SIZE in pages. */
  const BOOT_PAGES: nat := 0x40000

  /** Memory that can be reached before it is mapped: it ends below BOOT_MEM_SIZE. */
  predicate InBoot(a: nat, c: nat) {
    a + Pow2(c) < BOOT_PAGES
  }

  /** A free Allocatable block of t that is big enough. */
  predicate Source(t: Tree, z: Zip, c: nat) {
    z.t.Node? && Whole(z) == t && IsFree(z.t) && z.t.i.st == Allocatable && c <= z.t.i.cls
  }

  function AllocWalk(z: Zip, c: nat, ids: seq<Ptr>): (r: Zip)
    requires z.t.Node? && c <= z.t.i.cls && |ids| >= 2 * (z.t.i.cls - c)
  {
    Lookup(Zip(z.c, Unlisted(z.t)), z.t.i.cls - c, z.t.i.addr, Partial, ids)
  }

  /** alloc_page and page_ref together. */
  function AllocTree(z: Zip, c: nat, ids: seq<Ptr>, pool: bool): (t: Tree)
    requires z.t.Node? && c <= z.t.i.cls && |ids| >= 2 * (z.t.i.cls - c)
  {
    var r := AllocWalk(z, c, ids);
    if r.t.Nil? then Whole(r) else Plug(r.c, Hold(RefSub(r.t), pool))
  }

  /** A refill: one page of class POOL_CLASS in boot memory allocated and referenced by the
      allocator. */
  ghost predicate Refilled(t: Tree, u: Tree) {
    u == t || exists z: Zip, ids: seq<Ptr> ::
      Source(t, z, POOL_CLASS) && InBoot(z.t.i.addr, POOL_CLASS) && |ids| >= 2 * (z.t.i.cls - POOL_CLASS) &&
        u == AllocTree(z, POOL_CLASS, ids, true)
  }

  lemma SourceInv(t: Tree, z: Zip, c: nat)
    requires Inv(t, RootSlot) && Source(t, z, c)
    ensures FInv(Zip(z.c, Unlisted(z.t))) && ZInv(z)
    ensures Relist(Unlisted(z.t)) == z.t && z.t.i.listed
  {
    InvPlug(z.c, z.t);
  }

  /** The block found is unreferenced, of the class asked for, and starts where the free
      block started. */
  lemma WalkFacts(t: Tree, z: Zip, c: nat, ids: seq<Ptr>)
    requires Inv(t, RootSlot) && Source(t, z, c) && |ids| >= 2 * (z.t.i.cls - c)
    ensures var r := AllocWalk(z, c, ids);
      FInv(r) && IsFree(r.t) && r.t.i.cls == c && r.t.i.addr == z.t.i.addr && r.t.i.st == Allocatable
  {
    hide Inv, CInv, Bit, Lookup, Plug, Aligned, Pow2, Merge;
    SourceInv(t, z, c);
    var y := Zip(z.c, Unlisted(z.t));
    var n, a := z.t.i.cls - c, z.t.i.addr;
    LookupInv(y, n, a, Partial, ids);
    LookupFree(y, n, a, ids);
    MergeUndoesLookup(y, n, a, ids);
    FocusPair(y);
    HoleAligned(z.c);
    AlignedDown(a, z.t.i.cls, c);
    Pow2Mono(c, z.t.i.cls);
    LookupLands(y, n, a, Partial, ids);
  }

  /** Allocation keeps the invariant, the types, the coalescing and the disjointness of
      owners ... */
  lemma AllocFacts(t: Tree, z: Zip, c: nat, ids: seq<Ptr>, pool: bool)
    requires Inv(t, RootSlot) && Source(t, z, c) && |ids| >= 2 * (z.t.i.cls - c)
    ensures var u := AllocTree(z, c, ids, pool);
      && Inv(u, RootSlot)
      && SameEff(t, u)
      && (Coalesced(t) ==> Coalesced(u))
      && (Excl(t, false) ==> Excl(u, false))
  {
    hide Inv, CInv, Lookup, Coalesced, Excl, Plug;
    WalkFacts(t, z, c, ids);
    SourceInv(t, z, c);
    var y := Zip(z.c, Unlisted(z.t));
    var n, a := z.t.i.cls - c, z.t.i.addr;
    var r := AllocWalk(z, c, ids);
    var h := Hold(RefSub(r.t), pool);
    FreeUnheld(r);
    RefInv(r.t, HoleSlot(r.c), pool);
    InvPlug(r.c, h);
    AllocQuiet(t, z, c, ids, pool);
    UnlistedSame(z);
    if Coalesced(t) {
      LookupRefCoalesced(y, n, a, ids, pool);
    }
    if Excl(t, false) {
      AllocExcl(y, n, a, ids, pool);
    }
  }

  /** Taking a free node off its list changes neither coalescing nor owners. */
  lemma UnlistedSame(z: Zip)
    requires ZInv(z) && IsFree(z.t)
    ensures Coalesced(Plug(z.c, Unlisted(z.t))) <==> Coalesced(Whole(z))
    ensures Excl(Plug(z.c, Unlisted(z.t)), false) <==> Excl(Whole(z), false)
    ensures SameEff(Whole(z), Plug(z.c, Unlisted(z.t)))
  {
    CoalescedPlug(z.c, z.t);
    CoalescedPlug(z.c, Unlisted(z.t));
    ExclPlug(z.c, z.t);
    ExclPlug(z.c, Unlisted(z.t));
    assert SameEff(z.t, Unlisted(z.t));
    SameEffPlug(z.c, z.t, Unlisted(z.t));
  }

  lemma AllocQuiet(t: Tree, z: Zip, c: nat, ids: seq<Ptr>, pool: bool)
    requires Inv(t, RootSlot) && Source(t, z, c) && |ids| >= 2 * (z.t.i.cls - c)
    ensures SameEff(t, AllocTree(z, c, ids, pool))
  {
    hide Inv, CInv, Lookup, Plug;
    WalkFacts(t, z, c, ids);
    SourceInv(t, z, c);
    UnlistedSame(z);
    var y := Zip(z.c, Unlisted(z.t));
    LookupQuiet(y, z.t.i.cls - c, z.t.i.addr, ids);
    var r := AllocWalk(z, c, ids);
    RefQuiet(r.t);
    var h := Hold(RefSub(r.t), pool);
    HoldQuiet(r.t, RefSub(r.t), pool);
    FInvNodes(r);
    SameEffPlug(r.c, r.t, h);
    SameEffTrans(t, Whole(y), Whole(r), Plug(r.c, h));
  }

  lemma FInvNodes(z: Zip)
    requires z.t.Node? && CInv(z.c)
    ensures CInv(z.c) && (z.c.Down? ==> z.c.sib.Node?)
  {
  }

  lemma HoldQuiet(t: Tree, u: Tree, pool: bool)
    requires u.Node? && SameEff(t, u)
    ensures SameEff(t, Hold(u, pool))
  {
    forall m: nat, x: nat ensures EffAt(t, m, x) == EffAt(Hold(u, pool), m, x) {
      assert EffAt(t, m, x) == EffAt(u, m, x);
    }
  }

  lemma SameEffTrans(t: Tree, u: Tree, v: Tree, w: Tree)
    requires SameEff(t, u) && SameEff(u, v) && SameEff(v, w)
    ensures SameEff(t, w)
  {
    forall m: nat, x: nat ensures EffAt(t, m, x) == EffAt(w, m, x) {
      assert EffAt(t, m, x) == EffAt(u, m, x);
    }
  }

  /** ... and takes exactly the one reference. */
  lemma AllocHolds(t: Tree, z: Zip, c: nat, ids: seq<Ptr>, pool: bool, hc: nat, ha: nat)
    requires Inv(t, RootSlot) && Source(t, z, c) && |ids| >= 2 * (z.t.i.cls - c)
    ensures var u := AllocTree(z, c, ids, pool);
      && Holds(u, hc, ha) == Holds(t, hc, ha) + (if !pool && (hc, ha) == (c, z.t.i.addr) then 1 else 0)
      && Pools(u, ha) == Pools(t, ha) + (if pool && ha == z.t.i.addr then 1 else 0)
  {
    hide Inv, CInv, Lookup, Plug, Bit, FInv, RefSub, Holds, Pools;
    WalkFacts(t, z, c, ids);
    SourceInv(t, z, c);
    var y := Zip(z.c, Unlisted(z.t));
    LookupHolds(y, z.t.i.cls - c, z.t.i.addr, Partial, ids, hc, ha);
    UnlistedHolds(z, hc, ha);
    TakeHolds(AllocWalk(z, c, ids), pool, hc, ha);
  }

  lemma UnlistedHolds(z: Zip, hc: nat, ha: nat)
    requires z.t.Node?
    ensures var u := Plug(z.c, Unlisted(z.t));
      Holds(u, hc, ha) == Holds(Whole(z), hc, ha) && Pools(u, ha) == Pools(Whole(z), ha)
  {
    HoldsPlug(z.c, z.t, hc, ha);
    HoldsPlug(z.c, Unlisted(z.t), hc, ha);
    PoolsPlug(z.c, z.t, ha);
    PoolsPlug(z.c, Unlisted(z.t), ha);
  }

  lemma TakeHolds(r: Zip, pool: bool, hc: nat, ha: nat)
    requires FInv(r) && IsFree(r.t)
    ensures var u := Plug(r.c, Hold(RefSub(r.t), pool));
      && Holds(u, hc, ha) == Holds(Whole(r), hc, ha) + (if !pool && (hc, ha) == (r.t.i.cls, r.t.i.addr) then 1 else 0)
      && Pools(u, ha) == Pools(Whole(r), ha) + (if pool && ha == r.t.i.addr then 1 else 0)
  {
    hide CInv, Plug;
    FreeUnheld(r);
    var h := Hold(RefSub(r.t), pool);
    HoldsPlug(r.c, r.t, hc, ha);
    PoolsPlug(r.c, r.t, ha);
    HoldsPlug(r.c, h, hc, ha);
    PoolsPlug(r.c, h, ha);
    RefSubHolds(r.t, hc, ha);
  }

  // ------------------------------------------------------------ pools of descriptors

  /** Every descriptor that is not statically allocated is one of those in a page of boot
      memory that the allocator holds for them. */
  ghost predicate Housed(all: set<Ptr>, t: Tree) {
    forall a: nat, k: nat :: Pooled(a, k) in all ==> Pools(t, a) > 0 && InBoot(a, POOL_CLASS) && k < POOL_ENTRIES
  }

  lemma {:induction false} PoolMeansReferenced(t: Tree, s: Slot, a: nat)
    requires Inv(t, s) && s.cls >= 0 && Pools(t, a) > 0
    ensures !Clear(t, a, a + 1)
    decreases t
  {
    if t.Node? && PoolOwn(t.i, a) == 0 {
      if Pools(t.l, a) > 0 {
        PoolMeansReferenced(t.l, KidSlot(t.i, false), a);
      } else {
        PoolMeansReferenced(t.r, KidSlot(t.i, true), a);
      }
    }
  }

  /** So the descriptors a refill writes into a free block are new ones. */
  lemma PoolIsFresh(all: set<Ptr>, z: Zip, k: nat)
    requires ZInv(z) && IsFree(z.t) && Housed(all, Whole(z))
    ensures Pooled(z.t.i.addr, k) !in all
  {
    var a := z.t.i.addr;
    assert Relist(z.t) == z.t;
    assert Pow2(z.t.i.cls) >= 1;
    FreeIsClear(z, a, a + 1);
    InvPlug(z.c, z.t);
    if Pools(Whole(z), a) > 0 {
      PoolMeansReferenced(Whole(z), RootSlot, a);
    }
  }

  function PoolPtrs(a: nat): (s: set<Ptr>) {
    set k: nat | k < POOL_ENTRIES :: Pooled(a, k)
  }

  lemma HousedGrows(all: set<Ptr>, t: Tree, u: Tree, z: Zip, ids: seq<Ptr>)
    requires RootInv(t) && Housed(all, t) && Source(t, z, POOL_CLASS) && InBoot(z.t.i.addr, POOL_CLASS)
    requires |ids| >= 2 * (z.t.i.cls - POOL_CLASS) && u == AllocTree(z, POOL_CLASS, ids, true)
    ensures Housed(all + PoolPtrs(z.t.i.addr), u)
  {
    forall a: nat, k: nat | Pooled(a, k) in all + PoolPtrs(z.t.i.addr) ensures Pools(u, a) > 0 {
      AllocHolds(t, z, POOL_CLASS, ids, true, 0, a);
    }
  }

  /** Each level of splitting a leaf uses two descriptors. */
  lemma {:induction false} LeafWalkRest(z: Zip, n: nat, a: nat, ids: seq<Ptr>)
    requires FInv(z) && IsLeaf(z.t) && n <= z.t.i.cls && |ids| >= 2 * n
    ensures WalkRest(z, n, a, Partial, ids) == ids[2 * n..]
    decreases n
  {
    hide CInv, Inv, Bit;
    if n > 0 {
      StepInv(z, a, Partial, ids);
      LeafWalkRest(Step(z, a, Partial, ids), n - 1, a, ids[2..]);
      assert ids[2..][2 * (n - 1)..] == ids[2 * n..];
    }
  }

  /** The descriptors left over by a walk. */
  function WalkRest(z: Zip, n: nat, a: nat, ty: State, ids: seq<Ptr>): (r: seq<Ptr>)
    requires |ids| >= 2 * n
    decreases n
  {
    if n == 0 || z.t.Nil? || z.t.i.cls == 0 then ids
    else WalkRest(Step(z, a, ty, ids), n - 1, a, ty, Rest(z.t, ids))
  }

  lemma {:induction false} WalkRestLen(z: Zip, n: nat, a: nat, ty: State, ids: seq<Ptr>)
    requires |ids| >= 2 * n
    ensures |ids| - 2 * n <= |WalkRest(z, n, a, ty, ids)| <= |ids|
    decreases n
  {
    if n > 0 && z.t.Node? && z.t.i.cls > 0 {
      WalkRestLen(Step(z, a, ty, ids), n - 1, a, ty, Rest(z.t, ids));
    }
  }

  lemma PoolRefills(t: Tree, z: Zip, ids: seq<Ptr>)
    requires Source(t, z, POOL_CLASS) && InBoot(z.t.i.addr, POOL_CLASS) && |ids| >= 2 * (z.t.i.cls - POOL_CLASS)
    ensures Refilled(t, AllocTree(z, POOL_CLASS, ids, true))
  {
  }

  /** A free leaf whose record has not changed is the same node in another tree. */
  lemma Refocus(v: View, all: set<Ptr>, u: Tree, h: Zip) returns (g: Zip)
    requires ZRep(v, all, Zip(Top, u)) && RootInv(u) && ZInv(h) && IsFree(h.t) && h.t.i.st == Allocatable
    requires h.t.i.p in Ids(u) && h.t.i.p in v.mem
    requires v.mem[h.t.i.p] == Rec(h.t.i, Null, Null, v.mem[h.t.i.p].parent)
    ensures Whole(g) == u && g.t == h.t && ZRep(v, all, g)
  {
    hide Accounted;
    g := FocusById(Top, u, h.t.i.p);
    InvPlug(g.c, g.t);
    FInvNodes(g);
    AllNodes(g.c);
    MoveTop(v, all, g);
    FocusFacts(v, all, g);
    LeafRecord(v, g.t);
    SameLeaf(g, h);
  }

  lemma SameLeaf(g: Zip, h: Zip)
    requires ZInv(g) && ZInv(h) && IsFree(h.t) && h.t.i.st == Allocatable && IsLeaf(g.t)
    requires g.t.i.p == h.t.i.p && g.t.i.st == h.t.i.st && g.t.i.refc == 0
    requires g.t.i.cls == h.t.i.cls && g.t.i.addr == h.t.i.addr
    ensures g.t == h.t
  {
  }

  lemma {:induction false} AllNodes(c: Ctx)
    requires CInv(c)
    ensures NoNil(c)
    decreases c
  {
    if c.Down? {
      AllNodes(c.up);
    }
  }

  lemma RefilledSame(t: Tree)
    ensures Refilled(t, t)
  {
  }

  lemma RootSource(t: Tree, z: Zip, c: nat, ids: seq<Ptr>)
    requires RootInv(t) && Source(t, z, c) && z.t.i.cls < MAX_CLASS
    ensures FInv(Zip(z.c, Unlisted(z.t))) && ZInv(z) && NoNil(z.c)
    ensures |ids| >= 2 * (z.t.i.cls - c) ==>
      var r := AllocWalk(z, c, ids);
      r.t.Node? && NoNil(r.c) && Shape(r.t) && IsFree(r.t) && CInv(r.c)
  {
    SourceInv(t, z, c);
    AllNodes(z.c);
    if |ids| >= 2 * (z.t.i.cls - c) {
      WalkFacts(t, z, c, ids);
      AllNodes(AllocWalk(z, c, ids).c);
    }
  }

  /** Who holds a reference is not in memory. */
  lemma HoldRep(v: View, all: set<Ptr>, z: Zip, pool: bool)
    requires ZRep(v, all, z) && z.t.Node? && NoNil(z.c)
    ensures ZRep(v, all, Zip(Top, Plug(z.c, Hold(z.t, pool))))
  {
    hide Accounted;
    FocusFacts(v, all, z);
    SetInfo(v, v, all, z, Hold(z.t, pool).i);
    MoveTop(v, all, Zip(z.c, Hold(z.t, pool)));
  }

  /** After allocating and referencing, the root is still an untyped root. */
  lemma RootAfter(v: View, all: set<Ptr>, t: Tree, z: Zip, c: nat, ids: seq<Ptr>, pool: bool, u: Tree)
    requires RootInv(t) && Source(t, z, c) && |ids| >= 2 * (z.t.i.cls - c) && u == AllocTree(z, c, ids, pool)
    requires ZRep(v, all, Zip(Top, u))
    ensures RootInv(u)
  {
    hide AllocTree, Accounted, Plug;
    AllocFacts(t, z, c, ids, pool);
    assert EffAt(t, 0, 0) == EffAt(u, 0, 0);
    assert PtrOf(u) == Root;
  }
}
