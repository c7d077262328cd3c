/**
 The client's steps on the whole tree: taking a reference, releasing one, attaching a
 block; and what each of them keeps.
 */
module BuddySteps {
  import opened BuddyTree
  import opened BuddyOps
  import opened BuddyLookup
  import opened BuddyTypes
  import opened BuddyOrder
  import opened BuddyLive
  import opened BuddyRep
  import opened BuddyShape
  import opened BuddyPool

  /** page_ref by a client. */
  function RefTree(z: Zip): (t: Tree)
    requires z.t.Node?
  {
    Plug(z.c, Hold(RefSub(z.t), false))
  }

  /** page_unref by a client that holds the node. */
  function UnrefTree(z: Zip): (t: Tree)
    requires z.t.Node? && z.t.i.held > 0
  {
    Whole(Unref(Zip(z.c, Release(z.t))))
  }

  lemma {:induction false} SameTop(c: Ctx, t: Tree, u: Tree)
    requires t.Node? && u.Node? && t.i.p == u.i.p && t.i.st == u.i.st
    ensures Plug(c, t).Node? && Plug(c, u).Node?
    ensures Plug(c, t).i.p == Plug(c, u).i.p && Plug(c, t).i.st == Plug(c, u).i.st
    decreases c
  {
    if c.Down? {
      SameTop(c.up, Fill(c.right, c.i, c.sib, t), Fill(c.right, c.i, c.sib, u));
    }
  }

  lemma {:induction false} MergeTop(z: Zip)
    requires z.t.Node?
    ensures Whole(z).Node? && Whole(Merge(z)).Node?
    ensures Whole(Merge(z)).i.p == Whole(z).i.p && Whole(Merge(z)).i.st == Whole(z).i.st
    decreases z.c
  {
    SameTop(z.c, z.t, z.t);
    if z.c.Down? && IsFree(z.t) && IsFree(z.c.sib) && z.c.i.st == z.t.i.st {
      var y := Zip(z.c.up, Leaf(z.c.i.(listed := z.c.i.st == Allocatable)));
      MergeTop(y);
      SameTop(z.c.up, Fill(z.c.right, z.c.i, z.c.sib, z.t), y.t);
    }
  }

  /** A reference keeps the invariant; it is the only one that is new. */
  lemma RefKeeps(z: Zip)
    requires RootInv(Whole(z)) && z.t.Node?
    ensures RootInv(RefTree(z))
    ensures SameEff(Whole(z), RefTree(z))
    ensures Coalesced(Whole(z)) ==> Coalesced(RefTree(z))
    ensures z.t.i.held > 0 && Excl(Whole(z), false) ==> Excl(RefTree(z), false)
  {
    hide RefSub, Coalesced, Excl;
    RefSubInfo(z.t);
    var u, h := RefSub(z.t), Hold(RefSub(z.t), false);
    InvPlug(z.c, z.t);
    assert Relist(z.t) == z.t;
    RefInv(z.t, HoleSlot(z.c), false);
    InvPlug(z.c, h);
    RefSubFacts(z.t);
    DistPlug(z.c, z.t);
    DistPlug(z.c, h);
    SameTop(z.c, z.t, h);
    RefQuiet(z.t);
    HoldQuiet(z.t, u, false);
    SameEffPlug(z.c, z.t, h);
    if Coalesced(Whole(z)) {
      CoalescedPlug(z.c, z.t);
      RefSubCoalesced(z.t);
      HoldCoalesced(z.t, u);
      CoalescedPlug(z.c, h);
    }
    if z.t.i.held > 0 && Excl(Whole(z), false) {
      RefExcl(z);
    }
  }

  lemma RefSubInfo(t: Tree)
    requires t.Node?
    ensures var u := RefSub(t); u.Node? && u.i.p == t.i.p && u.i.st == t.i.st && u.i.refc > 0
  {
  }

  lemma HoldCoalesced(t: Tree, u: Tree)
    requires u.Node? && Coalesced(u)
    ensures Coalesced(Hold(u, false))
  {
  }

  lemma RefHolds(z: Zip, c: nat, a: nat)
    requires z.t.Node?
    ensures Holds(RefTree(z), c, a) == Holds(Whole(z), c, a) + (if (c, a) == (z.t.i.cls, z.t.i.addr) then 1 else 0)
    ensures Pools(RefTree(z), a) == Pools(Whole(z), a)
  {
    var h := Hold(RefSub(z.t), false);
    RefSubHolds(z.t, c, a);
    HoldsPlug(z.c, z.t, c, a);
    HoldsPlug(z.c, h, c, a);
    PoolsPlug(z.c, z.t, a);
    PoolsPlug(z.c, h, a);
  }

  /** A release keeps the invariant. */
  lemma UnrefKeeps(z: Zip)
    requires RootInv(Whole(z)) && z.t.Node? && z.t.i.held > 0
    ensures RootInv(UnrefTree(z))
    ensures Coalesced(Whole(z)) ==> Coalesced(UnrefTree(z))
    ensures Excl(Whole(z), false) ==> Excl(UnrefTree(z), false)
  {
    hide UnrefSub, Merge, Coalesced, Excl, Inv, CInv;
    InvPlug(z.c, z.t);
    UnrefInv(z);
    UnrefSubInfo(Release(z.t));
    SameTop(z.c, z.t, UnrefSub(Release(z.t)));
    MergeTop(Zip(z.c, UnrefSub(Release(z.t))));
    if Coalesced(Whole(z)) {
      UnrefCoalesced(z);
    }
    if Excl(Whole(z), false) {
      UnrefExcl(z);
    }
  }

  lemma UnrefSubInfo(t: Tree)
    requires t.Node?
    ensures UnrefSub(t).Node? && UnrefSub(t).i.p == t.i.p && UnrefSub(t).i.st == t.i.st
  {
  }

  // ------------------------------------------------------------ attaching

  /** A node with no reference below it holds nothing. */
  lemma {:induction false} NoRefsHolds(t: Tree, s: Slot, c: nat, a: nat)
    requires t.Node? && Inv(Relist(t), s) && NoRefs(t)
    ensures Holds(t, c, a) == 0 && Pools(t, a) == 0
    decreases t
  {
    if t.l.Node? {
      assert Relist(t.l) == t.l && Relist(t.r) == t.r;
      NoRefsHolds(t.l, KidSlot(t.i, false), c, a);
      NoRefsHolds(t.r, KidSlot(t.i, true), c, a);
    }
  }

  /** The invariant and an untyped root. */
  predicate Untyped(t: Tree) {
    t.Node? && Inv(t, RootSlot) && t.i.st == Partial
  }

  /** Attaching a block nobody uses keeps the invariant and every reference. */
  lemma AttachKeeps(t: Tree, b: Block, ids: seq<Ptr>, c: nat, a: nat)
    requires Untyped(t) && Placed(b) && |ids| >= 2 * Levels(b) && NoRefs(Target(t, b, ids))
    ensures var u := AttachBlock(t, b, ids);
      && Untyped(u) && Holds(u, c, a) == Holds(t, c, a) && Pools(u, a) == Pools(t, a)
  {
    hide Lookup, Inv, CInv, Dist, Holds, Pools, Plug;
    var z, n := Zip(Top, t), Levels(b);
    StartsWell(t);
    AttachInv(z, n, b.addr, b.ty, ids);
    var r := Lookup(z, n, b.addr, b.ty, ids);
    LookupInv(z, n, b.addr, b.ty, ids);
    var w := Attach(z, n, b.addr, b.ty, ids);
    InvPlug(w.c, w.t);
    LookupHolds(z, n, b.addr, b.ty, ids, c, a);
    NoRefsHolds(r.t, HoleSlot(r.c), c, a);
    RetypeHolds(r.t, b.ty, HoleSlot(r.c), c, a);
    HoldsPlug(r.c, r.t, c, a);
    HoldsPlug(r.c, w.t, c, a);
    PoolsPlug(r.c, r.t, a);
    PoolsPlug(r.c, w.t, a);
    AttachRoot(t, b, ids);
  }

  lemma StartsWell(t: Tree)
    requires Untyped(t)
    ensures FInv(Zip(Top, t)) && t.i.cls == MAX_CLASS && Relist(t) == t && Whole(Zip(Top, t)) == t
  {
  }

  lemma AttachRoot(t: Tree, b: Block, ids: seq<Ptr>)
    requires Untyped(t) && Placed(b) && |ids| >= 2 * Levels(b)
    ensures AttachBlock(t, b, ids).Node? && AttachBlock(t, b, ids).i.st == Partial
  {
    hide Inv, CInv, Lookup, AttachIn;
    StartsWell(t);
    AttachIsAttachIn(Zip(Top, t), Levels(b), b.addr, b.ty, ids);
    var u := AttachEff(t, RootSlot, Levels(b), b.addr, b.ty, ids, 0, 0);
    assert Agree(b.addr, 0, 0, t.i.cls);
    assert u.i.st == EffAt(u, 0, 0) && EffAt(t, 0, 0) == Partial;
  }

  lemma RetypeHolds(t: Tree, ty: State, s: Slot, c: nat, a: nat)
    requires t.Node? && Inv(Relist(t), s) && NoRefs(t)
    ensures Holds(Retype(t, ty), c, a) == 0 && Pools(Retype(t, ty), a) == 0
  {
    var u := Retype(t, ty);
    assert Holds(u.l, c, a) == 0 && Holds(u.r, c, a) == 0 && Pools(u.l, a) == 0 && Pools(u.r, a) == 0;
  }

  lemma NoDirect(z: Zip)
    requires FInv(z) && NoRefs(z.t)
    ensures Direct(z.t.i) == 0
  {
  }

  // ------------------------------------------------------------ free lists

  /** The unreferenced Allocatable leaves of class c. */
  function FreeLeaves(t: Tree, c: nat): (s: set<Ptr>) {
    if t.Nil? then {}
    else
      (if t.i.st == Allocatable && IsFree(t) && t.i.cls == c then {t.i.p} else {})
      + FreeLeaves(t.l, c) + FreeLeaves(t.r, c)
  }

  /** There is no free block of any of these classes. */
  predicate NoFree(t: Tree, lo: nat, hi: nat) {
    forall c: nat :: lo <= c < hi ==> FreeLeaves(t, c) == {}
  }

  lemma {:induction false} LeavesAreIds(t: Tree, c: nat)
    ensures FreeLeaves(t, c) <= Ids(t)
    decreases t
  {
    if t.Node? {
      LeavesAreIds(t.l, c);
      LeavesAreIds(t.r, c);
    }
  }

  lemma {:induction false} ListedAreLeaves(v: View, t: Tree, s: Slot, par: Ptr, c: nat, p: Ptr)
    requires Rep(v, t, par) && Inv(t, s) && Dist(t) && v.off == Null && p in Ids(t)
    ensures p in v.on && v.on[p] == ClassHead(c) <==> p in FreeLeaves(t, c)
    decreases t
  {
    LeavesAreIds(t.l, c);
    LeavesAreIds(t.r, c);
    if p in Ids(t.l) {
      ListedAreLeaves(v, t.l, KidSlot(t.i, false), t.i.p, c, p);
    } else if p in Ids(t.r) {
      ListedAreLeaves(v, t.r, KidSlot(t.i, true), t.i.p, c, p);
    }
  }

  // ------------------------------------------------------------ a region, block by block

  /** The attaches es, refills of the descriptor pool in between, lead from t to u. */
  ghost predicate Leads(t: Tree, es: seq<Attempt>, u: Tree) {
    && (forall k :: 0 <= k < |es| ==> Sound(es[k]) && NoRefs(Target(es[k].t, es[k].b, es[k].ids)))
    && (|es| > 0 ==> Refilled(t, es[0].t))
    && (forall k :: 0 < k < |es| ==> Refilled(AttachBlock(es[k - 1].t, es[k - 1].b, es[k - 1].ids), es[k].t))
    && u == (if |es| > 0 then Last(es) else t)
  }

  lemma LeadsOn(t: Tree, es: seq<Attempt>, u: Tree, e: Attempt)
    requires Leads(t, es, u) && Refilled(u, e.t) && Sound(e) && NoRefs(Target(e.t, e.b, e.ids))
    ensures Leads(t, es + [e], AttachBlock(e.t, e.b, e.ids))
  {
    hide Refilled, AttachBlock, Target, NoRefs;
    var fs := es + [e];
    assert fs[|es|] == e;
    assert forall k :: 0 <= k < |es| ==> fs[k] == es[k];
  }

  lemma LeadsNowhere(t: Tree)
    ensures Leads(t, [], t)
  {
  }

  /** What attaching one block establishes for the allocator. */
  lemma AttachedRoot(v: View, all: set<Ptr>, t: Tree, b: Block, ids: seq<Ptr>, r: Zip)
    requires RootInv(t) && Housed(all, t) && Placed(b) && |ids| >= 2 * Levels(b) && NoRefs(Target(t, b, ids))
    requires r == Attach(Zip(Top, t), Levels(b), b.addr, b.ty, ids) && ZRep(v, all, r)
    ensures ZRep(v, all, Zip(Top, AttachBlock(t, b, ids)))
    ensures RootInv(AttachBlock(t, b, ids)) && Housed(all, AttachBlock(t, b, ids)) && Sound(Attempt(t, b, ids))
  {
    hide Lookup, Inv, CInv, Pools, Holds, Accounted;
    StartsWell(t);
    AttachInv(Zip(Top, t), Levels(b), b.addr, b.ty, ids);
    AllNodes(r.c);
    MoveTop(v, all, r);
    var u := AttachBlock(t, b, ids);
    AttachKeeps(t, b, ids, 0, 0);
    assert PtrOf(u) == Root;
    forall a: nat, k: nat | Pooled(a, k) in all ensures Pools(u, a) > 0 {
      AttachKeeps(t, b, ids, 0, a);
    }
  }

  lemma RootUnlisted(t: Tree)
    requires RootInv(t)
    ensures Unlisted(t) == t && t.i.cls == MAX_CLASS
  {
  }

  /** The attaches are those of the blocks, in their order. */
  predicate Carries(es: seq<Attempt>, bs: seq<Block>) {
    |es| == |bs| && forall k :: 0 <= k < |es| ==> es[k].b == bs[k]
  }

  lemma CarriesNothing(bs: seq<Block>)
    ensures Carries([], bs[..0])
  {
  }

  lemma CarriesOn(es: seq<Attempt>, bs: seq<Block>, e: Attempt)
    requires |es| < |bs| && Carries(es, bs[..|es|]) && e.b == bs[|es|]
    ensures Carries(es + [e], bs[..|es| + 1])
  {
  }

  lemma HousedStays(all: set<Ptr>, t: Tree, u: Tree, z: Zip, c: nat, ids: seq<Ptr>)
    requires RootInv(t) && Housed(all, t) && Source(t, z, c)
    requires |ids| >= 2 * (z.t.i.cls - c) && u == AllocTree(z, c, ids, false)
    ensures Housed(all, u)
  {
    forall a: nat, k: nat | Pooled(a, k) in all ensures Pools(u, a) > 0 {
      AllocHolds(t, z, c, ids, false, 0, a);
    }
  }

  /** Clients' references and releases leave the allocator's own pages alone. */
  lemma HousedSame(all: set<Ptr>, t: Tree, u: Tree, z: Zip, ref: bool)
    requires Housed(all, t) && t == Whole(z) && ZInv(z)
    requires if ref then u == RefTree(z) else z.t.i.held > 0 && u == UnrefTree(z)
    ensures Housed(all, u)
  {
    forall a: nat, k: nat | Pooled(a, k) in all ensures Pools(u, a) > 0 {
      if ref {
        RefHolds(z, 0, a);
      } else {
        UnrefHolds(z, 0, a);
      }
    }
  }

  lemma ReleaseShape(z: Zip)
    requires Shape(z.t) && z.t.Node? && z.t.i.held > 0 && ZInv(z)
    ensures Shape(Release(z.t)) && Release(z.t).i.refc > 0
  {
  }

  lemma SourceClass(t: Tree, z: Zip, c: nat)
    requires RootInv(t) && Source(t, z, c)
    ensures z.t.i.cls < MAX_CLASS
  {
    FocusShape(z);
  }

  /** Allocating a block and releasing it gives back the very tree there was, and with it
      every free list, if no pair of free buddies was left unmerged. */
  lemma AllocThenRelease(t: Tree, z: Zip, c: nat, ids: seq<Ptr>)
    requires Inv(t, RootSlot) && Source(t, z, c) && |ids| >= 2 * (z.t.i.cls - c) && Coalesced(t)
    ensures var r := AllocWalk(z, c, ids);
      && r.t.Node?
      && AllocTree(z, c, ids, false) == Plug(r.c, Hold(RefSub(r.t), false))
      && UnrefTree(Zip(r.c, Hold(RefSub(r.t), false))) == t
  {
    hide Lookup, Inv, CInv, Coalesced, UnrefSub, Merge, Plug;
    SourceInv(t, z, c);
    AllocThenFree(z, c, ids);
  }
}
