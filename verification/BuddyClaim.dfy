/**
 Claiming a block at a given address: page_lookup from the root without a type, and
 page_ref of the node it returns. What that keeps, and what it adds.
 */
module BuddyClaim {
  import opened Arith
  import opened BuddyTree
  import opened BuddyOps
  import opened BuddyLookup
  import opened BuddyTypes
  import opened BuddyOrder
  import opened BuddyLive
  import opened BuddyPool
  import opened BuddyShape
  import opened BuddySteps

  /** A block of the memory the root covers. */
  predicate IsBlock(c: nat, a: nat) {
    c <= MAX_CLASS && Aligned(a, c) && a + Pow2(c) <= Pow2(MAX_CLASS)
  }

  function ClaimWalk(t: Tree, c: nat, a: nat, ids: seq<Ptr>): (r: Zip)
    requires c <= MAX_CLASS && |ids| >= 2 * (MAX_CLASS - c)
  {
    Lookup(Zip(Top, t), MAX_CLASS - c, a, Partial, ids)
  }

  function ClaimTree(t: Tree, c: nat, a: nat, ids: seq<Ptr>): (u: Tree)
    requires c <= MAX_CLASS && |ids| >= 2 * (MAX_CLASS - c)
  {
    var r := ClaimWalk(t, c, a, ids);
    if r.t.Nil? then Whole(r) else Plug(r.c, Hold(RefSub(r.t), false))
  }

  /** The node found is that of the block asked for. */
  lemma ClaimFinds(t: Tree, c: nat, a: nat, ids: seq<Ptr>) returns (r: Zip)
    requires Untyped(t) && IsBlock(c, a) && |ids| >= 2 * (MAX_CLASS - c)
    ensures r == ClaimWalk(t, c, a, ids) && FInv(r) && r.t.i.cls == c && r.t.i.addr == a
    ensures c <= MAX_CLASS == t.i.cls && FInv(Zip(Top, t)) && Whole(Zip(Top, t)) == t
  {
    hide Inv, CInv, Lookup, Aligned, Pow2;
    StartsWell(t);
    RootAddr(t);
    r := ClaimWalk(t, c, a, ids);
    LookupInv(Zip(Top, t), MAX_CLASS - c, a, Partial, ids);
    LookupLands(Zip(Top, t), MAX_CLASS - c, a, Partial, ids);
  }

  lemma RootAddr(t: Tree)
    requires Untyped(t)
    ensures t.i.addr == 0
  {
  }

  /** A claim keeps the invariant, the type of every page, coalescing, and the root's state. */
  lemma ClaimKeeps(t: Tree, c: nat, a: nat, ids: seq<Ptr>)
    requires Untyped(t) && IsBlock(c, a) && |ids| >= 2 * (MAX_CLASS - c)
    ensures var u := ClaimTree(t, c, a, ids);
      Untyped(u) && SameEff(t, u) && (Coalesced(t) ==> Coalesced(u))
  {
    hide Inv, CInv, Lookup, Plug, Coalesced, RefSub, IsBlock;
    var r := ClaimFinds(t, c, a, ids);
    FocusPair(r);
    RefSubInfo(r.t);
    var h := Hold(RefSub(r.t), false);
    ListedFree(r);
    RefInv(r.t, HoleSlot(r.c), false);
    InvPlug(r.c, h);
    LookupQuiet(Zip(Top, t), MAX_CLASS - c, a, ids);
    RefQuiet(r.t);
    HoldQuiet(r.t, RefSub(r.t), false);
    FInvNodes(r);
    SameEffPlug(r.c, r.t, h);
    SameTop(r.c, r.t, h);
    SameEffTrans(t, t, Whole(r), Plug(r.c, h));
    assert EffAt(t, 0, 0) == EffAt(Plug(r.c, h), 0, 0);
    if Coalesced(t) {
      LookupRefCoalesced(Zip(Top, t), MAX_CLASS - c, a, ids, false);
    }
  }

  lemma ListedFree(z: Zip)
    requires FInv(z)
    ensures z.t.i.listed ==> z.t.i.refc == 0
  {
  }

  /** It adds the one reference. */
  lemma ClaimHolds(t: Tree, c: nat, a: nat, ids: seq<Ptr>, hc: nat, ha: nat)
    requires Untyped(t) && IsBlock(c, a) && |ids| >= 2 * (MAX_CLASS - c)
    ensures var u := ClaimTree(t, c, a, ids);
      && Holds(u, hc, ha) == Holds(t, hc, ha) + (if (hc, ha) == (c, a) then 1 else 0)
      && Pools(u, ha) == Pools(t, ha)
  {
    hide Inv, CInv, Lookup, Plug, RefSub, IsBlock, Holds, Pools;
    var r := ClaimFinds(t, c, a, ids);
    LookupHolds(Zip(Top, t), MAX_CLASS - c, a, Partial, ids, hc, ha);
    RefHolds(r, hc, ha);
  }

  /** Memory nobody uses: its new owner is apart from the others. */
  lemma ClaimExcl(t: Tree, c: nat, a: nat, ids: seq<Ptr>)
    requires Untyped(t) && IsBlock(c, a) && |ids| >= 2 * (MAX_CLASS - c) && Excl(t, false)
    requires NoRefs(ClaimWalk(t, c, a, ids).t)
    ensures Excl(ClaimTree(t, c, a, ids), false)
  {
    hide Inv, CInv, Lookup, Plug, RefSub, IsBlock, Excl, CExcl;
    var r := ClaimFinds(t, c, a, ids);
    ExclPlug(Top, t);
    LookupExcl(Zip(Top, t), MAX_CLASS - c, a, Partial, ids);
    NoRefsFree(r);
    UnreferencedNotBelow(r.c);
    NoRefsExcl(r.t, HoleSlot(r.c));
    ExclPlug(r.c, Hold(RefSub(r.t), false));
  }

  lemma NoRefsFree(z: Zip)
    requires FInv(z) && NoRefs(z.t)
    ensures !HoleSlot(z.c).ref && CInv(z.c)
  {
  }

  lemma {:induction false} BareExcl(t: Tree, s: Slot)
    requires Inv(t, s) && NoRefs(t)
    ensures Excl(RefSub(t), true)
    decreases t
  {
    if t.Node? {
      BareExcl(t.l, KidSlot(t.i, false));
      BareExcl(t.r, KidSlot(t.i, true));
    }
  }

  lemma NoRefsExcl(t: Tree, s: Slot)
    requires t.Node? && Inv(Relist(t), s) && NoRefs(t)
    ensures RefSub(t).Node? && Excl(Hold(RefSub(t), false), false)
  {
    BareExcl(t.l, KidSlot(t.i, false));
    BareExcl(t.r, KidSlot(t.i, true));
  }

  lemma {:induction false} RelistShape(t: Tree, s: Slot)
    requires t.Node? && Inv(Relist(t), s) && (t.i.listed ==> Relist(t).i.listed)
    requires s.cls < MAX_CLASS || t.i.st == Partial
    requires s.cls <= MAX_CLASS
    ensures Shape(t)
  {
    InvShape(t.l, KidSlot(t.i, false));
    InvShape(t.r, KidSlot(t.i, true));
  }

  /** The node found is in the shape page_ref relies on. */
  lemma ClaimShape(t: Tree, c: nat, a: nat, ids: seq<Ptr>)
    requires RootInv(t) && IsBlock(c, a) && |ids| >= 2 * (MAX_CLASS - c)
    ensures var r := ClaimWalk(t, c, a, ids); r.t.Node? && Shape(r.t) && CInv(r.c)
  {
    hide Inv, CInv, Plug, IsBlock;
    var r := ClaimFinds(t, c, a, ids);
    FInvNodes(r);
    FocusPair(r);
    assert c == MAX_CLASS ==> r == Zip(Top, t);
    RelistShape(r.t, HoleSlot(r.c));
  }
}
