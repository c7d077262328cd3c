/**
 Memory without a type that is directly referenced is what a release can lose types of.
 No operation makes any, but for a claim of such memory.
 */
module BuddyTyped {
  import opened Arith
  import opened BuddyTree
  import opened BuddyOps
  import opened BuddyLookup
  import opened BuddyTypes
  import opened BuddyOrder
  import opened BuddyPool
  import opened BuddySteps
  import opened BuddyClaim

  predicate TypedIfHeld(i: Info) {
    Direct(i) > 0 ==> i.st != Partial
  }

  /** No memory without a type is directly referenced. */
  predicate HeldTyped(t: Tree) {
    t.Node? ==> TypedIfHeld(t.i) && HeldTyped(t.l) && HeldTyped(t.r)
  }

  predicate CHeldTyped(c: Ctx) {
    c.Down? ==> TypedIfHeld(c.i) && HeldTyped(c.sib) && CHeldTyped(c.up)
  }

  lemma {:induction false} HeldTypedPlug(c: Ctx, t: Tree)
    ensures HeldTyped(Plug(c, t)) <==> CHeldTyped(c) && HeldTyped(t)
    decreases c
  {
    if c.Down? {
      HeldTypedPlug(c.up, Fill(c.right, c.i, c.sib, t));
    }
  }

  // ------------------------------------------------------------ what the steps are made of

  lemma {:induction false} RefSubTyped(t: Tree)
    requires HeldTyped(t)
    ensures HeldTyped(RefSub(t))
    decreases t
  {
    if t.Node? {
      RefSubTyped(t.l);
      RefSubTyped(t.r);
    }
  }

  lemma {:induction false} UnrefSubTyped(t: Tree)
    requires HeldTyped(t)
    ensures HeldTyped(UnrefSub(t))
    decreases t
  {
    if t.Node? {
      UnrefSubTyped(t.l);
      UnrefSubTyped(t.r);
    }
  }

  lemma {:induction false} MergeTyped(z: Zip)
    requires CHeldTyped(z.c) && HeldTyped(z.t)
    ensures HeldTyped(Whole(Merge(z)))
    decreases z.c
  {
    if z.c.Down? && IsFree(z.t) && IsFree(z.c.sib) && z.c.i.st == z.t.i.st {
      MergeTyped(Zip(z.c.up, Leaf(z.c.i.(listed := z.c.i.st == Allocatable))));
    } else {
      HeldTypedPlug(z.c, z.t);
    }
  }

  /** What is below a referenced node is referenced. */
  lemma {:induction false} LookupReferenced(z: Zip, n: nat, a: nat, ty: State, ids: seq<Ptr>)
    requires FInv(z) && n <= z.t.i.cls && |ids| >= 2 * n && Attachable(z.c, ty) && z.t.i.refc > 0
    ensures var r := Lookup(z, n, a, ty, ids); r.t.Node? && r.t.i.refc > 0
    decreases n
  {
    hide CInv, Bit, Pow2;
    if n > 0 {
      StepInv(z, a, ty, ids);
      LookupReferenced(Step(z, a, ty, ids), n - 1, a, ty, Rest(z.t, ids));
    }
  }

  lemma EnterTyped(z: Zip, right: bool, ty: State, ids: seq<Ptr>)
    requires FInv(z) && z.t.i.cls > 0 && |ids| >= 2 && CHeldTyped(z.c) && HeldTyped(z.t)
    requires ty == Partial || z.t.i.refc == 0
    ensures var r := Enter(z, right, ty, ids); CHeldTyped(r.c) && HeldTyped(r.t)
  {
    hide CInv, Pow2;
    var g := Grow(z.t, ids);
    assert HeldTyped(g.l) && HeldTyped(g.r);
  }

  /** The walk of page_lookup takes types only from memory nobody holds. */
  lemma {:induction false} LookupTyped(z: Zip, n: nat, a: nat, ty: State, ids: seq<Ptr>)
    requires FInv(z) && n <= z.t.i.cls && |ids| >= 2 * n && Attachable(z.c, ty)
    requires CHeldTyped(z.c) && HeldTyped(z.t) && (ty == Partial || NoRefs(Lookup(z, n, a, ty, ids).t))
    ensures var r := Lookup(z, n, a, ty, ids); CHeldTyped(r.c) && HeldTyped(r.t)
    decreases n
  {
    hide Inv, CInv, FInv, HeldTyped, CHeldTyped, Enter, Attachable, Bit, Pow2;
    if n > 0 {
      if ty != Partial && z.t.Node? && z.t.i.refc > 0 {
        LookupReferenced(z, n, a, ty, ids);
      }
      FocusPair(z);
      StepInv(z, a, ty, ids);
      EnterTyped(z, Bit(a, z.t.i.cls - 1), ty, ids);
      LookupTyped(Step(z, a, ty, ids), n - 1, a, ty, Rest(z.t, ids));
    }
  }

  /** The node found has the state the block had. */
  lemma {:induction false} LookupState(z: Zip, n: nat, a: nat, ids: seq<Ptr>)
    requires FInv(z) && n <= z.t.i.cls && |ids| >= 2 * n
    ensures var r := Lookup(z, n, a, Partial, ids); r.t.Node? && r.t.i.st == EffAt(z.t, n, a)
    decreases n
  {
    hide CInv, Bit, Pow2;
    if n > 0 {
      StepInv(z, a, Partial, ids);
      LookupState(Step(z, a, Partial, ids), n - 1, a, Rest(z.t, ids));
    }
  }

  // ------------------------------------------------------------ steps

  lemma AllocTyped(t: Tree, z: Zip, c: nat, ids: seq<Ptr>, pool: bool)
    requires Untyped(t) && Source(t, z, c) && |ids| >= 2 * (z.t.i.cls - c) && HeldTyped(t)
    ensures HeldTyped(AllocTree(z, c, ids, pool))
  {
    hide Inv, CInv, Lookup, Plug, CHeldTyped, RefSub;
    WalkFacts(t, z, c, ids);
    SourceInv(t, z, c);
    HeldTypedPlug(z.c, z.t);
    LookupTyped(Zip(z.c, Unlisted(z.t)), z.t.i.cls - c, z.t.i.addr, Partial, ids);
    var r := AllocWalk(z, c, ids);
    HoldTyped(r, pool);
  }

  lemma HoldTyped(r: Zip, pool: bool)
    requires r.t.Node? && r.t.i.st != Partial && CHeldTyped(r.c) && HeldTyped(r.t)
    ensures RefSub(r.t).Node? && HeldTyped(Plug(r.c, Hold(RefSub(r.t), pool)))
  {
    hide Plug, CHeldTyped;
    RefSubTyped(r.t);
    HeldTypedPlug(r.c, Hold(RefSub(r.t), pool));
  }

  lemma ClaimTyped(t: Tree, c: nat, a: nat, ids: seq<Ptr>)
    requires Untyped(t) && IsBlock(c, a) && |ids| >= 2 * (MAX_CLASS - c) && HeldTyped(t)
    requires EffAt(t, MAX_CLASS - c, a) != Partial
    ensures HeldTyped(ClaimTree(t, c, a, ids))
  {
    hide Inv, CInv, Lookup, Plug, RefSub, IsBlock, EffAt;
    var r := ClaimFinds(t, c, a, ids);
    LookupTyped(Zip(Top, t), MAX_CLASS - c, a, Partial, ids);
    LookupState(Zip(Top, t), MAX_CLASS - c, a, ids);
    HoldTyped(r, false);
  }

  lemma UnrefTyped(z: Zip)
    requires z.t.Node? && z.t.i.held > 0 && HeldTyped(Whole(z))
    ensures HeldTyped(UnrefTree(z)) && z.t.i.st != Partial
  {
    hide Plug, CHeldTyped, Merge, UnrefSub;
    HeldTypedPlug(z.c, z.t);
    UnrefSubTyped(BuddyOps.Release(z.t));
    MergeTyped(Zip(z.c, UnrefSub(BuddyOps.Release(z.t))));
  }

  lemma AttachTyped(t: Tree, b: Block, ids: seq<Ptr>)
    requires Untyped(t) && Placed(b) && |ids| >= 2 * Levels(b) && NoRefs(Target(t, b, ids)) && HeldTyped(t)
    ensures HeldTyped(AttachBlock(t, b, ids))
  {
    hide Inv, CInv, Lookup, Plug, Aligned, Pow2;
    var z, n := Zip(Top, t), Levels(b);
    StartsWell(t);
    LookupTyped(z, n, b.addr, b.ty, ids);
    LookupInv(z, n, b.addr, b.ty, ids);
    var r := Lookup(z, n, b.addr, b.ty, ids);
    NoDirect(r);
    HeldTypedPlug(r.c, Retype(r.t, b.ty));
  }
}
