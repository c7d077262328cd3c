/**
 When attaching memory keeps the physical tree coalesced, which is what giving back the
 very same tree after an allocation and a release depends on.
 */
module BuddyCoalesce {
  import opened Arith
  import opened BuddyTree
  import opened BuddyOps
  import opened BuddyLookup
  import opened BuddyTypes
  import opened BuddyOrder
  import opened BuddySteps

  /** Whether the block n levels down has a node of its own. */
  predicate HasNode(t: Tree, n: nat, a: nat)
    decreases n
  {
    t.Node? &&
    (n == 0 || (t.l.Node? && t.r.Node? && t.i.cls > 0 && HasNode(if Bit(a, t.i.cls - 1) then t.r else t.l, n - 1, a)))
  }

  /** Unreferenced typed memory is one leaf when no two free buddies are left unmerged. */
  lemma {:induction false} BareLeaf(t: Tree, s: Slot)
    requires t.Node? && Inv(Relist(t), s) && NoRefs(t) && Coalesced(t) && t.i.st != Partial
    ensures IsLeaf(t)
    decreases t
  {
    if t.l.Node? {
      assert Relist(t.l) == t.l && Relist(t.r) == t.r;
      BareLeaf(t.l, KidSlot(t.i, false));
      BareLeaf(t.r, KidSlot(t.i, true));
    }
  }

  lemma {:induction false} LookupSame(y: Zip, z: Zip, n: nat, a: nat, ty: State, ids: seq<Ptr>)
    requires y.t == z.t && |ids| >= 2 * n
    ensures Lookup(y, n, a, ty, ids).t == Lookup(z, n, a, ty, ids).t
    decreases n
  {
    if n > 0 && z.t.Node? && z.t.i.cls > 0 {
      LookupSame(Step(y, a, ty, ids), Step(z, a, ty, ids), n - 1, a, ty, Rest(z.t, ids));
    }
  }

  /** What attaching makes of a subtree's own node. */
  predicate Topped(t: Tree, n: nat, ty: State, u: Tree) {
    t.Node? && u.Node? && (if n == 0 then u == Retype(t, ty) else u.l.Node? && u.r.Node?)
  }

  lemma {:induction false} AttachCoalesces(t: Tree, s: Slot, n: nat, a: nat, ty: State, ids: seq<Ptr>)
    returns (u: Tree)
    requires t.Node? && Inv(Relist(t), s) && (t.i.listed ==> Relist(t).i.listed) && Coalesced(t)
    requires n <= t.i.cls && |ids| >= 2 * n && ty != Partial && NoRefs(Lookup(Zip(Top, t), n, a, ty, ids).t)
    ensures u == AttachIn(t, n, a, ty, ids) && Topped(t, n, ty, u)
    ensures Coalesced(u) <==> EffAt(t, n, a) != ty || HasNode(t, n, a)
    decreases n
  {
    hide Bit, Inv, Coalesced, EffAt, HasNode, Relist, Retype, NoRefs, Enter;
    u := AttachIn(t, n, a, ty, ids);
    if n == 0 {
      RetypeCoalesced(t, a, ty);
    } else {
      var right := Bit(a, t.i.cls - 1);
      var z := EnterKid(t, s, a, ty, ids);
      LookupSame(z, Zip(Top, z.t), n - 1, a, ty, Rest(t, ids));
      var v := AttachCoalesces(z.t, KidSlot(t.i, right), n - 1, a, ty, Rest(t, ids));
      CoalescesStep(t, s, n, a, ty, ids, z, v);
    }
  }

  lemma RetypeCoalesced(t: Tree, a: nat, ty: State)
    requires t.Node?
    ensures Retype(t, ty).Node? && Coalesced(Retype(t, ty)) && HasNode(t, 0, a)
  {
  }

  lemma EnterKid(t: Tree, s: Slot, a: nat, ty: State, ids: seq<Ptr>) returns (z: Zip)
    requires t.Node? && Inv(Relist(t), s) && (t.i.listed ==> Relist(t).i.listed) && t.i.cls > 0 && |ids| >= 2
    ensures z == Step(Zip(Top, t), a, ty, ids) && z.t.Node? && z.c.Down? && z.c.sib.Node?
    ensures z.t.i.cls == t.i.cls - 1 && z.c.right == Bit(a, t.i.cls - 1) && z.c.i.cls == t.i.cls
    ensures Inv(Relist(z.t), KidSlot(t.i, Bit(a, t.i.cls - 1))) && (z.t.i.listed ==> Relist(z.t).i.listed)
    ensures Coalesced(t) ==> Coalesced(z.t)
  {
    hide Bit;
    z := Step(Zip(Top, t), a, ty, ids);
    GrowInv(t, s, ids, Bit(a, t.i.cls - 1));
  }

  lemma CoalescesStep(t: Tree, s: Slot, n: nat, a: nat, ty: State, ids: seq<Ptr>, z: Zip, v: Tree)
    requires t.Node? && Inv(Relist(t), s) && Coalesced(t) && 0 < n <= t.i.cls && |ids| >= 2 && ty != Partial
    requires z == Step(Zip(Top, t), a, ty, ids) && z.t.Node? && Topped(z.t, n - 1, ty, v)
    requires Inv(Relist(z.t), KidSlot(t.i, Bit(a, t.i.cls - 1))) && (n == 1 ==> NoRefs(z.t))
    requires Coalesced(v) <==> EffAt(z.t, n - 1, a) != ty || HasNode(z.t, n - 1, a)
    ensures Coalesced(Fill(z.c.right, z.c.i, z.c.sib, v)) <==> EffAt(t, n, a) != ty || HasNode(t, n, a)
  {
    hide Bit;
    if n == 1 && t.i.st == ty && t.l.Node? {
      BareLeaf(z.t, KidSlot(t.i, Bit(a, t.i.cls - 1)));
    }
  }

  /** Attaching keeps a coalesced tree coalesced if and only if the memory is not of that
      type already or the block has its own node. */
  lemma AttachCoalescedIff(t: Tree, b: Block, ids: seq<Ptr>)
    requires Untyped(t) && Placed(b) && |ids| >= 2 * Levels(b) && NoRefs(Target(t, b, ids)) && Coalesced(t)
    ensures Coalesced(AttachBlock(t, b, ids)) <==> StateOf(t, b) != b.ty || HasNode(t, Levels(b), b.addr)
  {
    hide Inv, Lookup, AttachIn, Coalesced, EffAt, HasNode;
    StartsWell(t);
    AttachIsAttachIn(Zip(Top, t), Levels(b), b.addr, b.ty, ids);
    var u := AttachCoalesces(t, RootSlot, Levels(b), b.addr, b.ty, ids);
  }

  /** A block just attached is a leaf: nothing below it has a node. */
  lemma {:induction false} LeafBelow(t: Tree, s: Slot, n: nat, a: nat, ty: State, ids: seq<Ptr>, m: nat, b: nat)
    requires t.Node? && Inv(Relist(t), s) && (t.i.listed ==> Relist(t).i.listed)
    requires n <= t.i.cls && n < m && |ids| >= 2 * n && Agree(a, b, n, t.i.cls)
    ensures !HasNode(AttachIn(t, n, a, ty, ids), m, b)
    decreases n
  {
    hide Bit, Inv, Relist, Enter, Retype;
    if n == 0 {
      RetypedLeaf(t, ty, m, b);
    } else {
      var right := Bit(a, t.i.cls - 1);
      var z := EnterKid(t, s, a, ty, ids);
      LeafBelow(z.t, KidSlot(t.i, right), n - 1, a, ty, Rest(t, ids), m - 1, b);
    }
  }

  lemma RetypedLeaf(t: Tree, ty: State, m: nat, b: nat)
    requires t.Node? && m > 0
    ensures !HasNode(Retype(t, ty), m, b)
  {
  }

  /** So attaching a smaller block of it once more leaves two free buddies unmerged. */
  lemma AttachTwice(t: Tree, b: Block, ids: seq<Ptr>, o: Block, more: seq<Ptr>)
    requires Untyped(t) && Placed(b) && |ids| >= 2 * Levels(b) && NoRefs(Target(t, b, ids)) && Coalesced(t)
    requires StateOf(t, b) == Partial && Placed(o) && Inside(o, b) && o.cls < b.cls && o.ty == b.ty
    requires |more| >= 2 * Levels(o) && NoRefs(Target(AttachBlock(t, b, ids), o, more))
    ensures Coalesced(AttachBlock(t, b, ids)) && !Coalesced(AttachBlock(AttachBlock(t, b, ids), o, more))
  {
    hide Inv, Lookup, AttachIn, Coalesced, HasNode, Bit, Pow2;
    var u := AttachBlock(t, b, ids);
    StartsWell(t);
    AttachKeeps(t, b, ids, 0, 0);
    AttachCoalescedIff(t, b, ids);
    AttachCoalescedIff(u, o, more);
    AttachIsAttachIn(Zip(Top, t), Levels(b), b.addr, b.ty, ids);
    var w := AttachEff(t, RootSlot, Levels(b), b.addr, b.ty, ids, Levels(o), o.addr);
    InsideAgrees(o, b);
    LeafBelow(t, RootSlot, Levels(b), b.addr, b.ty, ids, Levels(o), o.addr);
  }

  lemma InsideAgrees(o: Block, b: Block)
    requires Placed(o) && Placed(b) && Inside(o, b) && o.cls < b.cls
    ensures Agree(b.addr, o.addr, Levels(b), MAX_CLASS)
  {
    RootAligned();
    AgreeIsBlock(0, MAX_CLASS, b.addr, o.addr, Levels(b));
  }
}
