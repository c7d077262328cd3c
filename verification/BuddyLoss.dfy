/**
 page_unref and memory types. A merge compares the parent's state with the node just
 released but not with its buddy, so releasing a node of no type can swallow a typed
 buddy. This module says exactly when the types of all pages survive.
 */
module BuddyLoss {
  import opened Arith
  import opened BuddyTree
  import opened BuddyOps
  import opened BuddyLookup

  /** Releasing the subtree's last reference leaves one free leaf. */
  predicate Frees(t: Tree) {
    t.Node? && t.i.refc == 1 && (IsLeaf(t) || (Frees(t.l) && Frees(t.r) && t.i.st == t.r.i.st))
  }

  /** A merge inside the released subtree drops a buddy of another state. */
  predicate LossySub(t: Tree) {
    t.Node? && t.i.refc == 1 &&
    (LossySub(t.l) || LossySub(t.r) || (Frees(t.l) && Frees(t.r) && t.i.st == t.r.i.st != t.l.i.st))
  }

  /** A merge on the way up from a free leaf of this state drops a buddy of another state. */
  predicate LossyUp(c: Ctx, st: State)
    decreases c
  {
    c.Down? && IsFree(c.sib) && c.i.st == st && (c.sib.i.st != st || LossyUp(c.up, st))
  }

  predicate Lossy(z: Zip) {
    LossySub(z.t) || (Frees(z.t) && LossyUp(z.c, z.t.i.st))
  }

  lemma {:induction false} FreesIff(t: Tree, s: Slot)
    requires Inv(t, s) && s.ref
    ensures Frees(t) <==> IsFree(UnrefSub(t))
    ensures t.Node? ==> UnrefSub(t).Node? && UnrefSub(t).i.st == t.i.st
    decreases t
  {
    if t.Node? && t.i.refc == 1 {
      FreesIff(t.l, KidSlot(t.i, false));
      FreesIff(t.r, KidSlot(t.i, true));
    }
  }

  predicate InBlock(s: Slot, x: nat) {
    s.cls >= 0 && s.addr <= x < s.addr + Pow2(s.cls)
  }

  lemma {:induction false} UnrefSubKeepsTypes(t: Tree, s: Slot)
    requires Inv(t, s) && s.ref && !LossySub(t)
    ensures SameTypes(t, UnrefSub(t))
    decreases t
  {
    if t.Node? && t.i.refc == 1 {
      var ls, rs := KidSlot(t.i, false), KidSlot(t.i, true);
      FreesIff(t.l, ls);
      FreesIff(t.r, rs);
      UnrefSubKeepsTypes(t.l, ls);
      UnrefSubKeepsTypes(t.r, rs);
      var l, r := UnrefSub(t.l), UnrefSub(t.r);
      forall x: nat ensures TypeAt(t, x) == TypeAt(UnrefSub(t), x) {
        assert TypeAt(t.l, x) == TypeAt(l, x) && TypeAt(t.r, x) == TypeAt(r, x);
      }
    }
  }

  /** A page that loses its type in one half loses it in the whole block: if the halves are
      merged afterwards, the block has no type either. */
  lemma HalfLoses(t: Tree, s: Slot, right: bool, x: nat)
    requires t.Node? && t.l.Node? && Inv(t, s) && s.ref && t.i.refc == 1 && s.cls >= 0
    requires InBlock(KidSlot(t.i, right), x) && TypeAt(if right then t.r else t.l, x) != Partial
    requires TypeAt(UnrefSub(if right then t.r else t.l), x) == Partial
    ensures InBlock(s, x) && TypeAt(t, x) != Partial && TypeAt(UnrefSub(t), x) == Partial
  {
    hide Inv, TypeAt, Relist, Merges, Pow2;
    var l, r := UnrefSub(t.l), UnrefSub(t.r);
    HalvesInv(t, s);
    HalfType(t.i, t.l, t.r, right, x);
    HalfType(t.i.(refc := 0), l, r, right, x);
    InWhole(t, s, right, x);
  }

  lemma HalvesInv(t: Tree, s: Slot)
    requires t.Node? && t.l.Node? && Inv(t, s) && s.ref && t.i.refc == 1
    ensures HalvesOk(t.i, t.l, t.r) && HalvesOk(t.i.(refc := 0), UnrefSub(t.l), UnrefSub(t.r))
  {
    UnrefSubInv(t.l, KidSlot(t.i, false));
    UnrefSubInv(t.r, KidSlot(t.i, true));
    UnrefSubNode(t.l);
    UnrefSubNode(t.r);
  }

  /** Both halves are where they belong, and typed if the whole is. */
  predicate HalvesOk(i: Info, l: Tree, r: Tree) {
    && l.Node? && r.Node? && i.cls > 0 && r.i.addr == KidSlot(i, true).addr
    && (i.st != Partial ==> l.i.st == i.st && r.i.st == i.st)
  }

  /** A page of one half has the type the half gives it; where the halves merge after losing
      it, it has none. */
  lemma HalfType(i: Info, l: Tree, r: Tree, right: bool, x: nat)
    requires HalvesOk(i, l, r) && InBlock(KidSlot(i, right), x)
    ensures TypeAt(Relist(Node(i, l, r)), x) == TypeAt(Node(i, l, r), x) == TypeAt(if right then r else l, x)
    ensures Merges(i, l, r) && TypeAt(if right then r else l, x) == Partial ==> TypeAt(Relist(Leaf(i)), x) == Partial
  {
  }

  lemma InWhole(t: Tree, s: Slot, right: bool, x: nat)
    requires t.Node? && Inv(t, s) && s.cls >= 0 && t.i.cls > 0 && InBlock(KidSlot(t.i, right), x)
    ensures InBlock(s, x)
  {
  }

  /** If only the last merge is lossy, it is the lower half that loses its type. */
  lemma MergeLosesHalf(t: Tree, s: Slot) returns (x: nat)
    requires t.Node? && Inv(t, s) && s.ref && s.cls >= 0 && LossySub(t) && !LossySub(t.l) && !LossySub(t.r)
    ensures InBlock(s, x) && TypeAt(t, x) != Partial && TypeAt(UnrefSub(t), x) == Partial
  {
    FreesIff(t.l, KidSlot(t.i, false));
    FreesIff(t.r, KidSlot(t.i, true));
    UnrefSubInv(t.l, KidSlot(t.i, false));
    UnrefSubKeepsTypes(t.l, KidSlot(t.i, false));
    x := t.i.addr;
    assert TypeAt(UnrefSub(t.l), x) == TypeAt(t.l, x);
  }

  /** A lossy merge below t takes the type of some page of t away. */
  lemma {:induction false} UnrefSubLoses(t: Tree, s: Slot) returns (x: nat)
    requires t.Node? && Inv(t, s) && s.ref && LossySub(t) && s.cls >= 0
    ensures InBlock(s, x) && TypeAt(t, x) != Partial && TypeAt(UnrefSub(t), x) == Partial
    decreases t
  {
    hide UnrefSub, TypeAt, InBlock;
    if LossySub(t.l) {
      x := UnrefSubLoses(t.l, KidSlot(t.i, false));
      HalfLoses(t, s, false, x);
    } else if LossySub(t.r) {
      x := UnrefSubLoses(t.r, KidSlot(t.i, true));
      HalfLoses(t, s, true, x);
    } else {
      x := MergeLosesHalf(t, s);
    }
  }

  lemma InParent(c: Ctx, x: nat)
    requires c.Down? && CInv(c) && InBlock(HoleSlot(c), x)
    ensures InBlock(HoleSlot(c.up), x)
  {
  }

  /** Once a page of the hole has lost its type, merging further up does not bring it back. */
  lemma {:induction false} MergeStaysLost(z: Zip, x: nat)
    requires ZInv(z) && InBlock(HoleSlot(z.c), x) && TypeAt(z.t, x) == Partial
    ensures TypeAt(Whole(Merge(z)), x) == Partial
    decreases z.c
  {
    hide Inv, CInv, Plug, InBlock;
    if z.c.Down? && IsFree(z.t) && IsFree(z.c.sib) && z.c.i.st == z.t.i.st {
      var y := MergeStep(z);
      InParent(z.c, x);
      MergeStaysLost(y, x);
    } else {
      PlugIn(z.c, z.t, x);
    }
  }

  /** A page of the hole has the type the subtree in the hole gives it. */
  lemma {:induction false} PlugIn(c: Ctx, t: Tree, x: nat)
    requires CInv(c) && t.Node? && Inv(t, HoleSlot(c)) && InBlock(HoleSlot(c), x)
    ensures TypeAt(Plug(c, t), x) == TypeAt(t, x)
    decreases c
  {
    if c.Down? {
      InvPlug(c, t);
      InvPlug(c.up, Fill(c.right, c.i, c.sib, t));
      PlugIn(c.up, Fill(c.right, c.i, c.sib, t), x);
    }
  }

  lemma {:induction false} MergeKeepsTypes(z: Zip)
    requires ZInv(z) && (IsFree(z.t) ==> !LossyUp(z.c, z.t.i.st))
    ensures SameTypes(Whole(z), Whole(Merge(z)))
    decreases z.c
  {
    if z.c.Down? && IsFree(z.t) && IsFree(z.c.sib) && z.c.i.st == z.t.i.st {
      var y := MergeStep(z);
      EvenMerge(z, y);
      MergeKeepsTypes(y);
    }
  }

  /** The buddy's first page has the buddy's type before the merge. */
  lemma SibType(z: Zip) returns (x: nat)
    requires ZInv(z) && z.c.Down? && IsFree(z.t) && IsFree(z.c.sib)
    ensures InBlock(HoleSlot(z.c.up), x) && x < Pow2(MAX_CLASS) && TypeAt(Whole(z), x) == z.c.sib.i.st
    ensures z.c.sib.i.st != z.c.i.st ==> z.c.i.st == Partial
    ensures TypeAt(Leaf(z.c.i.(listed := z.c.i.st == Allocatable)), x) == z.c.i.st
  {
    hide Plug, Aligned, Inv, CInv, InBlock, Pow2;
    x := SibPage(z);
    var f := Fill(z.c.right, z.c.i, z.c.sib, z.t);
    HoleAligned(z.c.up);
    InvPlug(z.c, z.t);
    InvPlug(z.c.up, f);
    PlugUp(z);
    PlugIn(z.c.up, f, x);
    BlockEnds(HoleSlot(z.c.up), x);
  }

  lemma BlockEnds(s: Slot, x: nat)
    requires InBlock(s, x)
    ensures s.cls >= 0 && x < s.addr + Pow2(s.cls)
  {
  }

  lemma SibPage(z: Zip) returns (x: nat)
    requires ZInv(z) && z.c.Down? && IsFree(z.t) && IsFree(z.c.sib)
    ensures CInv(z.c.up) && InBlock(HoleSlot(z.c.up), x)
    ensures TypeAt(Fill(z.c.right, z.c.i, z.c.sib, z.t), x) == z.c.sib.i.st
    ensures z.c.sib.i.st != z.c.i.st ==> z.c.i.st == Partial
  {
    x := z.c.sib.i.addr;
  }

  /** A merge of two buddies of one state changes no type. */
  lemma EvenMerge(z: Zip, y: Zip)
    requires ZInv(z) && z.c.Down? && IsFree(z.t) && IsFree(z.c.sib) && z.c.i.st == z.t.i.st == z.c.sib.i.st
    requires y == Zip(z.c.up, Leaf(z.c.i.(listed := z.c.i.st == Allocatable)))
    ensures SameTypes(Whole(z), Whole(y))
  {
    hide Plug;
    PlugUp(z);
    var y' := MergeStep(z);
    var f := Fill(z.c.right, z.c.i, z.c.sib, z.t);
    forall a: nat ensures TypeAt(f, a) == TypeAt(y.t, a) {
    }
    SameTypesPlug(z.c.up, f, y.t);
  }

  lemma PlugUp(z: Zip)
    requires z.c.Down?
    ensures Whole(z) == Plug(z.c.up, Fill(z.c.right, z.c.i, z.c.sib, z.t))
  {
  }

  lemma {:induction false} MergeLoses(z: Zip) returns (x: nat)
    requires ZInv(z) && IsFree(z.t) && LossyUp(z.c, z.t.i.st)
    ensures x < Pow2(MAX_CLASS)
    ensures TypeAt(Whole(z), x) != Partial && TypeAt(Whole(Merge(z)), x) == Partial
    decreases z.c
  {
    hide Inv, CInv, Plug, InBlock, Merge, TypeAt;
    var y := MergeStep(z);
    if z.c.sib.i.st != z.c.i.st {
      x := SibType(z);
      MergeStaysLost(y, x);
    } else {
      EvenMerge(z, y);
      x := MergeLoses(y);
    }
  }

  lemma ReleasedFrees(t: Tree, s: Slot, t1: Tree)
    requires t.Node? && Inv(t, s) && t.i.held > 0 && t1 == Release(t)
    ensures Frees(t1) <==> IsFree(UnrefSub(t1))
    ensures UnrefSub(t1).Node? && UnrefSub(t1).i.st == t.i.st
  {
    if t1.i.refc == 1 {
      FreesIff(t1.l, KidSlot(t1.i, false));
      FreesIff(t1.r, KidSlot(t1.i, true));
    }
  }

  /** Without a lossy merge below, releasing the subtree keeps all types. */
  lemma BelowSame(z: Zip, t1: Tree, u: Tree)
    requires ZInv(z) && z.t.i.held > 0 && t1 == Release(z.t) && u == UnrefSub(t1)
    requires !LossySub(t1)
    ensures SameTypes(Whole(z), Plug(z.c, u)) && ZInv(Zip(z.c, u))
  {
    var s := HoleSlot(z.c);
    ReleaseInv(z.t, s);
    if !s.ref {
      UnrefSubKeepsTypes(t1, s.(ref := true));
    }
    forall x: nat ensures TypeAt(z.t, x) == TypeAt(u, x) {
      assert TypeAt(t1, x) == TypeAt(u, x);
    }
    SameTypesPlug(z.c, z.t, u);
  }

  lemma UnrefSame(z: Zip, t1: Tree, u: Tree)
    requires ZInv(z) && z.t.i.held > 0 && t1 == Release(z.t) && u == UnrefSub(t1)
    requires !Lossy(Zip(z.c, t1))
    ensures SameTypes(Whole(z), Whole(Merge(Zip(z.c, u))))
  {
    BelowSame(z, t1, u);
    ReleasedFrees(z.t, HoleSlot(z.c), t1);
    MergeKeepsTypes(Zip(z.c, u));
    var v, w := Plug(z.c, u), Whole(Merge(Zip(z.c, u)));
    forall x: nat ensures TypeAt(Whole(z), x) == TypeAt(w, x) {
      assert TypeAt(Whole(z), x) == TypeAt(v, x);
    }
  }

  /** A loss below needs the node's last reference, so its parent is not referenced. */
  lemma ReleasedInv(t: Tree, s: Slot, t1: Tree)
    requires t.Node? && Inv(t, s) && t.i.held > 0 && t1 == Release(t) && LossySub(t1)
    ensures Inv(t1, s.(ref := true)) && SameTypes(t, t1) && UnrefSub(t1).Node?
  {
  }

  lemma BelowDiffers(z: Zip, t1: Tree, u: Tree) returns (x: nat)
    requires ZInv(z) && z.t.i.held > 0 && t1 == Release(z.t) && u == UnrefSub(t1)
    requires LossySub(t1)
    ensures x < Pow2(MAX_CLASS) && TypeAt(Whole(Merge(Zip(z.c, u))), x) != TypeAt(Whole(z), x)
  {
    hide Inv, CInv, Merge, LossySub, UnrefSub, Plug, Pow2, Aligned;
    var s := HoleSlot(z.c);
    ReleaseInv(z.t, s);
    HoleAligned(z.c);
    ReleasedInv(z.t, s, t1);
    x := UnrefSubLoses(t1, s.(ref := true));
    PlugIn(z.c, z.t, x);
    MergeStaysLost(Zip(z.c, u), x);
  }

  lemma UnrefDiffers(z: Zip, t1: Tree, u: Tree) returns (x: nat)
    requires ZInv(z) && z.t.i.held > 0 && t1 == Release(z.t) && u == UnrefSub(t1)
    requires Lossy(Zip(z.c, t1))
    ensures x < Pow2(MAX_CLASS) && TypeAt(Whole(Merge(Zip(z.c, u))), x) != TypeAt(Whole(z), x)
  {
    if LossySub(t1) {
      x := BelowDiffers(z, t1, u);
    } else {
      BelowSame(z, t1, u);
      ReleasedFrees(z.t, HoleSlot(z.c), t1);
      x := MergeLoses(Zip(z.c, u));
      assert TypeAt(Whole(z), x) == TypeAt(Plug(z.c, u), x);
    }
  }

  /** page_unref of a held node leaves the type of every page as it was if and only if no
      merge it makes is lossy. */
  lemma UnrefKeepsTypes(z: Zip)
    requires ZInv(z) && z.t.i.held > 0
    ensures var y := Zip(z.c, Release(z.t));
      (forall x: nat :: x < Pow2(MAX_CLASS) ==> TypeAt(Whole(Unref(y)), x) == TypeAt(Whole(z), x)) <==> !Lossy(y)
  {
    var t1 := Release(z.t);
    if Lossy(Zip(z.c, t1)) {
      var x := UnrefDiffers(z, t1, UnrefSub(t1));
    } else {
      UnrefSame(z, t1, UnrefSub(t1));
    }
  }

  lemma {:induction false} TypedSubNotLossy(t: Tree, s: Slot)
    requires Inv(t, s) && s.ref && s.st != Partial
    ensures !LossySub(t)
    decreases t
  {
    if t.Node? && t.i.refc == 1 {
      TypedSubNotLossy(t.l, KidSlot(t.i, false));
      TypedSubNotLossy(t.r, KidSlot(t.i, true));
      UnrefSubInv(t.l, KidSlot(t.i, false));
    }
  }

  lemma {:induction false} TypedUpNotLossy(c: Ctx, st: State)
    requires CInv(c) && st != Partial
    ensures !LossyUp(c, st)
    decreases c
  {
    if c.Down? {
      TypedUpNotLossy(c.up, st);
    }
  }

  lemma TypedNotLossy(z: Zip)
    requires ZInv(z) && z.t.i.held > 0 && z.t.i.st != Partial
    ensures !Lossy(Zip(z.c, Release(z.t)))
  {
    var s := HoleSlot(z.c);
    var t1 := Release(z.t);
    ReleaseInv(z.t, s);
    if t1.i.refc == 1 {
      TypedSubNotLossy(t1.l, KidSlot(t1.i, false));
      TypedSubNotLossy(t1.r, KidSlot(t1.i, true));
      UnrefSubInv(t1.l, KidSlot(t1.i, false));
    }
    TypedUpNotLossy(z.c, t1.i.st);
  }

  /** In particular every release of Allocatable or Reserved memory keeps all types. */
  lemma TypedUnrefKeepsTypes(z: Zip, x: nat)
    requires ZInv(z) && z.t.i.held > 0 && z.t.i.st != Partial && x < Pow2(MAX_CLASS)
    ensures TypeAt(Whole(Unref(Zip(z.c, Release(z.t)))), x) == TypeAt(Whole(z), x)
  {
    TypedNotLossy(z);
    UnrefKeepsTypes(z);
  }

  /** Releasing the untyped upper half of a block whose lower half is free Allocatable
      memory loses that memory: it is on no list and has no type afterwards. */
  lemma LossExample()
    ensures var low := Leaf(Info(Boot(0), Allocatable, 0, 47, 0, true, 0, false));
      var high := Leaf(Info(Boot(1), Partial, 1, 47, Pow2(47), false, 1, false));
      var top := Info(Root, Partial, 0, 48, 0, false, 0, false);
      var z := Zip(Down(top, true, low, Top), high);
      var w := Whole(Unref(Zip(z.c, Release(z.t))));
      ZInv(z) && TypeAt(Whole(z), 0) == Allocatable && w == Leaf(top)
  {
    hide LossySub, Pow2;
  }
}
