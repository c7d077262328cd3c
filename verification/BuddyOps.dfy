/**
 page_ref, page_unref, and the descent of page_lookup as functions on the tree, and what
 each of them keeps.
 */
module BuddyOps {
  import opened Arith
  import opened BuddyTree

  function Leaf(i: Info): (t: Tree) {
    Node(i, Nil, Nil)
  }

  /** Puts the on-a-list flag of a node right and leaves the rest alone. */
  function Relist(t: Tree): (u: Tree)
    requires t.Node?
  {
    t.(i := t.i.(listed := t.i.st == Allocatable && IsFree(t)))
  }

  // ------------------------------------------------------------ page_ref

  function RefSub(t: Tree): (u: Tree) {
    if t.Nil? then Nil
    else if t.i.refc == 0 then Node(t.i.(refc := 1, listed := false), RefSub(t.l), RefSub(t.r))
    else t.(i := t.i.(refc := t.i.refc + 1))
  }

  /** Notes who took the reference that page_ref has just counted. */
  function Hold(t: Tree, pool: bool): (u: Tree)
    requires t.Node?
  {
    t.(i := if pool then t.i.(pool := true) else t.i.(held := t.i.held + 1))
  }

  lemma {:induction false} RefSubInv(t: Tree, s: Slot)
    requires Inv(t, s) && !s.ref
    ensures Inv(RefSub(t), s.(ref := true))
    decreases t
  {
    if t.Node? && t.i.refc == 0 {
      RefSubInv(t.l, KidSlot(t.i, false));
      RefSubInv(t.r, KidSlot(t.i, true));
    }
  }

  /** Taking a direct reference keeps the invariant, whether or not the parent is
      referenced and whether or not the node is still on its list. */
  lemma RefInv(t: Tree, s: Slot, pool: bool)
    requires t.Node? && Inv(Relist(t), s) && (pool ==> !t.i.pool)
    requires t.i.listed ==> t.i.refc == 0
    ensures Inv(Hold(RefSub(t), pool), s)
  {
    if t.i.refc == 0 {
      RefSubInv(t.l, KidSlot(t.i, false));
      RefSubInv(t.r, KidSlot(t.i, true));
    }
  }

  lemma {:induction false} RefSubFacts(t: Tree)
    ensures Ids(RefSub(t)) == Ids(t)
    ensures Dist(t) ==> Dist(RefSub(t))
    ensures SameTypes(t, RefSub(t))
    decreases t
  {
    if t.Node? {
      RefSubFacts(t.l);
      RefSubFacts(t.r);
    }
  }

  lemma {:induction false} RefSubHolds(t: Tree, c: nat, a: nat)
    ensures Holds(RefSub(t), c, a) == Holds(t, c, a) && Pools(RefSub(t), a) == Pools(t, a)
    decreases t
  {
    if t.Node? {
      RefSubHolds(t.l, c, a);
      RefSubHolds(t.r, c, a);
    }
  }

  // ------------------------------------------------------------ page_unref

  /** Whether releasing the second child merges the pair: the loop compares the parent's
      state with the state of the child just released, and only asks of the other child
      that it is free. */
  predicate Merges(i: Info, l: Tree, r: Tree) {
    IsFree(l) && IsFree(r) && i.st == r.i.st
  }

  function UnrefSub(t: Tree): (u: Tree) {
    if t.Nil? then Nil
    else if t.i.refc == 1 then
      var l, r := UnrefSub(t.l), UnrefSub(t.r);
      var i := t.i.(refc := 0);
      if Merges(i, l, r) then Relist(Leaf(i)) else Relist(Node(i, l, r))
    else t.(i := t.i.(refc := if t.i.refc == 0 then 0 else t.i.refc - 1))
  }

  /** The merge loop: climb while the parent has the node's state and both children are
      free. */
  function Merge(z: Zip): (r: Zip)
    decreases z.c
  {
    if z.c.Down? && IsFree(z.t) && IsFree(z.c.sib) && z.c.i.st == z.t.i.st
    then Merge(Zip(z.c.up, Leaf(z.c.i.(listed := z.c.i.st == Allocatable))))
    else z
  }

  /** page_unref of a node: release it and everything below that its count held, then
      merge upwards if it became free. */
  function Unref(z: Zip): (r: Zip) {
    Merge(Zip(z.c, UnrefSub(z.t)))
  }

  function Release(t: Tree): (u: Tree)
    requires t.Node? && t.i.held > 0
  {
    t.(i := t.i.(held := t.i.held - 1))
  }

  lemma {:induction false} UnrefSubInv(t: Tree, s: Slot)
    requires Inv(t, s) && s.ref
    ensures Inv(UnrefSub(t), s.(ref := false))
    decreases t
  {
    hide Pow2;
    if t.Node? && t.i.refc == 1 {
      UnrefSubInv(t.l, KidSlot(t.i, false));
      UnrefSubInv(t.r, KidSlot(t.i, true));
    }
  }

  lemma ReleaseInv(t: Tree, s: Slot)
    requires t.Node? && Inv(t, s) && t.i.held > 0
    ensures Inv(UnrefSub(Release(t)), s)
  {
    if !s.ref {
      UnrefSubInv(Release(t), s.(ref := true));
    }
  }

  /** One merge: the parent takes the place of two free buddies that nobody holds. */
  lemma MergeStep(z: Zip) returns (y: Zip)
    requires ZInv(z) && z.c.Down? && IsFree(z.t) && IsFree(z.c.sib) && z.c.i.st == z.t.i.st
    ensures y == Zip(z.c.up, Leaf(z.c.i.(listed := z.c.i.st == Allocatable)))
    ensures ZInv(y) && IsFree(y.t) && HoleSlot(y.c).cls == z.c.i.cls > 0 && HoleSlot(y.c).addr == z.c.i.addr
    ensures Direct(z.t.i) == 0 && Direct(z.c.sib.i) == 0 && Merge(z) == Merge(y)
  {
    y := Zip(z.c.up, Leaf(z.c.i.(listed := z.c.i.st == Allocatable)));
  }

  lemma {:induction false} MergeInv(z: Zip)
    requires ZInv(z)
    ensures ZInv(Merge(z))
    decreases z.c
  {
    if z.c.Down? && IsFree(z.t) && IsFree(z.c.sib) && z.c.i.st == z.t.i.st {
      var y := MergeStep(z);
      MergeInv(y);
    }
  }

  /** Descriptors are only ever given back, never taken, and no two nodes come to share
      one. */
  lemma {:induction false} UnrefSubFacts(t: Tree)
    ensures Ids(UnrefSub(t)) <= Ids(t)
    ensures Dist(t) ==> Dist(UnrefSub(t))
    decreases t
  {
    if t.Node? {
      UnrefSubFacts(t.l);
      UnrefSubFacts(t.r);
    }
  }

  lemma {:induction false} MergeFacts(z: Zip)
    ensures Ids(Whole(Merge(z))) <= Ids(Whole(z))
    ensures ZDist(z) ==> ZDist(Merge(z))
    decreases z.c
  {
    if z.c.Down? && IsFree(z.t) && IsFree(z.c.sib) && z.c.i.st == z.t.i.st {
      var y := Zip(z.c.up, Leaf(z.c.i.(listed := z.c.i.st == Allocatable)));
      MergeFacts(y);
      IdsPlug(z.c, z.t);
      IdsPlug(y.c, y.t);
    }
  }

  /** Merging discards no reference: a free node has none. */
  lemma {:induction false} UnrefSubHolds(t: Tree, s: Slot, c: nat, a: nat)
    requires Inv(t, s) && s.ref
    ensures Holds(UnrefSub(t), c, a) == Holds(t, c, a) && Pools(UnrefSub(t), a) == Pools(t, a)
    decreases t
  {
    hide Pow2;
    if t.Node? && t.i.refc == 1 {
      var ls, rs := KidSlot(t.i, false), KidSlot(t.i, true);
      UnrefSubHolds(t.l, ls, c, a);
      UnrefSubHolds(t.r, rs, c, a);
      UnrefSubInv(t.l, ls);
      UnrefSubInv(t.r, rs);
    }
  }

  lemma {:induction false} MergeHolds(z: Zip, c: nat, a: nat)
    requires ZInv(z)
    ensures Holds(Whole(Merge(z)), c, a) == Holds(Whole(z), c, a)
    ensures Pools(Whole(Merge(z)), a) == Pools(Whole(z), a)
    decreases z.c
  {
    hide Inv, CInv, Plug, InfoOk;
    if z.c.Down? && IsFree(z.t) && IsFree(z.c.sib) && z.c.i.st == z.t.i.st {
      var y := MergeStep(z);
      HoldsPlug(z.c, z.t, c, a);
      HoldsPlug(y.c, y.t, c, a);
      PoolsPlug(z.c, z.t, a);
      PoolsPlug(y.c, y.t, a);
      MergeHolds(y, c, a);
    }
  }

  /** page_unref on a held reference: the invariant returns although it was broken on the
      way, no descriptor is shared or invented. */
  lemma UnrefInv(z: Zip)
    requires ZInv(z) && z.t.i.held > 0
    ensures ZInv(Unref(Zip(z.c, Release(z.t))))
    ensures var w := Whole(Unref(Zip(z.c, Release(z.t))));
      Inv(w, RootSlot) && Ids(w) <= Ids(Whole(z)) && (Dist(Whole(z)) ==> Dist(w))
  {
    var t1 := Release(z.t);
    var u := UnrefSub(t1);
    ReleaseInv(z.t, HoleSlot(z.c));
    MergeInv(Zip(z.c, u));
    var m := Merge(Zip(z.c, u));
    InvPlug(m.c, m.t);
    UnrefSubFacts(t1);
    MergeFacts(Zip(z.c, u));
    IdsPlug(z.c, u);
    IdsPlug(z.c, z.t);
    DistPlug(z.c, z.t);
    DistPlug(m.c, m.t);
  }

  /** ... and exactly the one reference is gone. */
  lemma UnrefHolds(z: Zip, c: nat, a: nat)
    requires ZInv(z) && z.t.i.held > 0
    ensures var w := Whole(Unref(Zip(z.c, Release(z.t))));
      && Holds(w, c, a) == Holds(Whole(z), c, a) - (if (c, a) == (z.t.i.cls, z.t.i.addr) then 1 else 0)
      && Pools(w, a) == Pools(Whole(z), a)
  {
    hide CInv, Merge, Plug, CHolds, CPools, HoleSlot;
    var s := HoleSlot(z.c);
    var t1 := Release(z.t);
    var u := UnrefSub(t1);
    ReleaseInv(z.t, s);
    if !s.ref {
      UnrefSubHolds(t1, s.(ref := true), c, a);
    }
    MergeHolds(Zip(z.c, u), c, a);
    HoldsPlug(z.c, u, c, a);
    HoldsPlug(z.c, z.t, c, a);
    PoolsPlug(z.c, u, a);
    PoolsPlug(z.c, z.t, a);
  }

  // ------------------------------------------------------------ page_unref, step by step

  /** A node of count 1 after its children have been released: the second release may
      already have merged them, and then the node is on a free list with its count still
      1. */
  function Mid(t: Tree): (u: Tree)
    requires t.Node?
  {
    var l, r := UnrefSub(t.l), UnrefSub(t.r);
    if Merges(t.i, l, r) then Leaf(t.i.(listed := t.i.st == Allocatable)) else Node(t.i, l, r)
  }

  lemma UnrefLeft(c: Ctx, i: Info, l: Tree, r: Tree)
    requires !IsFree(r)
    ensures Unref(Zip(Down(i, false, r, c), l)) == Zip(Down(i, false, r, c), UnrefSub(l))
  {
  }

  /** The mid-call state after the right child: either the merge moved the focus up to the
      node itself, or it stayed below. */
  lemma UnrefRight(c: Ctx, i: Info, l: Tree, r: Tree)
    requires i.refc > 0 && r.Node?
    ensures var u := Unref(Zip(Down(i, true, UnrefSub(l), c), r));
      if Merges(i, UnrefSub(l), UnrefSub(r)) then u == Zip(c, Mid(Node(i, l, r)))
      else
        && u == Zip(Down(i, true, UnrefSub(l), c), UnrefSub(r))
        && Mid(Node(i, l, r)) == Node(i, UnrefSub(l), UnrefSub(r))
  {
    var j := Leaf(i.(listed := i.st == Allocatable));
    assert Merge(Zip(c, j)) == Zip(c, j);
  }

  lemma UnrefSubNode(t: Tree)
    ensures UnrefSub(t).Node? <==> t.Node?
    ensures t.Node? ==> UnrefSub(t).i.p == t.i.p
  {
  }

  /** How the list update after the merge loop leaves a node. */
  function Flag(t: Tree): (u: Tree)
    requires t.Node?
  {
    t.(i := t.i.(listed := t.i.st == Allocatable))
  }

  /** What page_unref does after its recursive calls, t being the node then and u the node
      with its count lowered. */
  lemma UnrefEnd(z: Zip, t: Tree, u: Tree)
    requires z.t.Node? && z.t.i.refc > 0 && (z.t.l.Node? <==> z.t.r.Node?)
    requires z.t.i.listed ==> z.t.i.refc == 0
    requires t == if z.t.i.refc == 1 then Mid(z.t) else z.t
    requires u == t.(i := t.i.(refc := t.i.refc - 1))
    ensures IsFree(u) ==> Unref(z) == Merge(Zip(z.c, Flag(u)))
    ensures !IsFree(u) ==> Unref(z) == Zip(z.c, u)
    ensures u.Node? && u.i.p == z.t.i.p && u.i.st == z.t.i.st && u.i.cls == z.t.i.cls
  {
  }
}
