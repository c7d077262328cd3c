/**
 The physical memory tree as a value: what struct Page records say, read off as an
 inductive tree, and a zipper (the path of ancestors above one node) that follows the
 loops which walk down from a node or up to its parent.
 */
module BuddyTree {
  import opened Arith

  const MAX_CLASS: nat := 48

  datatype State = Partial | Allocatable | Reserved

  /** Addresses of struct List / struct Page objects: the list heads, the root, the
      statically allocated descriptors, and the descriptors of a pool page. */
  datatype Ptr =
    | Null
    | ClassHead(c: nat)
    | DescHead
    | Root
    | Boot(i: nat)
    | Pooled(page: nat, k: nat)

  /** One node. `held` counts the references clients took directly on this node and
      `pool` says that the allocator itself took one for a descriptor pool; neither is a
      field of struct Page. Addresses are in units of the smallest page. */
  datatype Info = Info(
    p: Ptr, st: State, refc: nat, cls: nat, addr: nat,
    listed: bool, held: nat, pool: bool)

  datatype Tree = Nil | Node(i: Info, l: Tree, r: Tree)

  /** The ancestors of a node, nearest first, with the subtree each of them has on the
      other side. */
  datatype Ctx = Top | Down(i: Info, right: bool, sib: Tree, up: Ctx)

  datatype Zip = Zip(c: Ctx, t: Tree)

  /** What its parent says about a node: the parent's state, whether the parent is
      referenced, and which block the node must be. */
  datatype Slot = Slot(st: State, ref: bool, cls: int, addr: nat)

  const RootSlot := Slot(Partial, false, MAX_CLASS, 0)

  function Half(c: nat): (r: nat) {
    if c > 0 then Pow2(c - 1) else 0
  }

  function KidSlot(i: Info, right: bool): (s: Slot) {
    Slot(i.st, i.refc > 0, i.cls - 1, if right then i.addr + Half(i.cls) else i.addr)
  }

  function HoleSlot(c: Ctx): (s: Slot) {
    if c.Top? then RootSlot else KidSlot(c.i, c.right)
  }

  function Fill(right: bool, i: Info, sib: Tree, t: Tree): (r: Tree) {
    if right then Node(i, sib, t) else Node(i, t, sib)
  }

  function Plug(c: Ctx, t: Tree): (r: Tree)
    decreases c
  {
    match c
    case Top => t
    case Down(i, right, sib, up) => Plug(up, Fill(right, i, sib, t))
  }

  function Whole(z: Zip): (r: Tree) {
    Plug(z.c, z.t)
  }

  predicate IsLeaf(t: Tree) {
    t.Node? && t.l.Nil? && t.r.Nil?
  }

  /** PAGE_IS_FREE. */
  predicate IsFree(t: Tree) {
    IsLeaf(t) && t.i.refc == 0
  }

  function Direct(i: Info): (n: nat) {
    i.held + (if i.pool then 1 else 0)
  }

  predicate InfoOk(i: Info, s: Slot) {
    && i.cls == s.cls && i.addr == s.addr
    && (s.st != Partial ==> i.st == s.st)
    && i.refc == Direct(i) + (if s.ref then 1 else 0)
  }

  /** The allocator's invariant on a subtree: both children or none, each one exact half
      one class down; Allocatable and Reserved subtrees uniform; a node's count is its
      direct references plus one exactly when its parent is referenced; and a node is on
      a free list exactly when it is an unreferenced Allocatable leaf. */
  predicate Inv(t: Tree, s: Slot) {
    t.Node? ==>
      && InfoOk(t.i, s)
      && (t.i.listed <==> t.i.st == Allocatable && IsFree(t))
      && (t.l.Node? <==> t.r.Node?)
      && (t.l.Node? ==> t.i.cls > 0)
      && Inv(t.l, KidSlot(t.i, false))
      && Inv(t.r, KidSlot(t.i, true))
  }

  predicate CInv(c: Ctx) {
    c.Down? ==>
      && c.i.cls > 0 && !c.i.listed
      && InfoOk(c.i, HoleSlot(c.up))
      && c.sib.Node? && Inv(c.sib, KidSlot(c.i, !c.right))
      && CInv(c.up)
  }

  predicate ZInv(z: Zip) {
    z.t.Node? && CInv(z.c) && Inv(z.t, HoleSlot(z.c))
  }

  lemma {:induction false} InvPlug(c: Ctx, t: Tree)
    requires t.Node?
    ensures Inv(Plug(c, t), RootSlot) <==> CInv(c) && Inv(t, HoleSlot(c))
    decreases c
  {
    if c.Down? {
      InvPlug(c.up, Fill(c.right, c.i, c.sib, t));
    }
  }

  function Height(t: Tree): (n: nat) {
    if t.Nil? then 0 else 1 + (if Height(t.l) > Height(t.r) then Height(t.l) else Height(t.r))
  }

  // ------------------------------------------------------------ descriptors

  function Ids(t: Tree): (s: set<Ptr>) {
    if t.Nil? then {} else {t.i.p} + Ids(t.l) + Ids(t.r)
  }

  /** No descriptor is used for two nodes. */
  predicate Dist(t: Tree) {
    t.Node? ==>
      && t.i.p !in Ids(t.l) && t.i.p !in Ids(t.r) && Ids(t.l) !! Ids(t.r)
      && Dist(t.l) && Dist(t.r)
  }

  function CIds(c: Ctx): (s: set<Ptr>) {
    if c.Top? then {} else {c.i.p} + Ids(c.sib) + CIds(c.up)
  }

  predicate CDist(c: Ctx) {
    c.Down? ==>
      && c.i.p !in Ids(c.sib) && c.i.p !in CIds(c.up) && Ids(c.sib) !! CIds(c.up)
      && Dist(c.sib) && CDist(c.up)
  }

  predicate ZDist(z: Zip) {
    CDist(z.c) && Dist(z.t) && CIds(z.c) !! Ids(z.t)
  }

  lemma {:induction false} IdsPlug(c: Ctx, t: Tree)
    ensures Ids(Plug(c, t)) == CIds(c) + Ids(t)
    decreases c
  {
    if c.Down? {
      IdsPlug(c.up, Fill(c.right, c.i, c.sib, t));
    }
  }

  lemma {:induction false} DistPlug(c: Ctx, t: Tree)
    ensures Dist(Plug(c, t)) <==> ZDist(Zip(c, t))
    decreases c
  {
    if c.Down? {
      var f := Fill(c.right, c.i, c.sib, t);
      DistPlug(c.up, f);
      assert Ids(f) == {c.i.p} + Ids(c.sib) + Ids(t);
      assert Dist(f) <==> c.i.p !in Ids(c.sib) && c.i.p !in Ids(t) && Ids(c.sib) !! Ids(t) && Dist(c.sib) && Dist(t);
    }
  }

  /** Every node of a tree has a zipper. */
  lemma {:induction false} FocusById(c: Ctx, t: Tree, p: Ptr) returns (z: Zip)
    requires p in Ids(t)
    ensures Whole(z) == Plug(c, t)
    ensures z.t.Node? && z.t.i.p == p
    decreases t
  {
    if t.i.p == p {
      z := Zip(c, t);
    } else if p in Ids(t.l) {
      z := FocusById(Down(t.i, false, t.r, c), t.l, p);
    } else {
      z := FocusById(Down(t.i, true, t.l, c), t.r, p);
    }
  }

  // ------------------------------------------------------------ references

  /** How many references clients hold on the block of class c at address a. */
  function Own(i: Info, c: nat, a: nat): (n: nat) {
    if i.cls == c && i.addr == a then i.held else 0
  }

  function Holds(t: Tree, c: nat, a: nat): (n: nat) {
    if t.Nil? then 0 else Own(t.i, c, a) + Holds(t.l, c, a) + Holds(t.r, c, a)
  }

  function CHolds(z: Ctx, c: nat, a: nat): (n: nat) {
    if z.Top? then 0 else Own(z.i, c, a) + Holds(z.sib, c, a) + CHolds(z.up, c, a)
  }

  lemma {:induction false} HoldsPlug(z: Ctx, t: Tree, c: nat, a: nat)
    ensures Holds(Plug(z, t), c, a) == CHolds(z, c, a) + Holds(t, c, a)
    decreases z
  {
    if z.Down? {
      HoldsPlug(z.up, Fill(z.right, z.i, z.sib, t), c, a);
    }
  }

  /** How many nodes the allocator keeps at address a for its own descriptors. */
  function PoolOwn(i: Info, a: nat): (n: nat) {
    if i.pool && i.addr == a then 1 else 0
  }

  function Pools(t: Tree, a: nat): (n: nat) {
    if t.Nil? then 0 else PoolOwn(t.i, a) + Pools(t.l, a) + Pools(t.r, a)
  }

  function CPools(z: Ctx, a: nat): (n: nat) {
    if z.Top? then 0 else PoolOwn(z.i, a) + Pools(z.sib, a) + CPools(z.up, a)
  }

  lemma {:induction false} PoolsPlug(z: Ctx, t: Tree, a: nat)
    ensures Pools(Plug(z, t), a) == CPools(z, a) + Pools(t, a)
    decreases z
  {
    if z.Down? {
      PoolsPlug(z.up, Fill(z.right, z.i, z.sib, t), a);
    }
  }

  // ------------------------------------------------------------ memory types

  /** The type of one page: the state of the leaf that covers it. */
  function TypeAt(t: Tree, a: nat): (st: State) {
    if t.Nil? then Partial
    else if t.l.Nil? || t.r.Nil? then t.i.st
    else if a < t.r.i.addr then TypeAt(t.l, a)
    else TypeAt(t.r, a)
  }

  ghost predicate SameTypes(t: Tree, u: Tree) {
    forall a: nat :: TypeAt(t, a) == TypeAt(u, a)
  }

  lemma {:induction false} SameTypesPlug(c: Ctx, t: Tree, u: Tree)
    requires t.Node? && u.Node? && t.i.addr == u.i.addr && SameTypes(t, u)
    requires c.Down? ==> c.sib.Node?
    requires CInv(c)
    ensures SameTypes(Plug(c, t), Plug(c, u))
    decreases c
  {
    if c.Down? {
      var f, g := Fill(c.right, c.i, c.sib, t), Fill(c.right, c.i, c.sib, u);
      forall a: nat ensures TypeAt(f, a) == TypeAt(g, a) {
        assert TypeAt(t, a) == TypeAt(u, a);
      }
      SameTypesPlug(c.up, f, g);
    }
  }
}
