/**
 A run on which ensure_free_desc finds memory for a pool and is still left with too few
 descriptors: five blocks attached to a new allocator.
 */
module BuddyShort {
  import opened Arith
  import opened BuddyTree
  import opened BuddyOps
  import opened BuddyLookup
  import opened BuddyTypes
  import opened BuddyOrder
  import opened BuddyPool
  import opened BuddyRep
  import opened BuddySteps
  import opened Buddy
  import opened Lists

  function Size(t: Tree): (n: nat) {
    if t.Nil? then 0 else 1 + Size(t.l) + Size(t.r)
  }

  lemma {:induction false} SizeIds(t: Tree)
    requires Dist(t)
    ensures |Ids(t)| == Size(t)
    decreases t
  {
    if t.Node? {
      SizeIds(t.l);
      SizeIds(t.r);
    }
  }

  /** Nothing in t is referenced or Allocatable. */
  predicate Plain(t: Tree) {
    t.Node? ==> t.i.refc == 0 && t.i.st != Allocatable && Plain(t.l) && Plain(t.r)
  }

  /** Going right d times leads to a leaf. */
  predicate RightEnd(t: Tree, d: nat)
    decreases d
  {
    if d == 0 then IsLeaf(t) && Plain(t)
    else t.Node? && t.l.Node? && t.r.Node? && t.r.i.cls == t.i.cls - 1 && RightEnd(t.r, d - 1)
  }

  /** The d highest bits an address is tested for, from class c on, are set. */
  predicate Ones(a: nat, c: nat, d: nat)
    decreases d
  {
    d > 0 ==> c > 0 && Bit(a, c - 1) && Ones(a, c - 1, d - 1)
  }

  /** Attaching a block in a leaf splits it level by level. */
  lemma {:induction false} LeafAttach(t: Tree, n: nat, a: nat, ids: seq<Ptr>) returns (u: Tree)
    requires IsLeaf(t) && Plain(t) && n <= t.i.cls && |ids| >= 2 * n
    ensures u == AttachIn(t, n, a, Reserved, ids) && u.Node? && u.i.cls == t.i.cls
    ensures Plain(u) && Size(u) == 1 + 2 * n
    ensures n > 0 && !Bit(a, t.i.cls - 1) ==> RightEnd(u, 1)
    decreases n
  {
    hide Bit;
    u := AttachIn(t, n, a, Reserved, ids);
    if n > 0 {
      var s := Step(Zip(Top, t), a, Reserved, ids);
      var v := LeafAttach(s.t, n - 1, a, Rest(t, ids));
      assert Size(s.c.sib) == 1 && Plain(s.c.sib);
    }
  }

  /** Attaching a block below the leaf that going right leads to. */
  lemma {:induction false} RightAttach(t: Tree, d: nat, n: nat, a: nat, ids: seq<Ptr>) returns (u: Tree)
    requires t.Node? && RightEnd(t, d) && d < n <= t.i.cls && Ones(a, t.i.cls, d) && |ids| >= 2 * n
    requires !Bit(a, t.i.cls - d - 1)
    ensures u == AttachIn(t, n, a, Reserved, ids) && u.Node? && u.i.cls == t.i.cls
    ensures RightEnd(u, d + 1) && Size(u) == Size(t) + 2 * (n - d)
    ensures Plain(t) ==> Plain(u)
    ensures d > 0 ==> u.l == t.l && (Plain(t.r) ==> Plain(u.r)) && (t.i.refc == 0 ==> u.i.refc == 0)
    decreases d
  {
    hide Bit, Pow2, Size, Plain, AttachIn;
    if d == 0 {
      u := LeafAttach(t, n, a, ids);
      LeafSize(t);
    } else {
      var v := RightAttach(t.r, d - 1, n - 1, a, ids);
      u := RightTurn(t, n, a, ids);
      RightSize(t, u);
    }
  }

  lemma LeafSize(t: Tree)
    requires IsLeaf(t)
    ensures Size(t) == 1
  {
    assert Size(t.l) == 0 && Size(t.r) == 0;
  }

  /** One turn to the right. */
  lemma RightTurn(t: Tree, n: nat, a: nat, ids: seq<Ptr>) returns (u: Tree)
    requires t.Node? && t.l.Node? && t.r.Node? && 0 < n <= t.i.cls && Bit(a, t.i.cls - 1) && |ids| >= 2 * n
    ensures u == AttachIn(t, n, a, Reserved, ids)
    ensures u == Node(t.i.(st := PathState(t.i.st, Reserved)), t.l, AttachIn(t.r, n - 1, a, Reserved, ids))
  {
    hide Bit, Pow2;
    u := AttachIn(t, n, a, Reserved, ids);
  }

  lemma RightSize(t: Tree, u: Tree)
    requires t.Node? && u.Node? && u.l == t.l && u.i == t.i.(st := PathState(t.i.st, Reserved))
    ensures Size(u) - Size(u.r) == Size(t) - Size(t.r)
    ensures Plain(t) && Plain(u.r) ==> Plain(u)
    ensures Plain(t) ==> Plain(t.r)
  {
  }

  lemma {:induction false} TargetFree(z: Zip, n: nat, a: nat, ty: State, ids: seq<Ptr>)
    requires NoRefs(z.t) && |ids| >= 2 * n
    ensures NoRefs(Lookup(z, n, a, ty, ids).t)
    decreases n
  {
    hide Bit;
    if n > 0 && z.t.Node? && z.t.i.cls > 0 {
      TargetFree(Step(z, a, ty, ids), n - 1, a, ty, Rest(z.t, ids));
    }
  }

  lemma {:induction false} PlainFacts(t: Tree, c: nat)
    requires Plain(t)
    ensures NoRefs(t) && FreeLeaves(t, c) == {}
    decreases t
  {
    if t.Node? {
      PlainFacts(t.l, c);
      PlainFacts(t.r, c);
    }
  }

  /** The lower half of the address space is one free Allocatable block, and the upper half
      is split along its right edge, d - 1 times. */
  predicate Stage(t: Tree, d: nat) {
    && t.Node? && t.i.refc == 0 && t.i.cls == MAX_CLASS && d > 0 && RightEnd(t, d)
    && t.l == Leaf(Info(t.l.i.p, Allocatable, 0, 47, 0, true, 0, false)) && Plain(t.r)
  }

  lemma StageFree(t: Tree, d: nat)
    requires Stage(t, d)
    ensures NoRefs(t)
  {
    PlainFacts(t.r, 0);
    assert NoRefs(t.l.l) && NoRefs(t.l.r);
  }

  lemma FirstStage(ids: seq<Ptr>) returns (u: Tree)
    requires |ids| >= 2
    ensures u == AttachBlock(Leaf(RootInfo), Block(47, 0, Allocatable), ids)
    ensures Stage(u, 1) && Size(u) == 3
  {
    var b, t := Block(47, 0, Allocatable), Leaf(RootInfo);
    u := AttachBlock(t, b, ids);
    AttachIsAttachIn(Zip(Top, t), 1, 0, Allocatable, ids);
    RootAligned();
    BitIsUpperHalf(0, MAX_CLASS, 0);
    var s := Step(Zip(Top, t), 0, Allocatable, ids);
    assert s.t == Fresh(RootInfo, false, ids[0]);
    assert AttachIn(s.t, 0, 0, Allocatable, ids[2..]) == Retype(s.t, Allocatable);
    var r := Fresh(RootInfo, true, ids[1]);
    assert u == Node(u.i, Retype(s.t, Allocatable), r);
    assert Plain(r) && RightEnd(r, 0) && Size(r) == 1 && Size(u.l) == 1;
  }

  lemma NextStage(t: Tree, b: Block, d: nat, ids: seq<Ptr>)
    requires Stage(t, d) && Placed(b) && b.ty == Reserved && d < Levels(b) && |ids| >= 2 * Levels(b)
    requires Ones(b.addr, MAX_CLASS, d) && !Bit(b.addr, MAX_CLASS - d - 1)
    ensures NoRefs(Target(t, b, ids))
    ensures Stage(AttachBlock(t, b, ids), d + 1) && Size(AttachBlock(t, b, ids)) == Size(t) + 2 * (Levels(b) - d)
  {
    hide Bit, Ones, Lookup, AttachIn;
    StageFree(t, d);
    TargetFree(Zip(Top, t), Levels(b), b.addr, b.ty, ids);
    AttachIsAttachIn(Zip(Top, t), Levels(b), b.addr, b.ty, ids);
    var u := RightAttach(t, d, Levels(b), b.addr, ids);
  }

  /** One more reserved block at the right edge. */
  method Spend(a: Allocator, b: Block, d: nat, ghost es: seq<Attempt>) returns (ghost fs: seq<Attempt>)
    requires Leads(Leaf(RootInfo), es, a.tree)
    requires a.Valid() && Stage(a.tree, d) && Placed(b) && b.ty == Reserved && d < Levels(b)
    requires Ones(b.addr, MAX_CLASS, d) && !Bit(b.addr, MAX_CLASS - d - 1)
    requires a.freeDescCount >= Allocator.Need(MAX_CLASS, b.cls)
    modifies a, a.links
    ensures a.Valid() && Stage(a.tree, d + 1) && a.all == old(a.all)
    ensures a.freeDescCount == old(a.freeDescCount) - 2 * (Levels(b) - d)
    ensures Leads(Leaf(RootInfo), fs, a.tree) && |fs| == |es| + 1
  {
    hide Ones, Bit, Aligned, Lookup, Pow2, RightEnd, AttachIn, RootInv, AttachBlock, Stage, Target, NoRefs, Size;
    hide Leads;
    hide a.Valid, a.Supplied, Refilled;
    ghost var t := a.tree;
    Counted(a);
    a.Enough(Allocator.Need(MAX_CLASS, b.cls));
    var ok;
    ghost var e;
    ok, e := a.AttachOne(b);
    NextStage(t, b, d, e.ids);
    Counted(a);
    LeadsOn(Leaf(RootInfo), es, t, e);
    fs := es + [e];
  }

  lemma Counted(a: Allocator)
    requires a.Valid()
    ensures a.freeDescCount == |a.all| - Size(a.tree)
  {
    hide Linked, Housed, Accounted;
    a.Settled();
    a.DescriptorsConserved();
    SizeIds(a.tree);
  }

  lemma StageLeaves(t: Tree, d: nat, c: nat)
    requires Stage(t, d)
    ensures FreeLeaves(t, c) == if c == 47 then {t.l.i.p} else {}
  {
    hide RightEnd;
    PlainFacts(t.r, c);
    assert FreeLeaves(t.l, c) == if c == 47 then {t.l.i.p} else {};
    assert t.i.st == Allocatable ==> !IsFree(t);
  }

  /** With fewer than 63 free descriptors one page more is one page too many: 98 are asked
      for, and a pool taken from a block of class 47 nets 35. */
  lemma TooFew(a: Allocator, d: nat)
    requires a.Valid() && Stage(a.tree, d) && a.freeDescCount < 63
    ensures a.Offers(47, Null) && !a.Supplied(Allocator.Need(MAX_CLASS, 0), Null)
  {
    hide Linked, Housed, Accounted, RightEnd, Plain, FreeLeaves, RootInv;
    var p := a.tree.l.i.p;
    a.Settled();
    a.ListedLeaves();
    forall c: nat, q | c < MAX_CLASS && a.OfClass(q, c) ensures c == 47 && q == p {
      StageLeaves(a.tree, d, c);
    }
    StageLeaves(a.tree, d, 47);
    assert Rep(a.V(), a.tree.l, a.tree.i.p);
    assert a.OfClass(p, 47) && a.Fits(p, POOL_CLASS, true);
    forall k: nat | a.Offers(k, Null) ensures k == 47 {
      a.OffersUnique(k, 47, Null);
    }
  }

  /** The address at the right edge where the block of class c - d starts. */
  function Edge(base: nat, c: nat, d: nat): (a: nat)
    requires d <= c
  {
    Pow2Mono(c - d, c);
    base + Pow2(c) - Pow2(c - d)
  }

  lemma {:induction false} EdgeBits(base: nat, c: nat, d: nat) returns (a: nat)
    requires d < c && Aligned(base, c)
    ensures a == Edge(base, c, d) && Ones(a, c, d) && !Bit(a, c - d - 1) && Aligned(a, c - d)
    ensures base <= a && a + Pow2(c - d) == base + Pow2(c)
    decreases d
  {
    hide Aligned, Bit;
    a := Edge(base, c, d);
    if d == 0 {
      BitIsUpperHalf(base, c, a);
    } else {
      AlignedHalf(base, c);
      var b := EdgeBits(base + Pow2(c - 1), c - 1, d - 1);
      BitIsUpperHalf(base, c, a);
    }
  }

  lemma EdgeBlock(d: nat, c: nat) returns (b: Block)
    requires 0 < d && c < MAX_CLASS - d
    ensures b == Block(c, Edge(0, MAX_CLASS, d), Reserved) && Placed(b)
    ensures Ones(b.addr, MAX_CLASS, d) && !Bit(b.addr, MAX_CLASS - d - 1)
  {
    hide Aligned, Bit;
    RootAligned();
    var a := EdgeBits(0, MAX_CLASS, d);
    AlignedDown(a, MAX_CLASS - d, c);
    Pow2Mono(c, MAX_CLASS - d);
    b := Block(c, a, Reserved);
  }

  lemma LowerBlock(ids: seq<Ptr>) returns (b: Block)
    ensures b == Block(47, 0, Allocatable) && Placed(b) && Size(Leaf(RootInfo)) == 1
    ensures |ids| >= 2 ==> NoRefs(Target(Leaf(RootInfo), b, ids))
  {
    hide Aligned, Lookup;
    b := Block(47, 0, Allocatable);
    RootAligned();
    AlignedDown(0, MAX_CLASS, 47);
    assert Size(Nil) == 0;
    if |ids| >= 2 {
      TargetFree(Zip(Top, Leaf(RootInfo)), 1, 0, Allocatable, ids);
    }
  }

  /** The first block: the lower half of the address space becomes Allocatable. */
  method LowerHalf() returns (a: Allocator, ghost es: seq<Attempt>)
    ensures Leads(Leaf(RootInfo), es, a.tree) && |es| == 1
    ensures fresh(a) && fresh(a.links) && a.Valid() && Stage(a.tree, 1) && a.freeDescCount == 254
  {
    hide Aligned, Pow2, Stage, AttachBlock, Target, NoRefs, Size, RootInv, Placed;
    a := new Allocator();
    hide a.Valid, a.Supplied, Refilled;
    Counted(a);
    ghost var b := LowerBlock([]);
    a.Enough(Allocator.Need(MAX_CLASS, 47));
    var ok;
    ghost var e;
    ok, e := a.AttachOne(Block(47, 0, Allocatable));
    b := LowerBlock(e.ids);
    ghost var u := FirstStage(e.ids);
    Counted(a);
    LeadsNowhere(Leaf(RootInfo));
    LeadsOn(Leaf(RootInfo), [], Leaf(RootInfo), e);
    es := [] + [e];
  }

  /** Four blocks attached to a new allocator leave a free block for a pool, and yet too few
      descriptors for any page, even after a refill. */
  method FourBlocks() returns (a: Allocator, ghost es: seq<Attempt>)
    ensures fresh(a) && fresh(a.links) && a.Valid() && |es| == 4 && Leads(Leaf(RootInfo), es, a.tree)
    ensures a.freeDescCount < 63 && a.Offers(47, Null) && !a.Supplied(Allocator.Need(MAX_CLASS, 0), Null)
  {
    hide Aligned, Bit, Pow2, Ones, Stage, Placed, Edge, Leads;
    a, es := LowerHalf();
    hide a.Valid, a.Supplied;
    ghost var b := EdgeBlock(1, 0);
    es := Spend(a, Block(0, Edge(0, MAX_CLASS, 1), Reserved), 1, es);
    b := EdgeBlock(2, 0);
    es := Spend(a, Block(0, Edge(0, MAX_CLASS, 2), Reserved), 2, es);
    b := EdgeBlock(3, 42);
    es := Spend(a, Block(42, Edge(0, MAX_CLASS, 3), Reserved), 3, es);
    TooFew(a, 4);
  }

  /** So the fifth one panics, whatever page and type it is: a refill is made, and it falls
      short. */
  method RefillFallsShort(page: nat, ty: State) returns (a: Allocator, ok: bool)
    requires page < Pow2(MAX_CLASS) && ty != Partial
    ensures fresh(a) && !ok && a.freeDescCount < 2 * (MAX_CLASS + 1)
  {
    hide Leads, Pow2, Aligned;
    ghost var es;
    a, es := FourBlocks();
    hide a.Valid, a.Supplied, a.Offers;
    OnePage(page, ty);
    ghost var e;
    ok, e := a.AttachOne(Block(0, page, ty));
  }

  lemma OnePage(page: nat, ty: State)
    requires page < Pow2(MAX_CLASS) && ty != Partial
    ensures Placed(Block(0, page, ty))
  {
    AlignedMul(page, 0);
  }
}
