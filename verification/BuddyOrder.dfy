/**
 Runs of attach_region blocks: when an Allocatable attach keeps reserved memory, and why
 the final page types do not depend on the order of the attaches.
 */
module BuddyOrder {
  import opened Arith
  import opened BuddyTree
  import opened BuddyOps
  import opened BuddyLookup
  import opened BuddyTypes

  datatype Block = Block(cls: nat, addr: nat, ty: State)

  /** What attach_region passes to page_lookup, short of the whole address space. */
  predicate Placed(b: Block) {
    b.cls < MAX_CLASS && Aligned(b.addr, b.cls) && b.addr + Pow2(b.cls) <= Pow2(MAX_CLASS) && b.ty != Partial
  }

  predicate Covers(b: Block, x: nat) {
    b.addr <= x < b.addr + Pow2(b.cls)
  }

  predicate Inside(b: Block, c: Block) {
    c.addr <= b.addr && b.addr + Pow2(b.cls) <= c.addr + Pow2(c.cls)
  }

  predicate Apart(b: Block, c: Block) {
    b.addr + Pow2(b.cls) <= c.addr || c.addr + Pow2(c.cls) <= b.addr
  }

  predicate RootInv(t: Tree) {
    t.Node? && t.i.p == Root && t.i.st == Partial && Inv(t, RootSlot) && Dist(t)
  }

  function Levels(b: Block): (n: nat) {
    if b.cls <= MAX_CLASS then MAX_CLASS - b.cls else 0
  }

  function Target(t: Tree, b: Block, ids: seq<Ptr>): (u: Tree)
    requires |ids| >= 2 * Levels(b)
  {
    Lookup(Zip(Top, t), Levels(b), b.addr, b.ty, ids).t
  }

  function AttachBlock(t: Tree, b: Block, ids: seq<Ptr>): (u: Tree)
    requires |ids| >= 2 * Levels(b)
  {
    Whole(Attach(Zip(Top, t), Levels(b), b.addr, b.ty, ids))
  }

  /** The state the walk finds at the block's own node. */
  function StateOf(t: Tree, b: Block): (st: State) {
    EffAt(t, Levels(b), b.addr)
  }

  lemma BlockEff(t: Tree, b: Block, ids: seq<Ptr>, m: nat, x: nat)
    requires RootInv(t) && Placed(b) && |ids| >= 2 * Levels(b) && m <= MAX_CLASS
    ensures EffAt(AttachBlock(t, b, ids), m, x) == Attached(t, Levels(b), b.addr, b.ty, m, x)
  {
    AttachIsAttachIn(Zip(Top, t), Levels(b), b.addr, b.ty, ids);
    assert Relist(t) == t;
    var u := AttachEff(t, RootSlot, Levels(b), b.addr, b.ty, ids, m, x);
  }

  lemma RootAligned()
    ensures Aligned(0, MAX_CLASS)
  {
    DivModUnique(0, Pow2(MAX_CLASS), 0, 0);
  }

  /** Attaching one block: the block's pages get the new state, every other page keeps
      its type. */
  lemma BlockTypes(t: Tree, b: Block, ids: seq<Ptr>, x: nat)
    requires RootInv(t) && Placed(b) && |ids| >= 2 * Levels(b) && x < Pow2(MAX_CLASS)
    ensures EffAt(AttachBlock(t, b, ids), MAX_CLASS, x) ==
      if Covers(b, x) then NewState(StateOf(t, b), b.ty) else EffAt(t, MAX_CLASS, x)
  {
    BlockEff(t, b, ids, MAX_CLASS, x);
    RootAligned();
    AgreeIsBlock(0, MAX_CLASS, b.addr, x, Levels(b));
  }

  /** A block whose node is typed has only pages of that type. */
  lemma BlockUniform(t: Tree, b: Block, x: nat)
    requires RootInv(t) && Placed(b) && Covers(b, x) && StateOf(t, b) != Partial
    ensures EffAt(t, MAX_CLASS, x) == StateOf(t, b)
  {
    RootAligned();
    AgreeIsBlock(0, MAX_CLASS, b.addr, x, Levels(b));
    Uniform(t, RootSlot, Levels(b), MAX_CLASS, b.addr, x);
  }

  /** Attaching Allocatable memory leaves every reserved page of the block reserved if and
      only if the block's own node is Reserved or the block has no reserved page. */
  lemma AllocatableAttachKeepsReserved(t: Tree, b: Block, ids: seq<Ptr>)
    requires RootInv(t) && Placed(b) && b.ty == Allocatable && |ids| >= 2 * Levels(b)
    ensures (forall x: nat :: Covers(b, x) && EffAt(t, MAX_CLASS, x) == Reserved ==>
              EffAt(AttachBlock(t, b, ids), MAX_CLASS, x) == Reserved)
      <==> StateOf(t, b) == Reserved || (forall x: nat :: Covers(b, x) ==> EffAt(t, MAX_CLASS, x) != Reserved)
  {
    forall x: nat | Covers(b, x)
      ensures EffAt(AttachBlock(t, b, ids), MAX_CLASS, x) == NewState(StateOf(t, b), Allocatable)
    {
      BlockTypes(t, b, ids, x);
    }
  }

  /** A block that is partly reserved: its own node says Partial, its lower half Reserved. */
  function MixedHalf(): (t: Tree) {
    Node(Info(Boot(0), Partial, 0, 47, 0, false, 0, false),
         Leaf(Info(Boot(2), Reserved, 0, 46, 0, false, 0, false)),
         Leaf(Info(Boot(3), Partial, 0, 46, Pow2(46), false, 0, false)))
  }

  function MixedTree(): (t: Tree) {
    Node(Info(Root, Partial, 0, 48, 0, false, 0, false), MixedHalf(),
         Leaf(Info(Boot(1), Partial, 0, 47, Pow2(47), false, 0, false)))
  }

  lemma MixedInv()
    ensures RootInv(MixedTree())
  {
    hide Pow2;
    var t, m := MixedTree(), MixedHalf();
    assert Inv(m.l, KidSlot(m.i, false)) && Inv(m.r, KidSlot(m.i, true));
    assert Inv(m, KidSlot(t.i, false)) && Inv(t.r, KidSlot(t.i, true));
    assert Ids(m.l) == {Boot(2)} && Ids(m.r) == {Boot(3)} && Ids(t.r) == {Boot(1)};
    assert Ids(m) == {Boot(0), Boot(2), Boot(3)};
    assert Dist(m) && Dist(t.r);
  }

  /** Attaching that block as Allocatable memory takes the reservation away. */
  lemma OverwriteExample()
    ensures var t, b := MixedTree(), Block(47, 0, Allocatable);
      && RootInv(t) && Placed(b) && StateOf(t, b) == Partial && TypeAt(t, 0) == Reserved
      && TypeAt(AttachBlock(t, b, [Boot(4), Boot(5)]), 0) == Allocatable
  {
    hide Aligned, Bit, Pow2, RootInv;
    var t, b, ids := MixedTree(), Block(47, 0, Allocatable), [Boot(4), Boot(5)];
    MixedInv();
    RootAligned();
    AlignedDown(0, MAX_CLASS, 47);
    BitIsUpperHalf(0, MAX_CLASS, 0);
    Pow2Mono(47, MAX_CLASS);
    AttachIsAttachIn(Zip(Top, t), 1, 0, Allocatable, ids);
    assert Step(Zip(Top, t), 0, Allocatable, ids).t == MixedHalf();
    assert AttachIn(MixedHalf(), 0, 0, Allocatable, Rest(t, ids)) == Retype(MixedHalf(), Allocatable);
  }

  // ------------------------------------------------------------ steps in between

  ghost predicate SameEff(t: Tree, u: Tree) {
    forall m: nat, x: nat :: EffAt(t, m, x) == EffAt(u, m, x)
  }

  lemma {:induction false} SameEffPlug(c: Ctx, t: Tree, u: Tree)
    requires t.Node? && u.Node? && SameEff(t, u) && (c.Down? ==> c.sib.Node?) && CInv(c)
    ensures SameEff(Plug(c, t), Plug(c, u))
    decreases c
  {
    if c.Down? {
      var f, g := Fill(c.right, c.i, c.sib, t), Fill(c.right, c.i, c.sib, u);
      forall m: nat, x: nat ensures EffAt(f, m, x) == EffAt(g, m, x) {
        if m > 0 {
          assert EffAt(t, m - 1, x) == EffAt(u, m - 1, x);
        }
      }
      SameEffPlug(c.up, f, g);
    }
  }

  /** Splitting to reach a block changes no type and no block's state. */
  lemma {:induction false} LookupQuiet(z: Zip, n: nat, a: nat, ids: seq<Ptr>)
    requires FInv(z) && n <= z.t.i.cls && |ids| >= 2 * n
    ensures SameEff(Whole(z), Whole(Lookup(z, n, a, Partial, ids)))
    decreases n
  {
    hide Pow2, Bit;
    if n > 0 {
      StepInv(z, a, Partial, ids);
      var s := Step(z, a, Partial, ids);
      var s0 := Step(Zip(Top, z.t), a, Partial, ids);
      var f := Fill(s.c.right, s.c.i, s.c.sib, s.t);
      forall m: nat, x: nat ensures EffAt(z.t, m, x) == EffAt(f, m, x) {
        EnterEff(z.t, HoleSlot(z.c), s.c.right, Partial, ids, s0.t, m, x);
      }
      SameEffPlug(z.c, z.t, f);
      LookupQuiet(s, n - 1, a, Rest(z.t, ids));
    }
  }

  /** Counting references changes no type and no block's state. */
  lemma {:induction false} RefQuiet(t: Tree)
    ensures SameEff(t, RefSub(t))
    decreases t
  {
    if t.Node? {
      RefQuiet(t.l);
      RefQuiet(t.r);
    }
  }

  // ------------------------------------------------------------ runs

  /** One attach of a run: the tree it starts from, the block, the descriptors it may use. */
  datatype Attempt = Attempt(t: Tree, b: Block, ids: seq<Ptr>)

  predicate Sound(e: Attempt) {
    RootInv(e.t) && Placed(e.b) && |e.ids| >= 2 * Levels(e.b)
  }

  /** A run of attaches starts from memory of no type; between two attaches the tree may
      change in ways that leave every block's state alone (descriptor pools). */
  ghost predicate Run(es: seq<Attempt>) {
    && (forall k :: 0 <= k < |es| ==> Sound(es[k]))
    && (|es| > 0 ==> SameEff(es[0].t, Leaf(es[0].t.i)))
    && (forall k :: 0 < k < |es| ==> SameEff(AttachBlock(es[k - 1].t, es[k - 1].b, es[k - 1].ids), es[k].t))
  }

  predicate ReservedBy(es: seq<Attempt>, x: nat) {
    exists k :: 0 <= k < |es| && es[k].b.ty == Reserved && Covers(es[k].b, x)
  }

  predicate AllocatedBy(es: seq<Attempt>, x: nat) {
    exists k :: 0 <= k < |es| && es[k].b.ty == Allocatable && Covers(es[k].b, x)
  }

  /** What the attached blocks say about a page, whatever their order. */
  function Expected(es: seq<Attempt>, x: nat): (st: State) {
    if ReservedBy(es, x) then Reserved else if AllocatedBy(es, x) then Allocatable else Partial
  }

  /** Allocatable blocks are disjoint, and each lies inside one earlier reserved block or
      touches none of them. */
  predicate Orderly(es: seq<Attempt>) {
    forall j :: 0 <= j < |es| && es[j].b.ty == Allocatable ==>
      && (forall i :: 0 <= i < j && es[i].b.ty == Allocatable ==> Apart(es[i].b, es[j].b))
      && (|| (exists i :: 0 <= i < j && es[i].b.ty == Reserved && Inside(es[j].b, es[i].b))
          || (forall i :: 0 <= i < j && es[i].b.ty == Reserved ==> Apart(es[i].b, es[j].b)))
  }

  /** A block inside a reserved one that no Allocatable block touches. */
  predicate Sheltered(es: seq<Attempt>, b: Block) {
    && (exists k :: 0 <= k < |es| && es[k].b.ty == Reserved && Inside(b, es[k].b))
    && (forall k :: 0 <= k < |es| && es[k].b.ty == Allocatable ==> Apart(es[k].b, b))
  }

  function Last(es: seq<Attempt>): (t: Tree)
    requires |es| > 0 && Sound(es[|es| - 1])
  {
    var e := es[|es| - 1];
    AttachBlock(e.t, e.b, e.ids)
  }

  /** Same-size-or-nested: two aligned blocks are apart or one is inside the other. */
  lemma Nested(b: Block, c: Block)
    requires Placed(b) && Placed(c) && b.cls <= c.cls
    ensures Apart(b, c) || Inside(b, c)
  {
    var lo, hi := c.addr, c.addr + Pow2(c.cls);
    AlignedDown(c.addr, c.cls, b.cls);
    AlignedMul(1, c.cls);
    AlignedDown(Pow2(c.cls), c.cls, b.cls);
    AlignedSum(c.addr, Pow2(c.cls), b.cls);
    if b.addr < lo < b.addr + Pow2(b.cls) {
      AlignedClose(b.addr, lo, b.cls);
    }
    if b.addr < hi < b.addr + Pow2(b.cls) {
      AlignedClose(b.addr, hi, b.cls);
    }
  }

  /** How one attach changes the state of another block. */
  lemma OtherBlock(t: Tree, b: Block, ids: seq<Ptr>, o: Block)
    requires RootInv(t) && Placed(b) && Placed(o) && |ids| >= 2 * Levels(b)
    ensures Apart(b, o) ==> StateOf(AttachBlock(t, b, ids), o) == StateOf(t, o)
    ensures Inside(o, b) ==> StateOf(AttachBlock(t, b, ids), o) == NewState(StateOf(t, b), b.ty)
    ensures !Apart(b, o) && !Inside(o, b) ==> StateOf(AttachBlock(t, b, ids), o) == PathState(StateOf(t, o), b.ty)
  {
    hide Pow2;
    BlockEff(t, b, ids, Levels(o), o.addr);
    RootAligned();
    if Levels(o) < Levels(b) {
      Nested(b, o);
      AgreeIsBlock(0, MAX_CLASS, o.addr, b.addr, Levels(o));
      AgreeSym(b.addr, o.addr, Levels(o), MAX_CLASS);
      Pow2Mono(b.cls, o.cls);
    } else {
      Nested(o, b);
      AgreeIsBlock(0, MAX_CLASS, b.addr, o.addr, Levels(b));
    }
  }

  lemma {:induction false} AgreeSym(a: nat, b: nat, k: nat, c: nat)
    ensures Agree(a, b, k, c) <==> Agree(b, a, k, c)
    decreases k
  {
    if k > 0 && c > 0 {
      AgreeSym(a, b, k - 1, c - 1);
    }
  }

  ghost predicate TypesFit(t: Tree, es: seq<Attempt>) {
    forall x: nat :: x < Pow2(MAX_CLASS) ==> EffAt(t, MAX_CLASS, x) == Expected(es, x)
  }

  ghost predicate ShelterFits(t: Tree, es: seq<Attempt>) {
    forall o: Block :: Placed(o) && Sheltered(es, o) ==> StateOf(t, o) == Reserved
  }

  lemma ExpectedSnoc(es: seq<Attempt>, e: Attempt, x: nat)
    ensures ReservedBy(es + [e], x) <==> ReservedBy(es, x) || (e.b.ty == Reserved && Covers(e.b, x))
    ensures AllocatedBy(es + [e], x) <==> AllocatedBy(es, x) || (e.b.ty == Allocatable && Covers(e.b, x))
  {
    var fs := es + [e];
    assert fs[|es|] == e;
    assert forall k :: 0 <= k < |es| ==> fs[k] == es[k];
  }

  /** An Allocatable block finds its node Reserved exactly when reserved memory covers it. */
  lemma AllocatableMeets(es: seq<Attempt>, e: Attempt, x: nat)
    requires Sound(e) && e.b.ty == Allocatable && Orderly(es + [e]) && Covers(e.b, x)
    requires TypesFit(e.t, es) && ShelterFits(e.t, es)
    requires forall k :: 0 <= k < |es| ==> Placed(es[k].b)
    ensures StateOf(e.t, e.b) == Reserved <==> ReservedBy(es, x)
  {
    var fs := es + [e];
    var j := |es|;
    assert fs[j] == e && forall k :: 0 <= k < j ==> fs[k] == es[k];
    if i :| 0 <= i < j && fs[i].b.ty == Reserved && Inside(fs[j].b, fs[i].b) {
      assert es[i].b.ty == Reserved && Covers(es[i].b, x);
      assert Sheltered(es, e.b);
    } else {
      assert forall i :: 0 <= i < j && fs[i].b.ty == Reserved ==> Apart(fs[i].b, fs[j].b);
      assert !ReservedBy(es, x);
      if StateOf(e.t, e.b) == Reserved {
        BlockUniform(e.t, e.b, x);
      }
    }
  }

  lemma TypesAdvance(es: seq<Attempt>, e: Attempt)
    requires Sound(e) && Orderly(es + [e]) && TypesFit(e.t, es) && ShelterFits(e.t, es)
    requires forall k :: 0 <= k < |es| ==> Placed(es[k].b)
    ensures TypesFit(AttachBlock(e.t, e.b, e.ids), es + [e])
  {
    forall x: nat | x < Pow2(MAX_CLASS)
      ensures EffAt(AttachBlock(e.t, e.b, e.ids), MAX_CLASS, x) == Expected(es + [e], x)
    {
      BlockTypes(e.t, e.b, e.ids, x);
      ExpectedSnoc(es, e, x);
      if Covers(e.b, x) && e.b.ty == Allocatable {
        AllocatableMeets(es, e, x);
      }
    }
  }

  lemma ShelterAdvance(es: seq<Attempt>, e: Attempt)
    requires Sound(e) && ShelterFits(e.t, es)
    ensures ShelterFits(AttachBlock(e.t, e.b, e.ids), es + [e])
  {
    var fs := es + [e];
    assert fs[|es|] == e && forall k :: 0 <= k < |es| ==> fs[k] == es[k];
    forall o: Block | Placed(o) && Sheltered(fs, o)
      ensures StateOf(AttachBlock(e.t, e.b, e.ids), o) == Reserved
    {
      OtherBlock(e.t, e.b, e.ids, o);
      if e.b.ty == Reserved && Inside(o, e.b) {
      } else {
        var k :| 0 <= k < |fs| && fs[k].b.ty == Reserved && Inside(o, fs[k].b);
        assert k < |es| && es[k] == fs[k];
        assert Sheltered(es, o);
      }
    }
  }

  lemma PrefixOrderly(es: seq<Attempt>)
    requires |es| > 0 && Orderly(es)
    ensures Orderly(es[..|es| - 1])
  {
    var before := es[..|es| - 1];
    forall j | 0 <= j < |before| && before[j].b.ty == Allocatable
      ensures forall i :: 0 <= i < j && before[i].b.ty == Allocatable ==> Apart(before[i].b, before[j].b)
      ensures || (exists i :: 0 <= i < j && before[i].b.ty == Reserved && Inside(before[j].b, before[i].b))
              || (forall i :: 0 <= i < j && before[i].b.ty == Reserved ==> Apart(before[i].b, before[j].b))
    {
      assert before[j] == es[j];
      if i :| 0 <= i < j && es[i].b.ty == Reserved && Inside(es[j].b, es[i].b) {
        assert before[i] == es[i];
      }
    }
  }

  lemma Prefix(es: seq<Attempt>)
    requires |es| > 0 && Run(es)
    ensures var before := es[..|es| - 1];
      && Run(before)
      && (forall k :: 0 <= k < |before| ==> Placed(before[k].b))
      && (|before| > 0 ==> SameEff(Last(before), es[|es| - 1].t))
  {
  }

  lemma FitsMove(t: Tree, u: Tree, es: seq<Attempt>)
    requires SameEff(t, u) && TypesFit(t, es) && ShelterFits(t, es)
    ensures TypesFit(u, es) && ShelterFits(u, es)
  {
    forall o: Block | Placed(o) && Sheltered(es, o) ensures StateOf(u, o) == Reserved {
      assert StateOf(t, o) == Reserved;
    }
  }

  lemma {:induction false} RunFits(es: seq<Attempt>)
    requires |es| > 0 && Run(es) && Orderly(es)
    ensures TypesFit(Last(es), es) && ShelterFits(Last(es), es)
    decreases |es|
  {
    var before, e := es[..|es| - 1], es[|es| - 1];
    Prefix(es);
    PrefixOrderly(es);
    if |before| > 0 {
      RunFits(before);
      FitsMove(Last(before), e.t, before);
    }
    assert es == before + [e];
    TypesAdvance(before, e);
    ShelterAdvance(before, e);
  }

  function BlocksOf(es: seq<Attempt>): (s: set<Block>) {
    set k | 0 <= k < |es| :: es[k].b
  }

  /** After any orderly run of attaches a page is Reserved if any reserved block covers it,
      else Allocatable if an Allocatable block covers it, else of no type ... */
  lemma PageTypes(es: seq<Attempt>, x: nat)
    requires |es| > 0 && Run(es) && Orderly(es) && x < Pow2(MAX_CLASS)
    requires RootInv(Last(es))
    ensures TypeAt(Last(es), x) == Expected(es, x)
  {
    RunFits(es);
    RootAligned();
    TypeIsEff(Last(es), RootSlot, x, MAX_CLASS);
  }

  /** ... so two orderly runs of the same blocks, in whatever orders, agree on every page. */
  lemma OrderIndependent(es: seq<Attempt>, fs: seq<Attempt>, x: nat)
    requires |es| > 0 && Run(es) && Orderly(es) && RootInv(Last(es))
    requires |fs| > 0 && Run(fs) && Orderly(fs) && RootInv(Last(fs))
    requires BlocksOf(es) == BlocksOf(fs)
    requires x < Pow2(MAX_CLASS)
    ensures TypeAt(Last(es), x) == TypeAt(Last(fs), x)
  {
    PageTypes(es, x);
    PageTypes(fs, x);
    SameExpected(es, fs, x);
    SameExpected(fs, es, x);
  }

  lemma SameExpected(es: seq<Attempt>, fs: seq<Attempt>, x: nat)
    requires BlocksOf(es) == BlocksOf(fs)
    ensures ReservedBy(es, x) ==> ReservedBy(fs, x)
    ensures AllocatedBy(es, x) ==> AllocatedBy(fs, x)
  {
    if k :| 0 <= k < |es| && es[k].b.ty == Reserved && Covers(es[k].b, x) {
      assert es[k].b in BlocksOf(fs);
    }
    if k :| 0 <= k < |es| && es[k].b.ty == Allocatable && Covers(es[k].b, x) {
      assert es[k].b in BlocksOf(fs);
    }
  }
}
