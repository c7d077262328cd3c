/**
 detect_memory and the first page: attached as Reserved at the very start, it becomes
 Allocatable again with any Allocatable region that begins at page 0.
 */
module BuddyFirstPage {
  import opened Arith
  import opened BuddyTree
  import opened BuddyTypes
  import opened BuddyOrder
  import opened BuddyPool
  import opened BuddySteps
  import opened BuddyGreedy
  import opened BuddyRuns

  /** The first page is reserved, and none of the larger blocks that start with it has a
      type. */
  ghost predicate FirstAlone(t: Tree) {
    EffAt(t, MAX_CLASS, 0) == Reserved && forall m: nat :: m < MAX_CLASS ==> EffAt(t, m, 0) == Partial
  }

  lemma {:induction false} AgreeSelf(a: nat, k: nat, c: nat)
    ensures Agree(a, a, k, c)
    decreases k
  {
    if k > 0 && c > 0 {
      AgreeSelf(a, k - 1, c - 1);
    }
  }

  /** Blocks elsewhere leave all of them alone. */
  lemma AwayBlock(t: Tree, b: Block, ids: seq<Ptr>, m: nat)
    requires RootInv(t) && Placed(b) && |ids| >= 2 * Levels(b) && !Covers(b, 0) && m <= MAX_CLASS
    ensures EffAt(t, m, 0) == Partial || m == MAX_CLASS ==> EffAt(AttachBlock(t, b, ids), m, 0) == EffAt(t, m, 0)
  {
    hide Inv, Dist, AttachBlock, EffAt, Agree, Aligned, Pow2;
    BlockEff(t, b, ids, m, 0);
    StartsWell(t);
    RootAligned();
    AgreeIsBlock(0, MAX_CLASS, b.addr, 0, Levels(b));
  }

  lemma RefilledEff(t: Tree, u: Tree, m: nat)
    requires Inv(t, RootSlot) && Refilled(t, u)
    ensures EffAt(u, m, 0) == EffAt(t, m, 0)
  {
    hide Inv, EffAt, Refilled;
    RefilledQuiet(t, u);
  }

  /** Neither do the attaches of a region elsewhere, refills included. */
  lemma {:induction false} AwayLeads(t: Tree, es: seq<Attempt>, u: Tree, m: nat)
    requires Leads(t, es, u) && Inv(t, RootSlot) && m <= MAX_CLASS
    requires forall k :: 0 <= k < |es| ==> !Covers(es[k].b, 0)
    ensures EffAt(t, m, 0) == Partial || m == MAX_CLASS ==> EffAt(u, m, 0) == EffAt(t, m, 0)
    decreases |es|
  {
    hide Refilled, AttachBlock, NoRefs, Target, Placed, Covers, EffAt, Inv, Dist;
    if es != [] {
      var n := |es| - 1;
      var before, e := es[..n], es[n];
      var w := if n > 0 then Last(before) else t;
      assert Leads(t, before, w);
      AwayLeads(t, before, w, m);
      AttachedInv(t, before, w);
      RefilledEff(w, e.t, m);
      AwayBlock(e.t, e.b, e.ids, m);
    }
  }

  lemma AttachedInv(t: Tree, es: seq<Attempt>, u: Tree)
    requires Leads(t, es, u) && Inv(t, RootSlot)
    ensures Inv(u, RootSlot)
  {
    hide Refilled, AttachBlock, Target, NoRefs, Inv;
    if es != [] {
      var e := es[|es| - 1];
      assert Sound(e);
      AttachKeeps(e.t, e.b, e.ids, 0, 0);
    }
  }

  /** The first call of detect_memory. */
  lemma FirstCall(t: Tree, es: seq<Attempt>, u: Tree)
    requires Leads(t, es, u) && Carries(es, Blocks(0, 1, Reserved)) && RootInv(t) && t.l.Nil? && t.r.Nil?
    ensures FirstAlone(u) && Inv(u, RootSlot)
  {
    hide Refilled, AttachBlock, Target, NoRefs, Inv, Dist, Aligned, Blocks, Pow2, Agree;
    var b := Block(0, 0, Reserved);
    OneBlock();
    var e := es[0];
    RefilledQuiet(t, e.t);
    AttachedInv(t, es, u);
    RootAligned();
    StartsWell(e.t);
    forall m: nat | m <= MAX_CLASS ensures EffAt(u, m, 0) == if m == MAX_CLASS then Reserved else Partial {
      BlockEff(e.t, b, e.ids, m, 0);
      AgreeSelf(0, m, MAX_CLASS);
      assert EffAt(t, m, 0) == EffAt(e.t, m, 0) && EffAt(t, m, 0) == Partial;
      assert EffAt(t, MAX_CLASS, 0) == EffAt(e.t, MAX_CLASS, 0);
    }
  }

  lemma OneBlock()
    ensures Blocks(0, 1, Reserved) == [Block(0, 0, Reserved)]
  {
    var bs := Blocks(0, 1, Reserved);
    BlocksTile(0, 1, Reserved);
  }

  lemma FirstBlock(end: nat) returns (b: Block)
    requires 2 <= end < Pow2(MAX_CLASS)
    ensures |Blocks(0, end, Allocatable)| > 0 && b == Blocks(0, end, Allocatable)[0]
    ensures b.addr == 0 && b.ty == Allocatable && b.cls > 0 && Placed(b)
  {
    b := Blocks(0, end, Allocatable)[0];
    RootAligned();
    AlignedDown(0, MAX_CLASS, 1);
    BlocksPlaced(0, end, Allocatable, 0);
    assert Pow2(1) == 2 && FitsAt(0, end, 1);
  }

  /** A region that begins at page 0 begins with a larger block, which has no type. */
  lemma RegionFrom0(t: Tree, es: seq<Attempt>, u: Tree, end: nat)
    requires Leads(t, es, u) && Carries(es, Blocks(0, end, Allocatable)) && FirstAlone(t) && Inv(t, RootSlot)
    requires 2 <= end < Pow2(MAX_CLASS)
    ensures EffAt(u, MAX_CLASS, 0) == Allocatable && Inv(u, RootSlot)
  {
    hide Refilled, AttachBlock, Target, NoRefs, Inv, Dist, Aligned, Blocks, Pow2, Agree, EffAt, Covers, RootInv;
    var b := FirstBlock(end);
    var e, rest := es[0], es[1..];
    var v := AttachBlock(e.t, b, e.ids);
    assert Sound(e) && e.b == b;
    RefilledEff(t, e.t, Levels(b));
    StartCovered(e.t, b, e.ids);
    LeadsRest(t, es, u, v);
    AttachedInv(t, [e], v);
    BlocksTile(0, end, Allocatable);
    forall k | 0 <= k < |rest| ensures !Covers(rest[k].b, 0) {
      TileApart(Blocks(0, end, Allocatable), 0, end, Allocatable, 0, k + 1);
      assert rest[k] == es[k + 1];
      NotFirst(b, rest[k].b);
    }
    AwayLeads(v, rest, u, MAX_CLASS);
    AttachedInv(t, es, u);
  }

  lemma StartCovered(t: Tree, b: Block, ids: seq<Ptr>)
    requires RootInv(t) && Placed(b) && |ids| >= 2 * Levels(b) && b.addr == 0 && b.ty == Allocatable
    requires EffAt(t, Levels(b), 0) == Partial
    ensures EffAt(AttachBlock(t, b, ids), MAX_CLASS, 0) == Allocatable
  {
    hide Inv, Dist, AttachBlock, EffAt, Aligned;
    BlockTypes(t, b, ids, 0);
  }

  lemma NotFirst(b: Block, c: Block)
    requires Apart(b, c) && Covers(b, 0)
    ensures !Covers(c, 0)
  {
  }

  /** The attaches after the first one. */
  lemma LeadsRest(t: Tree, es: seq<Attempt>, u: Tree, v: Tree)
    requires Leads(t, es, u) && |es| > 0 && v == AttachBlock(es[0].t, es[0].b, es[0].ids)
    ensures Leads(v, es[1..], u) && Leads(t, es[..1], v)
  {
    hide Refilled, AttachBlock, Target, NoRefs, RootInv, Placed;
    var fs := es[1..];
    forall k | 0 <= k < |fs| ensures Sound(fs[k]) && NoRefs(Target(fs[k].t, fs[k].b, fs[k].ids)) {
      assert fs[k] == es[k + 1];
    }
    forall k | 0 < k < |fs| ensures Refilled(AttachBlock(fs[k - 1].t, fs[k - 1].b, fs[k - 1].ids), fs[k].t) {
      assert fs[k] == es[k + 1] && fs[k - 1] == es[k];
    }
  }

  /** Calls of attach_region for regions without page 0. */
  lemma {:induction false} AwayCalls(ts: seq<Tree>, rs: seq<Region>, ess: seq<seq<Attempt>>, i: nat, j: nat, m: nat)
    requires Calls(ts, rs, ess) && i <= j <= |rs| && m <= MAX_CLASS && Inv(ts[i], RootSlot)
    requires forall k :: i <= k < j ==> Proper(rs[k]) && !In(0, rs[k])
    ensures Inv(ts[j], RootSlot)
    ensures EffAt(ts[i], m, 0) == Partial || m == MAX_CLASS ==> EffAt(ts[j], m, 0) == EffAt(ts[i], m, 0)
    decreases j
  {
    hide Leads, Inv, EffAt, Blocks, Covers;
    if i < j {
      AwayCalls(ts, rs, ess, i, j - 1, m);
      var r, es := rs[j - 1], ess[j - 1];
      BlocksTile(r.first, r.end, r.ty);
      TileCovers(Blocks(r.first, r.end, r.ty), r.first, r.end, r.ty, 0);
      AwayLeads(ts[j - 1], es, ts[j], m);
      AttachedInv(ts[j - 1], es, ts[j]);
    }
  }

  /** detect_memory attaches the first page as Reserved, then other regions, one of which is
      Allocatable and begins at page 0: afterwards the first page is Allocatable. */
  lemma FirstPageLost(ts: seq<Tree>, rs: seq<Region>, ess: seq<seq<Attempt>>, j: nat)
    requires Calls(ts, rs, ess) && 0 < j < |rs| && forall k :: 0 <= k < |rs| ==> Proper(rs[k])
    requires RootInv(ts[0]) && ts[0].l.Nil? && ts[0].r.Nil?
    requires rs[0] == Region(0, 1, Reserved) && rs[j].first == 0 && rs[j].end >= 2 && rs[j].ty == Allocatable
    requires forall k :: 0 < k < |rs| && k != j ==> !In(0, rs[k])
    ensures TypeAt(ts[|rs|], 0) == Allocatable && Declared(rs, 0) == Reserved
  {
    hide Leads, Inv, EffAt, Blocks, Covers, RootInv;
    FirstCall(ts[0], ess[0], ts[1]);
    forall m: nat | m <= MAX_CLASS ensures EffAt(ts[j], m, 0) == EffAt(ts[1], m, 0) {
      AwayCalls(ts, rs, ess, 1, j, m);
    }
    AwayCalls(ts, rs, ess, 1, j, 0);
    RegionFrom0(ts[j], ess[j], ts[j + 1], rs[j].end);
    AwayCalls(ts, rs, ess, j + 1, |rs|, MAX_CLASS);
    FirstType(ts[|rs|]);
    assert In(0, rs[0]);
  }

  lemma FirstType(t: Tree)
    requires Inv(t, RootSlot) && EffAt(t, MAX_CLASS, 0) != Partial
    ensures TypeAt(t, 0) == EffAt(t, MAX_CLASS, 0)
  {
    hide Inv, EffAt, TypeAt;
    RootAligned();
    RootClass(t);
    TypeIsEff(t, RootSlot, 0, MAX_CLASS);
  }

  lemma RootClass(t: Tree)
    requires Inv(t, RootSlot) && EffAt(t, MAX_CLASS, 0) != Partial
    ensures t.Node? && t.i.cls == MAX_CLASS
  {
  }
}
