/**
 Whole runs of the allocator: attaching, allocating, claiming, referencing and releasing
 in any order, seen as a sequence of trees.
 */
module BuddyRuns {
  import opened Arith
  import opened BuddyTree
  import opened BuddyOps
  import opened BuddyLookup
  import opened BuddyTypes
  import opened BuddyOrder
  import opened BuddyLive
  import opened BuddyPool
  import opened BuddySteps
  import opened BuddyClaim
  import opened BuddyGreedy

  /** One step: alloc_page with page_ref for a client or for a descriptor pool, page_lookup
      with page_ref of memory nobody uses, page_ref on a block a client holds, page_unref of
      a reference a client holds, or one block of attach_region. */
  datatype Op =
    | Allocate(z: Zip, c: nat, ids: seq<Ptr>, pool: bool)
    | Claim(c: nat, a: nat, ids: seq<Ptr>)
    | Share(z: Zip)
    | GiveUp(z: Zip)
    | AttachTo(b: Block, ids: seq<Ptr>)

  ghost predicate Step(t: Tree, op: Op, u: Tree) {
    match op
    case Allocate(z, c, ids, pool) =>
      Source(t, z, c) && |ids| >= 2 * (z.t.i.cls - c) && u == AllocTree(z, c, ids, pool)
    case Claim(c, a, ids) =>
      && IsBlock(c, a) && |ids| >= 2 * (MAX_CLASS - c)
      && NoRefs(ClaimWalk(t, c, a, ids).t) && u == ClaimTree(t, c, a, ids)
    case Share(z) => z.t.Node? && Whole(z) == t && z.t.i.held > 0 && u == RefTree(z)
    case GiveUp(z) => z.t.Node? && Whole(z) == t && z.t.i.held > 0 && u == UnrefTree(z)
    case AttachTo(b, ids) =>
      Placed(b) && |ids| >= 2 * Levels(b) && NoRefs(Target(t, b, ids)) && u == AttachBlock(t, b, ids)
  }

  /** The invariant, an untyped root, and owners apart. */
  ghost predicate Good(t: Tree) {
    Untyped(t) && Excl(t, false)
  }

  /** References gained and lost by one step on the block of class c at address a. */
  function Gain(op: Op, c: nat, a: nat): (n: int) {
    match op
    case Allocate(z, k, ids, pool) => if !pool && z.t.Node? && (c, a) == (k, z.t.i.addr) then 1 else 0
    case Claim(k, x, ids) => if (c, a) == (k, x) then 1 else 0
    case Share(z) => if z.t.Node? && (c, a) == (z.t.i.cls, z.t.i.addr) then 1 else 0
    case GiveUp(z) => if z.t.Node? && (c, a) == (z.t.i.cls, z.t.i.addr) then -1 else 0
    case AttachTo(_, _) => 0
  }

  lemma AttachExcl(t: Tree, b: Block, ids: seq<Ptr>)
    requires Good(t) && Placed(b) && |ids| >= 2 * Levels(b) && NoRefs(Target(t, b, ids))
    ensures Excl(AttachBlock(t, b, ids), false)
  {
    hide Lookup, Inv, CInv, Plug;
    var z, n := Zip(Top, t), Levels(b);
    StartsWell(t);
    LookupExcl(z, n, b.addr, b.ty, ids);
    LookupInv(z, n, b.addr, b.ty, ids);
    var r := Lookup(z, n, b.addr, b.ty, ids);
    NoDirect(r);
    ExclPlug(r.c, Retype(r.t, b.ty));
  }

  /** What one step keeps, and how it changes who holds what. */
  lemma StepKeeps(t: Tree, op: Op, u: Tree, c: nat, a: nat)
    requires Good(t) && Step(t, op, u)
    ensures Good(u) && Holds(u, c, a) == Holds(t, c, a) + Gain(op, c, a)
  {
    hide Inv, CInv, Excl, Lookup, Holds, Pools, RefSub, UnrefSub, Merge, ClaimTree, ClaimWalk, IsBlock, NoRefs;
    match op
    case Allocate(z, k, ids, pool) =>
      AllocFacts(t, z, k, ids, pool);
      AllocHolds(t, z, k, ids, pool, c, a);
      AllocNode(t, z, k, ids, pool);
      assert EffAt(t, 0, 0) == EffAt(u, 0, 0);
    case Claim(k, x, ids) =>
      ClaimKeeps(t, k, x, ids);
      ClaimHolds(t, k, x, ids, c, a);
      ClaimExcl(t, k, x, ids);
    case Share(z) =>
      ShareGood(z);
      RefHolds(z, c, a);
    case GiveUp(z) =>
      InvPlug(z.c, z.t);
      UnrefInv(z);
      UnrefHolds(z, c, a);
      UnrefExcl(z);
      UnrefSubInfo(BuddyOps.Release(z.t));
      SameTop(z.c, z.t, UnrefSub(BuddyOps.Release(z.t)));
      MergeTop(Zip(z.c, UnrefSub(BuddyOps.Release(z.t))));
    case AttachTo(b, ids) =>
      AttachKeeps(t, b, ids, c, a);
      AttachExcl(t, b, ids);
  }

  lemma AllocNode(t: Tree, z: Zip, c: nat, ids: seq<Ptr>, pool: bool)
    requires Good(t) && Source(t, z, c) && |ids| >= 2 * (z.t.i.cls - c)
    ensures AllocTree(z, c, ids, pool).Node?
  {
    hide Inv, CInv, Lookup, RefSub;
    WalkFacts(t, z, c, ids);
    var r := AllocWalk(z, c, ids);
    RefSubInfo(r.t);
    SameTop(r.c, RefSub(r.t), Hold(RefSub(r.t), pool));
  }

  lemma ShareGood(z: Zip)
    requires z.t.Node? && z.t.i.held > 0 && Good(Whole(z))
    ensures Good(RefTree(z))
  {
    hide Excl, RefSub;
    RefSubInfo(z.t);
    var h := Hold(RefSub(z.t), false);
    InvPlug(z.c, z.t);
    assert Relist(z.t) == z.t;
    RefInv(z.t, HoleSlot(z.c), false);
    InvPlug(z.c, h);
    RefExcl(z);
    SameTop(z.c, z.t, h);
  }

  // ------------------------------------------------------------ histories

  ghost predicate History(ts: seq<Tree>, ops: seq<Op>) {
    && |ts| == |ops| + 1
    && Good(ts[0])
    && forall k :: 0 <= k < |ops| ==> Step(ts[k], ops[k], ts[k + 1])
  }

  /** A new allocator is a good start, with nothing held. */
  lemma Start(t: Tree, c: nat, a: nat)
    requires RootInv(t) && IsFree(t) && !t.i.listed
    ensures Good(t) && Holds(t, c, a) == 0
  {
    assert Holds(t.l, c, a) == 0 && Holds(t.r, c, a) == 0;
  }

  /** References taken minus references given up. */
  function Balance(ops: seq<Op>, c: nat, a: nat): (n: int) {
    if ops == [] then 0 else Balance(ops[..|ops| - 1], c, a) + Gain(ops[|ops| - 1], c, a)
  }

  /** In every state of every history the invariant holds, and each block is held exactly as
      often as it was taken and not given up. */
  lemma {:induction false} Conserved(ts: seq<Tree>, ops: seq<Op>, k: nat, c: nat, a: nat)
    requires History(ts, ops) && k < |ts|
    ensures Good(ts[k]) && Holds(ts[k], c, a) == Holds(ts[0], c, a) + Balance(ops[..k], c, a)
    decreases k
  {
    hide Good, Step, Holds, Gain;
    if k > 0 {
      Conserved(ts, ops, k - 1, c, a);
      StepKeeps(ts[k - 1], ops[k - 1], ts[k], c, a);
      assert ops[..k][..k - 1] == ops[..k - 1];
    }
  }

  /** At no point of any history do two blocks in use overlap, nor does a free block overlap
      one in use. */
  lemma NeverOverlap(ts: seq<Tree>, ops: seq<Op>, k: nat, c: nat, a: nat, d: nat, b: nat)
    requires History(ts, ops) && k < |ts| && (c, a) != (d, b)
    requires Holds(ts[k], c, a) > 0 && Holds(ts[k], d, b) > 0
    ensures a + Pow2(c) <= b || b + Pow2(d) <= a
  {
    Conserved(ts, ops, k, c, a);
    OwnersApart(ts[k], RootSlot, c, a, d, b);
  }

  lemma FreeNeverInUse(ts: seq<Tree>, ops: seq<Op>, k: nat, z: Zip)
    requires History(ts, ops) && k < |ts| && Whole(z) == ts[k] && IsFree(z.t)
    ensures Clear(ts[k], z.t.i.addr, z.t.i.addr + Pow2(z.t.i.cls))
  {
    Conserved(ts, ops, k, 0, 0);
    InvPlug(z.c, z.t);
    assert Relist(z.t) == z.t;
    FreeIsClear(z, z.t.i.addr, z.t.i.addr + Pow2(z.t.i.cls));
  }

  /** Until it is given up, a block stays held: its pages are on no free list. */
  lemma HeldTillGivenUp(ts: seq<Tree>, ops: seq<Op>, j: nat, k: nat, c: nat, a: nat)
    requires History(ts, ops) && j <= k < |ts| && Holds(ts[j], c, a) > 0
    requires forall i :: j <= i < k ==> Gain(ops[i], c, a) >= 0
    ensures Holds(ts[k], c, a) >= Holds(ts[j], c, a)
    decreases k
  {
    if j < k {
      HeldTillGivenUp(ts, ops, j, k - 1, c, a);
      Conserved(ts, ops, k - 1, c, a);
      StepKeeps(ts[k - 1], ops[k - 1], ts[k], c, a);
    }
  }

  // ------------------------------------------------------------ operations as steps

  /** The history ends in tree t. */
  ghost predicate Reaches(ts: seq<Tree>, ops: seq<Op>, t: Tree) {
    History(ts, ops) && ts[|ops|] == t
  }

  /** Some more steps after those of ops. */
  ghost predicate Extends(ops: seq<Op>, more: seq<Op>) {
    |ops| <= |more| && more[..|ops|] == ops
  }

  lemma OneMore(ts: seq<Tree>, ops: seq<Op>, t: Tree, op: Op, u: Tree)
    requires Reaches(ts, ops, t) && Step(t, op, u)
    ensures Reaches(ts + [u], ops + [op], u) && Extends(ops, ops + [op])
    ensures forall c: nat, a: nat :: Balance(ops + [op], c, a) == Balance(ops, c, a) + Gain(op, c, a)
  {
    hide Step, Good, Gain;
    var us, qs := ts + [u], ops + [op];
    forall k | 0 <= k < |qs| ensures Step(us[k], qs[k], us[k + 1]) {
      if k < |ops| {
        assert us[k] == ts[k] && qs[k] == ops[k] && us[k + 1] == ts[k + 1];
      }
    }
    assert qs[..|qs| - 1] == ops;
  }

  /** A refill is a step or nothing. */
  lemma RefillSteps(ts: seq<Tree>, ops: seq<Op>, t: Tree, u: Tree) returns (us: seq<Tree>, qs: seq<Op>)
    requires Reaches(ts, ops, t) && Refilled(t, u)
    ensures Reaches(us, qs, u) && Extends(ops, qs)
    ensures forall c: nat, a: nat :: Balance(qs, c, a) == Balance(ops, c, a)
  {
    hide History, Balance;
    us, qs := ts, ops;
    if t != u {
      var z: Zip, ids: seq<Ptr> :| Source(t, z, POOL_CLASS) && |ids| >= 2 * (z.t.i.cls - POOL_CLASS) &&
        u == AllocTree(z, POOL_CLASS, ids, true);
      var op := Allocate(z, POOL_CLASS, ids, true);
      OneMore(ts, ops, t, op, u);
      us, qs := ts + [u], ops + [op];
    }
  }

  /** What Allocator.Alloc ensures is a step of a history, after a refill if there was one. */
  lemma AllocSteps(ts: seq<Tree>, ops: seq<Op>, t: Tree, g: Zip, c: nat, ids: seq<Ptr>)
    returns (us: seq<Tree>, qs: seq<Op>)
    requires Reaches(ts, ops, t) && Refilled(t, Whole(g)) && Source(Whole(g), g, c) && |ids| >= 2 * (g.t.i.cls - c)
    ensures Reaches(us, qs, AllocTree(g, c, ids, false)) && Extends(ops, qs)
    ensures forall k: nat, a: nat ::
      Balance(qs, k, a) == Balance(ops, k, a) + (if (k, a) == (c, g.t.i.addr) then 1 else 0)
  {
    hide History, Balance, AllocTree, Refilled;
    us, qs := RefillSteps(ts, ops, t, Whole(g));
    var op, u := Allocate(g, c, ids, false), AllocTree(g, c, ids, false);
    OneMore(us, qs, Whole(g), op, u);
    us, qs := us + [u], qs + [op];
  }

  /** So is what Allocator.Claim ensures, if nobody uses the memory. */
  lemma ClaimSteps(ts: seq<Tree>, ops: seq<Op>, t: Tree, g: Tree, c: nat, a: nat, ids: seq<Ptr>)
    returns (us: seq<Tree>, qs: seq<Op>)
    requires Reaches(ts, ops, t) && Refilled(t, g) && IsBlock(c, a) && |ids| >= 2 * (MAX_CLASS - c)
    requires NoRefs(ClaimWalk(g, c, a, ids).t)
    ensures Reaches(us, qs, ClaimTree(g, c, a, ids)) && Extends(ops, qs)
    ensures forall k: nat, x: nat :: Balance(qs, k, x) == Balance(ops, k, x) + (if (k, x) == (c, a) then 1 else 0)
  {
    hide History, Balance, ClaimTree, ClaimWalk, Refilled, Aligned, NoRefs;
    us, qs := RefillSteps(ts, ops, t, g);
    var op, u := Claim(c, a, ids), ClaimTree(g, c, a, ids);
    OneMore(us, qs, g, op, u);
    us, qs := us + [u], qs + [op];
  }

  /** What Allocator.AttachRegion ensures is a row of steps that take and give up nothing. */
  lemma {:induction false} LeadsSteps(ts: seq<Tree>, ops: seq<Op>, t: Tree, es: seq<Attempt>, u: Tree)
    returns (us: seq<Tree>, qs: seq<Op>)
    requires Reaches(ts, ops, t) && Leads(t, es, u)
    ensures Reaches(us, qs, u) && Extends(ops, qs)
    ensures forall c: nat, a: nat :: Balance(qs, c, a) == Balance(ops, c, a)
    decreases |es|
  {
    hide History, Balance, Refilled, AttachBlock, NoRefs, Target, RootInv, Placed;
    us, qs := ts, ops;
    if es != [] {
      var n := |es| - 1;
      var before, e := es[..n], es[n];
      var w := if n > 0 then Last(before) else t;
      assert Leads(t, before, w);
      us, qs := LeadsSteps(ts, ops, t, before, w);
      us, qs := RefillSteps(us, qs, w, e.t);
      var op := AttachTo(e.b, e.ids);
      OneMore(us, qs, e.t, op, u);
      us, qs := us + [u], qs + [op];
    }
  }

  // ------------------------------------------------------------ regions and types

  /** Refilling the descriptor pool changes no type. */
  lemma RefilledQuiet(t: Tree, u: Tree)
    requires Inv(t, RootSlot) && Refilled(t, u)
    ensures SameEff(t, u)
  {
    if u != t {
      var z: Zip, ids: seq<Ptr> :| Source(t, z, POOL_CLASS) && |ids| >= 2 * (z.t.i.cls - POOL_CLASS) &&
        u == AllocTree(z, POOL_CLASS, ids, true);
      AllocFacts(t, z, POOL_CLASS, ids, true);
    }
  }

  /** Calls of attach_region one after the other are one run of attaches. */
  lemma LeadsJoin(t: Tree, es: seq<Attempt>, u: Tree, fs: seq<Attempt>, w: Tree)
    requires Leads(t, es, u) && Leads(u, fs, w)
    ensures Leads(t, es + fs, w)
  {
    hide Refilled, NoRefs, Target, AttachBlock, RootInv, Placed;
    var gs := es + fs;
    forall k | 0 <= k < |gs| ensures Sound(gs[k]) {
      assert gs[k] == if k < |es| then es[k] else fs[k - |es|];
    }
    forall k | 0 <= k < |gs| ensures Sound(gs[k]) && NoRefs(Target(gs[k].t, gs[k].b, gs[k].ids)) {
      if k < |es| {
        assert gs[k] == es[k];
      } else {
        assert gs[k] == fs[k - |es|];
      }
    }
    forall k | 0 < k < |gs| ensures Refilled(AttachBlock(gs[k - 1].t, gs[k - 1].b, gs[k - 1].ids), gs[k].t) {
      if k < |es| {
        assert gs[k] == es[k] && gs[k - 1] == es[k - 1];
      } else if k > |es| {
        assert gs[k] == fs[k - |es|] && gs[k - 1] == fs[k - |es| - 1];
      } else {
        assert gs[k] == fs[0] && gs[k - 1] == es[|es| - 1];
      }
    }
  }

  lemma LeadsIsRun(t: Tree, es: seq<Attempt>, u: Tree)
    requires Leads(t, es, u) && RootInv(t) && t.l.Nil? && t.r.Nil?
    ensures Run(es)
  {
    hide Refilled, AttachBlock, Target, Inv;
    if |es| > 0 {
      RefilledQuiet(t, es[0].t);
      UntypedQuiet(t, es[0].t);
    }
    forall k | 0 < k < |es| ensures SameEff(AttachBlock(es[k - 1].t, es[k - 1].b, es[k - 1].ids), es[k].t) {
      var e := es[k - 1];
      AttachKeeps(e.t, e.b, e.ids, 0, 0);
      RefilledQuiet(AttachBlock(e.t, e.b, e.ids), es[k].t);
    }
  }

  /** A tree with the types of a bare root is as good as one. */
  lemma UntypedQuiet(t: Tree, u: Tree)
    requires RootInv(t) && RootInv(u) && t.l.Nil? && t.r.Nil? && SameEff(t, u)
    ensures SameEff(u, Leaf(u.i))
  {
    forall m: nat, x: nat ensures EffAt(u, m, x) == EffAt(Leaf(u.i), m, x) {
      assert EffAt(t, m, x) == EffAt(u, m, x);
    }
  }

  /** What attach_region is told: pages from first up to end, and their type. */
  datatype Region = Region(first: nat, end: nat, ty: State)

  predicate Proper(r: Region) {
    r.first <= r.end <= Pow2(MAX_CLASS) && r.end - r.first < Pow2(MAX_CLASS) && r.ty != Partial
  }

  predicate In(x: nat, r: Region) {
    r.first <= x < r.end
  }

  /** A region says that page x has type ty. */
  predicate Says(rs: seq<Region>, ty: State, x: nat) {
    exists k :: 0 <= k < |rs| && rs[k].ty == ty && In(x, rs[k])
  }

  /** The type the regions give a page: reserved memory wins. */
  function Declared(rs: seq<Region>, x: nat): (ty: State) {
    if Says(rs, Reserved, x) then Reserved else if Says(rs, Allocatable, x) then Allocatable else Partial
  }

  function AllBlocks(rs: seq<Region>): (bs: seq<Block>) {
    if rs == [] then [] else Blocks(rs[0].first, rs[0].end, rs[0].ty) + AllBlocks(rs[1..])
  }

  predicate BlockSays(bs: seq<Block>, ty: State, x: nat) {
    exists k :: 0 <= k < |bs| && bs[k].ty == ty && Covers(bs[k], x)
  }

  lemma BlockSaysJoin(bs: seq<Block>, cs: seq<Block>, ty: State, x: nat)
    ensures BlockSays(bs + cs, ty, x) <==> BlockSays(bs, ty, x) || BlockSays(cs, ty, x)
  {
    var ds := bs + cs;
    if k :| 0 <= k < |bs| && bs[k].ty == ty && Covers(bs[k], x) {
      assert ds[k] == bs[k];
    }
    if k :| 0 <= k < |cs| && cs[k].ty == ty && Covers(cs[k], x) {
      assert ds[|bs| + k] == cs[k];
    }
    if k :| 0 <= k < |ds| && ds[k].ty == ty && Covers(ds[k], x) {
      assert ds[k] == if k < |bs| then bs[k] else cs[k - |bs|];
    }
  }

  lemma RegionSays(r: Region, ty: State, x: nat)
    requires r.first <= r.end
    ensures BlockSays(Blocks(r.first, r.end, r.ty), ty, x) <==> r.ty == ty && In(x, r)
  {
    hide Covers;
    var bs := Blocks(r.first, r.end, r.ty);
    BlocksTile(r.first, r.end, r.ty);
    TileCovers(bs, r.first, r.end, r.ty, x);
    forall k | 0 <= k < |bs| ensures bs[k].ty == r.ty {
      TileInside(bs, r.first, r.end, r.ty, k);
    }
  }

  /** The blocks say of a page what the regions say of it. */
  lemma {:induction false} BlocksSay(rs: seq<Region>, ty: State, x: nat)
    requires forall k :: 0 <= k < |rs| ==> Proper(rs[k])
    ensures BlockSays(AllBlocks(rs), ty, x) <==> Says(rs, ty, x)
    decreases |rs|
  {
    hide Blocks;
    if rs != [] {
      var bs := Blocks(rs[0].first, rs[0].end, rs[0].ty);
      BlocksSay(rs[1..], ty, x);
      RegionSays(rs[0], ty, x);
      BlockSaysJoin(bs, AllBlocks(rs[1..]), ty, x);
      assert forall k :: 0 < k < |rs| ==> rs[k] == rs[1..][k - 1];
      assert Says(rs, ty, x) <==> (rs[0].ty == ty && In(x, rs[0])) || Says(rs[1..], ty, x);
    }
  }

  lemma ExpectedIsDeclared(es: seq<Attempt>, rs: seq<Region>, x: nat)
    requires Carries(es, AllBlocks(rs)) && forall k :: 0 <= k < |rs| ==> Proper(rs[k])
    ensures Expected(es, x) == Declared(rs, x)
  {
    hide Covers, AllBlocks, Says;
    BlocksSay(rs, Reserved, x);
    BlocksSay(rs, Allocatable, x);
    assert ReservedBy(es, x) <==> BlockSays(AllBlocks(rs), Reserved, x);
    assert AllocatedBy(es, x) <==> BlockSays(AllBlocks(rs), Allocatable, x);
  }

  /** Calls of attach_region, one for each region: the trees in between and the attaches
      each call made. */
  ghost predicate Calls(ts: seq<Tree>, rs: seq<Region>, ess: seq<seq<Attempt>>) {
    && |ts| == |rs| + 1 && |ess| == |rs|
    && forall k :: 0 <= k < |rs| ==>
        Leads(ts[k], ess[k], ts[k + 1]) && Carries(ess[k], Blocks(rs[k].first, rs[k].end, rs[k].ty))
  }

  function Concat(ess: seq<seq<Attempt>>): (es: seq<Attempt>) {
    if ess == [] then [] else ess[0] + Concat(ess[1..])
  }

  lemma {:induction false} CallsJoin(ts: seq<Tree>, rs: seq<Region>, ess: seq<seq<Attempt>>)
    requires Calls(ts, rs, ess)
    ensures Leads(ts[0], Concat(ess), ts[|rs|]) && Carries(Concat(ess), AllBlocks(rs))
    decreases |rs|
  {
    hide Leads, Blocks;
    if rs == [] {
      LeadsNowhere(ts[0]);
    } else {
      CallsJoin(ts[1..], rs[1..], ess[1..]);
      LeadsJoin(ts[0], ess[0], ts[1], Concat(ess[1..]), ts[|rs|]);
    }
  }

  /** After any sequence of attach_region calls on a new allocator every page has the type
      the regions give it, if their blocks are orderly. */
  lemma RegionTypes(ts: seq<Tree>, rs: seq<Region>, ess: seq<seq<Attempt>>, x: nat)
    requires Calls(ts, rs, ess) && Orderly(Concat(ess)) && forall k :: 0 <= k < |rs| ==> Proper(rs[k])
    requires RootInv(ts[0]) && ts[0].l.Nil? && ts[0].r.Nil? && RootInv(ts[|rs|]) && x < Pow2(MAX_CLASS)
    ensures TypeAt(ts[|rs|], x) == Declared(rs, x)
  {
    hide Orderly, AllBlocks, Says, Inv, Dist;
    var es := Concat(ess);
    CallsJoin(ts, rs, ess);
    ExpectedIsDeclared(es, rs, x);
    if |es| > 0 {
      LeadsIsRun(ts[0], es, ts[|rs|]);
      PageTypes(es, x);
    }
  }

  // ------------------------------------------------------------ orderly regions

  predicate Disjoint(r: Region, q: Region) {
    r.end <= q.first || q.end <= r.first
  }

  /** An Allocatable region keeps off every region before it. */
  predicate KeepOff(rs: seq<Region>) {
    forall j, k :: 0 <= j < k < |rs| && rs[k].ty == Allocatable ==> Disjoint(rs[j], rs[k])
  }

  /** Each block lies in a region of its type. */
  lemma {:induction false} BlockOrigin(rs: seq<Region>, j: nat) returns (k: nat)
    requires j < |AllBlocks(rs)| && forall i :: 0 <= i < |rs| ==> Proper(rs[i])
    ensures k < |rs| && AllBlocks(rs)[j].ty == rs[k].ty
    ensures rs[k].first <= AllBlocks(rs)[j].addr
    ensures AllBlocks(rs)[j].addr + Pow2(AllBlocks(rs)[j].cls) <= rs[k].end
    decreases |rs|
  {
    hide Blocks;
    var r := rs[0];
    var bs := Blocks(r.first, r.end, r.ty);
    BlocksTile(r.first, r.end, r.ty);
    if j < |bs| {
      TileInside(bs, r.first, r.end, r.ty, j);
      k := 0;
    } else {
      k := BlockOrigin(rs[1..], j - |bs|);
      k := k + 1;
    }
  }

  lemma {:induction false} BlocksKeepOff(rs: seq<Region>, i: nat, j: nat)
    requires KeepOff(rs) && forall k :: 0 <= k < |rs| ==> Proper(rs[k])
    requires i < j < |AllBlocks(rs)| && AllBlocks(rs)[j].ty == Allocatable
    ensures Apart(AllBlocks(rs)[i], AllBlocks(rs)[j])
    decreases |rs|
  {
    hide Blocks, Pow2;
    var r := rs[0];
    var bs := Blocks(r.first, r.end, r.ty);
    BlocksTile(r.first, r.end, r.ty);
    if j < |bs| {
      TileApart(bs, r.first, r.end, r.ty, i, j);
    } else if i < |bs| {
      TileInside(bs, r.first, r.end, r.ty, i);
      var k := BlockOrigin(rs[1..], j - |bs|);
      assert Disjoint(rs[0], rs[k + 1]);
    } else {
      BlocksKeepOff(rs[1..], i - |bs|, j - |bs|);
    }
  }

  lemma KeepOffOrderly(es: seq<Attempt>, rs: seq<Region>)
    requires Carries(es, AllBlocks(rs)) && KeepOff(rs) && forall k :: 0 <= k < |rs| ==> Proper(rs[k])
    ensures Orderly(es)
  {
    hide AllBlocks, KeepOff, Apart, Inside, Proper;
    forall j | 0 <= j < |es| && es[j].b.ty == Allocatable
      ensures forall i :: 0 <= i < j ==> Apart(es[i].b, es[j].b)
    {
      forall i | 0 <= i < j ensures Apart(es[i].b, es[j].b) {
        BlocksKeepOff(rs, i, j);
      }
    }
  }

  /** So regions of which no Allocatable one meets an earlier one type every page as they
      say, however reserved ones overlap. */
  lemma OrderlyRegionTypes(ts: seq<Tree>, rs: seq<Region>, ess: seq<seq<Attempt>>, x: nat)
    requires Calls(ts, rs, ess) && KeepOff(rs) && forall k :: 0 <= k < |rs| ==> Proper(rs[k])
    requires RootInv(ts[0]) && ts[0].l.Nil? && ts[0].r.Nil? && RootInv(ts[|rs|]) && x < Pow2(MAX_CLASS)
    ensures TypeAt(ts[|rs|], x) == Declared(rs, x)
  {
    hide AllBlocks, Says, Inv, Dist, Calls, KeepOff, Apart, RootInv, Declared, Orderly, Leads;
    CallsJoin(ts, rs, ess);
    KeepOffOrderly(Concat(ess), rs);
    RegionTypes(ts, rs, ess, x);
  }
}
