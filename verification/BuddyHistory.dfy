/**
 Over whole runs: which steps change the type of a page, and when the tree stays
 coalesced.
 */
module BuddyHistory {
  import opened Arith
  import opened BuddyTree
  import opened BuddyOps
  import opened BuddyLookup
  import opened BuddyTypes
  import opened BuddyOrder
  import opened BuddyLoss
  import opened BuddyLive
  import opened BuddyPool
  import opened BuddySteps
  import opened BuddyCoalesce
  import opened BuddyClaim
  import opened BuddyTyped
  import opened BuddyRuns

  /** A claim of memory with no type. */
  predicate Untypes(t: Tree, op: Op) {
    op.Claim? && op.c <= MAX_CLASS && EffAt(t, MAX_CLASS - op.c, op.a) == Partial
  }

  lemma StepTyped(t: Tree, op: Op, u: Tree)
    requires Good(t) && BuddyRuns.Step(t, op, u) && HeldTyped(t) && !Untypes(t, op)
    ensures HeldTyped(u)
  {
    hide Inv, CInv, Excl, Lookup, HeldTyped, RefSub, UnrefTree, ClaimTree, AllocTree, NoRefs, AttachBlock, EffAt;
    match op
    case Allocate(z, k, ids, pool) => AllocTyped(t, z, k, ids, pool);
    case Claim(k, x, ids) => ClaimTyped(t, k, x, ids);
    case Share(z) => ShareTyped(z);
    case GiveUp(z) => UnrefTyped(z);
    case AttachTo(b, ids) => AttachTyped(t, b, ids);
  }

  lemma ShareTyped(z: Zip)
    requires z.t.Node? && z.t.i.held > 0 && HeldTyped(Whole(z))
    ensures HeldTyped(RefTree(z))
  {
    HeldTypedPlug(z.c, z.t);
    HoldTyped(z, false);
  }

  /** Only an attach changes the type of a page. */
  lemma StepTypes(t: Tree, op: Op, u: Tree, x: nat)
    requires Good(t) && BuddyRuns.Step(t, op, u) && HeldTyped(t) && !op.AttachTo? && x < Pow2(MAX_CLASS)
    ensures TypeAt(u, x) == TypeAt(t, x)
  {
    hide Inv, CInv, Excl, Lookup, HeldTyped, RefSub, UnrefTree, ClaimTree, AllocTree, NoRefs, TypeAt, EffAt, Pow2;
    StepKeeps(t, op, u, 0, 0);
    match op
    case Allocate(z, k, ids, pool) =>
      AllocFacts(t, z, k, ids, pool);
      TypesOf(t, u, x);
    case Claim(k, a, ids) =>
      ClaimKeeps(t, k, a, ids);
      TypesOf(t, u, x);
    case Share(z) =>
      ShareQuiet(z);
      TypesOf(t, u, x);
    case GiveUp(z) =>
      UnrefTyped(z);
      InvPlug(z.c, z.t);
      GiveUpTypes(z, x);
  }

  lemma GiveUpTypes(z: Zip, x: nat)
    requires ZInv(z) && z.t.i.held > 0 && z.t.i.st != Partial && x < Pow2(MAX_CLASS)
    ensures TypeAt(UnrefTree(z), x) == TypeAt(Whole(z), x)
  {
    hide TypeAt, Pow2;
    TypedUnrefKeepsTypes(z, x);
  }

  lemma ShareQuiet(z: Zip)
    requires z.t.Node? && Good(Whole(z))
    ensures SameEff(Whole(z), RefTree(z))
  {
    hide Excl, RefSub, Inv, CInv;
    RefSubInfo(z.t);
    InvPlug(z.c, z.t);
    RefQuiet(z.t);
    HoldQuiet(z.t, RefSub(z.t), false);
    FInvNodes(z);
    SameEffPlug(z.c, z.t, Hold(RefSub(z.t), false));
  }

  lemma TypesOf(t: Tree, u: Tree, x: nat)
    requires Untyped(t) && Untyped(u) && SameEff(t, u) && x < Pow2(MAX_CLASS)
    ensures TypeAt(u, x) == TypeAt(t, x)
  {
    hide Inv, TypeAt, EffAt, Pow2, Aligned;
    StartsWell(t);
    StartsWell(u);
    RootAligned();
    TypeIsEff(t, RootSlot, x, MAX_CLASS);
    TypeIsEff(u, RootSlot, x, MAX_CLASS);
  }

  // ------------------------------------------------------------ histories

  /** No claim of memory with no type among the first k steps. */
  ghost predicate ClaimsTyped(ts: seq<Tree>, ops: seq<Op>, k: nat) {
    k <= |ops| <= |ts| && forall i :: 0 <= i < k ==> !Untypes(ts[i], ops[i])
  }

  lemma {:induction false} StaysTyped(ts: seq<Tree>, ops: seq<Op>, k: nat)
    requires History(ts, ops) && HeldTyped(ts[0]) && k < |ts| && ClaimsTyped(ts, ops, k)
    ensures HeldTyped(ts[k])
    decreases k
  {
    hide Good, HeldTyped, Untypes, BuddyRuns.Step;
    if k > 0 {
      StaysTyped(ts, ops, k - 1);
      Conserved(ts, ops, k - 1, 0, 0);
      StepTyped(ts[k - 1], ops[k - 1], ts[k]);
    }
  }

  /** From a new allocator on, as long as nobody claims memory with no type, the only steps
      that change the type of any page are those of attach_region. */
  lemma OnlyAttachTypes(ts: seq<Tree>, ops: seq<Op>, k: nat, x: nat)
    requires History(ts, ops) && IsFree(ts[0]) && k < |ops| && ClaimsTyped(ts, ops, k)
    requires !ops[k].AttachTo? && x < Pow2(MAX_CLASS)
    ensures TypeAt(ts[k + 1], x) == TypeAt(ts[k], x)
  {
    hide Good, Untypes, BuddyRuns.Step, TypeAt, Pow2;
    FreeTyped(ts[0]);
    StaysTyped(ts, ops, k);
    Conserved(ts, ops, k, 0, 0);
    StepTypes(ts[k], ops[k], ts[k + 1], x);
  }

  lemma FreeTyped(t: Tree)
    requires IsFree(t) && Good(t)
    ensures HeldTyped(t)
  {
    assert HeldTyped(t.l) && HeldTyped(t.r);
  }

  /** An attach of memory that is of the type already and has no node of its own. */
  predicate Splits(t: Tree, op: Op) {
    op.AttachTo? && StateOf(t, op.b) == op.b.ty && !HasNode(t, Levels(op.b), op.b.addr)
  }

  lemma StepCoalesced(t: Tree, op: Op, u: Tree)
    requires Good(t) && BuddyRuns.Step(t, op, u) && Coalesced(t)
    ensures Coalesced(u) <==> !Splits(t, op)
  {
    hide Inv, CInv, Excl, Lookup, RefSub, UnrefTree, ClaimTree, AllocTree, NoRefs, Coalesced, HasNode, AttachBlock;
    hide EffAt;
    match op
    case Allocate(z, k, ids, pool) => AllocFacts(t, z, k, ids, pool);
    case Claim(k, a, ids) => ClaimKeeps(t, k, a, ids);
    case Share(z) => ShareCoalesced(z);
    case GiveUp(z) =>
      InvPlug(z.c, z.t);
      GiveUpCoalesced(z);
    case AttachTo(b, ids) => AttachCoalescedIff(t, b, ids);
  }

  lemma GiveUpCoalesced(z: Zip)
    requires ZInv(z) && z.t.i.held > 0 && Coalesced(Whole(z))
    ensures Coalesced(UnrefTree(z))
  {
    hide Coalesced;
    UnrefCoalesced(z);
  }

  lemma ShareCoalesced(z: Zip)
    requires z.t.Node? && Good(Whole(z)) && Coalesced(Whole(z))
    ensures Coalesced(RefTree(z))
  {
    hide Excl, RefSub, Inv, CInv, Coalesced;
    RefSubInfo(z.t);
    InvPlug(z.c, z.t);
    FInvNodes(z);
    CoalescedPlug(z.c, z.t);
    RefSubCoalesced(z.t);
    HoldCoalesced(z.t, RefSub(z.t));
    CoalescedPlug(z.c, Hold(RefSub(z.t), false));
  }

  /** In every state of a history from a new allocator there are no two free buddies left
      unmerged, until memory is attached once more as what it is. */
  lemma {:induction false} StaysCoalesced(ts: seq<Tree>, ops: seq<Op>, k: nat)
    requires History(ts, ops) && IsFree(ts[0]) && k < |ts|
    requires forall i :: 0 <= i < k ==> !Splits(ts[i], ops[i])
    ensures Coalesced(ts[k])
    decreases k
  {
    hide Good, Splits, BuddyRuns.Step;
    if k > 0 {
      hide Coalesced;
      StaysCoalesced(ts, ops, k - 1);
      Conserved(ts, ops, k - 1, 0, 0);
      StepCoalesced(ts[k - 1], ops[k - 1], ts[k]);
    }
  }
}
