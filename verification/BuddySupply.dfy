/**
 What a refill of the descriptor pool adds, read off the tree: the block it would take is
 the first one of the lowest class that has a free block in boot memory.
 */
module BuddySupply {
  import opened Arith
  import opened BuddyTree
  import opened BuddyOrder
  import opened BuddyPool
  import opened BuddyRep
  import opened BuddySteps

  /** What a refill from a block of class k comes to: a pool of descriptors, less two for
      each time the block is split. */
  function Net(k: nat): (n: int) {
    POOL_ENTRIES - 2 * (k - POOL_CLASS)
  }

  /** There is a free Allocatable block of class c in which a pool may be put. */
  predicate HasLow(t: Tree, c: nat) {
    t.Node? &&
    (|| (t.i.st == Allocatable && IsFree(t) && t.i.cls == c && InBoot(t.i.addr, POOL_CLASS))
     || HasLow(t.l, c) || HasLow(t.r, c))
  }

  /** The lowest class from k on that has one, MAX_CLASS if there is none. */
  function LowClass(t: Tree, k: nat): (c: nat)
    requires k <= MAX_CLASS
    ensures k <= c <= MAX_CLASS && (c < MAX_CLASS ==> HasLow(t, c)) && forall j :: k <= j < c ==> !HasLow(t, j)
    decreases MAX_CLASS - k
  {
    if k == MAX_CLASS || HasLow(t, k) then k else LowClass(t, k + 1)
  }

  /** The free descriptors one refill adds. */
  function PoolGain(t: Tree): (n: nat) {
    var k := LowClass(t, POOL_CLASS);
    if k < MAX_CLASS then Net(k) else 0
  }

  lemma {:induction false} LowIs(v: View, t: Tree, par: Ptr, c: nat)
    requires Rep(v, t, par)
    ensures HasLow(t, c) <==>
      exists p :: p in FreeLeaves(t, c) && p in v.mem && InBoot(v.mem[p].addr, POOL_CLASS)
    decreases t
  {
    hide Pow2;
    if t.Node? {
      LowIs(v, t.l, t.i.p, c);
      LowIs(v, t.r, t.i.p, c);
    }
  }

  /** The attaches es, made for the first blocks of bs, lead to tree u, and n free
      descriptors there are too few for the next block, with a refill or without. */
  ghost predicate ShortAt(t: Tree, es: seq<Attempt>, u: Tree, n: nat, bs: seq<Block>) {
    && Leads(t, es, u) && |es| < |bs| && Carries(es, bs[..|es|])
    && n + PoolGain(u) < 2 * (MAX_CLASS - bs[|es|].cls + 1)
  }
}
