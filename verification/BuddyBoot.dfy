/**
 Descriptor pools and the early page tables: the memory a refill takes, and every
 descriptor in it, can be reached from the kernel's base before any other memory is mapped.
 */
module BuddyBoot {
  import opened Arith
  import opened BuddyTree
  import opened BuddyPool
  import opened Buddy
  import opened BootMap

  /** The byte of physical memory at x is where the kernel looks for it, and can be written, with
      the tables of early boot at b. */
  ghost predicate Reached(b: nat, x: nat)
    requires Linked(BootStore(b))
  {
    Translate(BootStore(b), 0x80_4000_0000 + x) == To(x, true, false)
  }

  /** BOOT_MEM_SIZE is what the early tables map: a block lies in boot memory exactly if each of
      its bytes, and the one behind it, can be reached. */
  lemma InBootIff(b: nat, a: nat, c: nat)
    requires b > 0 && b % 4096 == 0 && b + 11 * 4096 < HALF64 && 4096 * (a + Pow2(c)) < 0x7F_C000_0000
    ensures Linked(BootStore(b))
    ensures InBoot(a, c) <==> forall x: nat :: 4096 * a <= x <= 4096 * (a + Pow2(c)) ==> Reached(b, x)
  {
    hide Linked, BootStore, Translate;
    forall x: nat | x < 0x7F_C000_0000 ensures Linked(BootStore(b)) && (Reached(b, x) <==> x < 0x4000_0000) {
      BootReach(b, x);
    }
    BootReach(b, 0);
    var last := 4096 * (a + Pow2(c));
    assert Reached(b, last) <==> last < 0x4000_0000;
  }

  /** A refill takes memory that can be reached. */
  lemma RefillReached(b: nat, t: Tree, u: Tree) returns (z: Zip, ids: seq<Ptr>)
    requires b > 0 && b % 4096 == 0 && b + 11 * 4096 < HALF64 && Refilled(t, u) && t != u
    ensures Source(t, z, POOL_CLASS) && |ids| >= 2 * (z.t.i.cls - POOL_CLASS)
    ensures u == AllocTree(z, POOL_CLASS, ids, true) && Linked(BootStore(b))
    ensures forall x: nat :: 4096 * z.t.i.addr <= x < 4096 * z.t.i.addr + 8192 ==> Reached(b, x)
  {
    hide Linked, BootStore, AllocTree, Reached;
    z, ids :| Source(t, z, POOL_CLASS) && InBoot(z.t.i.addr, POOL_CLASS) &&
      |ids| >= 2 * (z.t.i.cls - POOL_CLASS) && u == AllocTree(z, POOL_CLASS, ids, true);
    assert Pow2(1) == 2;
    InBootIff(b, z.t.i.addr, POOL_CLASS);
  }

  /** A pool is a header of 16 bytes and as many records of 64 bytes as its page holds. */
  lemma PoolFull()
    ensures 4096 * Pow2(POOL_CLASS) == 8192 && 16 + 64 * POOL_ENTRIES <= 8192 < 16 + 64 * (POOL_ENTRIES + 1)
  {
    assert Pow2(1) == 2;
  }

  /** In every state of the allocator each byte of each descriptor in a pool can be reached. */
  lemma DescriptorReached(m: Allocator, b: nat, a: nat, k: nat, x: nat)
    requires m.Valid() && Pooled(a, k) in m.all && b > 0 && b % 4096 == 0 && b + 11 * 4096 < HALF64
    requires 4096 * a + 16 + 64 * k <= x < 4096 * a + 16 + 64 * (k + 1)
    ensures x < 4096 * a + 8192 && Linked(BootStore(b)) && Reached(b, x)
  {
    hide m.At, Linked, BootStore, Reached;
    assert InBoot(a, POOL_CLASS) && k < POOL_ENTRIES;
    PoolFull();
    InBootIff(b, a, POOL_CLASS);
  }
}
