/**
 Who owns which memory: a free node overlaps nothing that is referenced, and as long as
 references are taken by allocating or on blocks already held, the blocks in use are
 pairwise disjoint.
 */
module BuddyLive {
  import opened Arith
  import opened BuddyTree
  import opened BuddyOps
  import opened BuddyLookup

  predicate Away(i: Info, lo: nat, hi: nat) {
    i.addr + Pow2(i.cls) <= lo || hi <= i.addr
  }

  /** No referenced node of t overlaps [lo, hi). */
  predicate Clear(t: Tree, lo: nat, hi: nat) {
    t.Node? ==> (t.i.refc > 0 ==> Away(t.i, lo, hi)) && Clear(t.l, lo, hi) && Clear(t.r, lo, hi)
  }

  predicate CClear(c: Ctx, lo: nat, hi: nat) {
    c.Down? ==> (c.i.refc > 0 ==> Away(c.i, lo, hi)) && Clear(c.sib, lo, hi) && CClear(c.up, lo, hi)
  }

  lemma {:induction false} ClearPlug(c: Ctx, t: Tree, lo: nat, hi: nat)
    ensures Clear(Plug(c, t), lo, hi) <==> CClear(c, lo, hi) && Clear(t, lo, hi)
    decreases c
  {
    if c.Down? {
      ClearPlug(c.up, Fill(c.right, c.i, c.sib, t), lo, hi);
    }
  }

  /** What lies in a block apart from [lo, hi) is clear of it. */
  lemma {:induction false} ApartClear(t: Tree, s: Slot, lo: nat, hi: nat)
    requires Inv(t, s) && s.cls >= 0
    requires s.addr + Pow2(s.cls) <= lo || hi <= s.addr
    ensures Clear(t, lo, hi)
    decreases t
  {
    if t.Node? && t.i.cls > 0 {
      ApartClear(t.l, KidSlot(t.i, false), lo, hi);
      ApartClear(t.r, KidSlot(t.i, true), lo, hi);
    }
  }

  lemma {:induction false} HoleClear(c: Ctx, lo: nat, hi: nat)
    requires CInv(c) && !HoleSlot(c).ref
    requires HoleSlot(c).addr <= lo
    requires hi <= HoleSlot(c).addr + Pow2(if HoleSlot(c).cls >= 0 then HoleSlot(c).cls else 0)
    ensures CClear(c, lo, hi)
    decreases c
  {
    if c.Down? {
      ApartClear(c.sib, KidSlot(c.i, !c.right), lo, hi);
      HoleClear(c.up, lo, hi);
    }
  }

  /** Nothing that is referenced overlaps an unreferenced leaf, so what alloc_page returns
      overlaps no block in use. */
  lemma FreeIsClear(z: Zip, lo: nat, hi: nat)
    requires z.t.Node? && CInv(z.c) && Inv(Relist(z.t), HoleSlot(z.c)) && IsFree(z.t)
    requires z.t.i.addr <= lo && hi <= z.t.i.addr + Pow2(z.t.i.cls)
    ensures Clear(Whole(z), lo, hi)
  {
    HoleClear(z.c, lo, hi);
    ClearPlug(z.c, z.t, lo, hi);
  }

  // ------------------------------------------------------------ disjoint owners

  /** No node that is directly referenced lies below another one. */
  predicate Excl(t: Tree, above: bool) {
    t.Node? ==>
      && (above ==> Direct(t.i) == 0)
      && Excl(t.l, above || Direct(t.i) > 0) && Excl(t.r, above || Direct(t.i) > 0)
  }

  predicate Above(c: Ctx) {
    c.Down? && (Direct(c.i) > 0 || Above(c.up))
  }

  predicate CExcl(c: Ctx) {
    c.Down? ==> (Above(c.up) ==> Direct(c.i) == 0) && Excl(c.sib, Above(c)) && CExcl(c.up)
  }

  lemma {:induction false} ExclPlug(c: Ctx, t: Tree)
    ensures Excl(Plug(c, t), false) <==> CExcl(c) && Excl(t, Above(c))
    decreases c
  {
    if c.Down? {
      ExclPlug(c.up, Fill(c.right, c.i, c.sib, t));
    }
  }

  lemma {:induction false} UnreferencedNotBelow(c: Ctx)
    requires CInv(c) && !HoleSlot(c).ref
    ensures !Above(c)
    decreases c
  {
    if c.Down? {
      UnreferencedNotBelow(c.up);
    }
  }

  lemma EnterExcl(z: Zip, right: bool, ty: State, ids: seq<Ptr>)
    requires z.t.Node? && z.t.i.cls > 0 && |ids| >= 2 && (z.t.l.Node? <==> z.t.r.Node?)
    requires CExcl(z.c) && Excl(z.t, Above(z.c))
    ensures var r := Enter(z, right, ty, ids); CExcl(r.c) && Excl(r.t, Above(r.c))
  {
    var g := Grow(z.t, ids);
    var below := Above(z.c) || Direct(z.t.i) > 0;
    assert Excl(g.l, below) && Excl(g.r, below);
  }

  lemma {:induction false} LookupExcl(z: Zip, n: nat, a: nat, ty: State, ids: seq<Ptr>)
    requires FInv(z) && n <= z.t.i.cls && |ids| >= 2 * n && Attachable(z.c, ty)
    requires CExcl(z.c) && Excl(z.t, Above(z.c))
    ensures var r := Lookup(z, n, a, ty, ids); CExcl(r.c) && Excl(r.t, Above(r.c))
    decreases n
  {
    hide Inv, CInv, Bit, Excl, CExcl, Enter;
    if n > 0 {
      StepInv(z, a, ty, ids);
      FocusPair(z);
      EnterExcl(z, Bit(a, z.t.i.cls - 1), ty, ids);
      LookupExcl(Step(z, a, ty, ids), n - 1, a, ty, Rest(z.t, ids));
    }
  }

  lemma {:induction false} RefSubExcl(t: Tree, above: bool)
    requires Excl(t, above)
    ensures Excl(RefSub(t), above)
    decreases t
  {
    if t.Node? {
      RefSubExcl(t.l, above || Direct(t.i) > 0);
      RefSubExcl(t.r, above || Direct(t.i) > 0);
    }
  }

  /** Allocating a block and referencing it keeps the owners apart. */
  lemma AllocExcl(z: Zip, n: nat, a: nat, ids: seq<Ptr>, pool: bool)
    requires FInv(z) && n <= z.t.i.cls && |ids| >= 2 * n && IsFree(z.t)
    requires Excl(Whole(z), false)
    ensures var r := Lookup(z, n, a, Partial, ids);
      r.t.Node? && Excl(Plug(r.c, Hold(RefSub(r.t), pool)), false)
  {
    hide Inv, CInv, Bit, Lookup, Plug, CExcl;
    ExclPlug(z.c, z.t);
    LookupExcl(z, n, a, Partial, ids);
    LookupInv(z, n, a, Partial, ids);
    LookupFree(z, n, a, ids);
    var r := Lookup(z, n, a, Partial, ids);
    FreeUnheld(r);
    UnreferencedNotBelow(r.c);
    ExclPlug(r.c, Hold(RefSub(r.t), pool));
  }

  lemma {:induction false} LookupFree(z: Zip, n: nat, a: nat, ids: seq<Ptr>)
    requires FInv(z) && n <= z.t.i.cls && |ids| >= 2 * n && IsFree(z.t)
    ensures IsFree(Lookup(z, n, a, Partial, ids).t)
    decreases n
  {
    if n > 0 {
      StepInv(z, a, Partial, ids);
      LookupFree(Step(z, a, Partial, ids), n - 1, a, Rest(z.t, ids));
    }
  }

  /** Another reference on a block already held keeps the owners apart. */
  lemma RefExcl(z: Zip)
    requires z.t.Node? && z.t.i.held > 0 && Excl(Whole(z), false)
    ensures Excl(Plug(z.c, Hold(RefSub(z.t), false)), false)
  {
    ExclPlug(z.c, z.t);
    RefSubExcl(z.t, Above(z.c));
    ExclPlug(z.c, Hold(RefSub(z.t), false));
  }

  lemma {:induction false} ExclMono(t: Tree, above: bool, below: bool)
    requires Excl(t, above) && (below ==> above)
    ensures Excl(t, below)
    decreases t
  {
    if t.Node? {
      ExclMono(t.l, above || Direct(t.i) > 0, below || Direct(t.i) > 0);
      ExclMono(t.r, above || Direct(t.i) > 0, below || Direct(t.i) > 0);
    }
  }

  lemma {:induction false} UnrefSubExcl(t: Tree, above: bool)
    requires Excl(t, above)
    ensures Excl(UnrefSub(t), above)
    decreases t
  {
    if t.Node? {
      UnrefSubExcl(t.l, above || Direct(t.i) > 0);
      UnrefSubExcl(t.r, above || Direct(t.i) > 0);
    }
  }

  lemma {:induction false} MergeExcl(z: Zip)
    requires CExcl(z.c) && Excl(z.t, Above(z.c))
    ensures Excl(Whole(Merge(z)), false)
    decreases z.c
  {
    if z.c.Down? && IsFree(z.t) && IsFree(z.c.sib) && z.c.i.st == z.t.i.st {
      MergeExcl(Zip(z.c.up, Leaf(z.c.i.(listed := z.c.i.st == Allocatable))));
    } else {
      ExclPlug(z.c, z.t);
    }
  }

  /** Releasing a reference keeps the owners apart. */
  lemma UnrefExcl(z: Zip)
    requires z.t.Node? && z.t.i.held > 0 && Excl(Whole(z), false)
    ensures Excl(Whole(Unref(Zip(z.c, Release(z.t)))), false)
  {
    ExclPlug(z.c, z.t);
    var t1 := Release(z.t);
    ExclMono(z.t.l, true, Direct(t1.i) > 0 || Above(z.c));
    ExclMono(z.t.r, true, Direct(t1.i) > 0 || Above(z.c));
    UnrefSubExcl(t1, Above(z.c));
    MergeExcl(Zip(z.c, UnrefSub(t1)));
  }

  /** A block that is held somewhere in t lies inside t's block. */
  lemma {:induction false} HeldInside(t: Tree, s: Slot, c: nat, a: nat, above: bool)
    requires Inv(t, s) && s.cls >= 0 && Holds(t, c, a) > 0
    requires Excl(t, above)
    ensures s.addr <= a && a + Pow2(c) <= s.addr + Pow2(s.cls) && !above
    decreases t
  {
    var ab := above || Direct(t.i) > 0;
    if Own(t.i, c, a) > 0 {
    } else if Holds(t.l, c, a) > 0 {
      HeldInside(t.l, KidSlot(t.i, false), c, a, ab);
    } else {
      HeldInside(t.r, KidSlot(t.i, true), c, a, ab);
    }
  }

  /** Two different blocks that clients hold do not overlap. */
  lemma {:induction false} OwnersApart(t: Tree, s: Slot, c: nat, a: nat, d: nat, b: nat)
    requires Inv(t, s) && s.cls >= 0 && Excl(t, false)
    requires Holds(t, c, a) > 0 && Holds(t, d, b) > 0 && (c, a) != (d, b)
    ensures a + Pow2(c) <= b || b + Pow2(d) <= a
    decreases t
  {
    var ls, rs := KidSlot(t.i, false), KidSlot(t.i, true);
    var ab := Direct(t.i) > 0;
    if t.l.Nil? {
    } else if Own(t.i, c, a) > 0 || Own(t.i, d, b) > 0 {
      if Holds(t.l, c, a) > 0 { HeldInside(t.l, ls, c, a, ab); }
      if Holds(t.r, c, a) > 0 { HeldInside(t.r, rs, c, a, ab); }
      if Holds(t.l, d, b) > 0 { HeldInside(t.l, ls, d, b, ab); }
      if Holds(t.r, d, b) > 0 { HeldInside(t.r, rs, d, b, ab); }
    } else if Holds(t.l, c, a) > 0 && Holds(t.l, d, b) > 0 {
      ExclMono(t.l, ab, false);
      OwnersApart(t.l, ls, c, a, d, b);
    } else if Holds(t.r, c, a) > 0 && Holds(t.r, d, b) > 0 {
      ExclMono(t.r, ab, false);
      OwnersApart(t.r, rs, c, a, d, b);
    } else if Holds(t.l, c, a) > 0 {
      HeldInside(t.l, ls, c, a, ab);
      HeldInside(t.r, rs, d, b, ab);
    } else {
      HeldInside(t.r, rs, c, a, ab);
      HeldInside(t.l, ls, d, b, ab);
    }
  }
}
