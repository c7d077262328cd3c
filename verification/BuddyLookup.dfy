/**
 The descent of page_lookup with allocation, attaching memory at the node it reaches, and
 the round trip of allocating and releasing.
 */
module BuddyLookup {
  import opened Arith
  import opened BuddyTree
  import opened BuddyOps

  /** alloc_child: a new leaf for one half, typed and referenced like its parent. */
  function Fresh(i: Info, right: bool, p: Ptr): (t: Tree)
    requires i.cls > 0
  {
    var s := KidSlot(i, right);
    Leaf(Info(p, i.st, if s.ref then 1 else 0, i.cls - 1, s.addr, false, 0, false))
  }

  function Grow(t: Tree, ids: seq<Ptr>): (g: Tree)
    requires t.Node? && t.i.cls > 0 && |ids| >= 2
  {
    if t.l.Nil? then Node(t.i, Fresh(t.i, false, ids[0]), Fresh(t.i, true, ids[1])) else t
  }

  function Listed(t: Tree): (u: Tree) {
    if t.Nil? then Nil else t.(i := t.i.(listed := true))
  }

  /** The state a node on the way down is left with. */
  function PathState(st: State, ty: State): (r: State) {
    if ty != Partial && st != ty then Partial else st
  }

  /** One turn of the loop: split the node if it has no children; if it was free, take it
      off its list and list the half not entered; retype it; enter the half of address a. */
  function Step(z: Zip, a: nat, ty: State, ids: seq<Ptr>): (r: Zip)
    requires z.t.Node? && z.t.i.cls > 0 && |ids| >= 2
  {
    Enter(z, Bit(a, z.t.i.cls - 1), ty, ids)
  }

  function Enter(z: Zip, right: bool, ty: State, ids: seq<Ptr>): (r: Zip)
    requires z.t.Node? && z.t.i.cls > 0 && |ids| >= 2
  {
    var was := z.t.i.st == Allocatable && IsFree(z.t);
    var g := Grow(z.t, ids);
    var other := if right then g.l else g.r;
    var i := z.t.i.(listed := !was && z.t.i.listed, st := PathState(z.t.i.st, ty));
    Zip(Down(i, right, if was then Listed(other) else other, z.c), if right then g.r else g.l)
  }

  function Rest(t: Tree, ids: seq<Ptr>): (r: seq<Ptr>)
    requires t.Node? && |ids| >= 2
    ensures |ids| - 2 <= |r| <= |ids|
  {
    if t.l.Nil? then ids[2..] else ids
  }

  /** n levels down towards address a, taking new descriptors from ids in order. */
  function Lookup(z: Zip, n: nat, a: nat, ty: State, ids: seq<Ptr>): (r: Zip)
    requires |ids| >= 2 * n
    decreases n
  {
    if n == 0 || z.t.Nil? || z.t.i.cls == 0 then z
    else Lookup(Step(z, a, ty, ids), n - 1, a, ty, Rest(z.t, ids))
  }

  /** The invariant while the node in focus may be off its free list. */
  predicate FInv(z: Zip) {
    && z.t.Node? && CInv(z.c) && Inv(Relist(z.t), HoleSlot(z.c))
    && (z.t.i.listed ==> Relist(z.t).i.listed)
  }

  lemma FreeUnheld(z: Zip)
    requires FInv(z) && IsFree(z.t)
    ensures z.t.i.held == 0 && !z.t.i.pool && (z.t.i.listed ==> z.t.i.refc == 0) && !HoleSlot(z.c).ref
  {
  }

  lemma FocusPair(z: Zip)
    requires FInv(z)
    ensures Inv(Relist(z.t), HoleSlot(z.c))
    ensures z.t.l.Node? <==> z.t.r.Node?
    ensures z.t.i.listed ==> z.t.i.st == Allocatable && IsFree(z.t)
    ensures z.t.Node? && CInv(z.c)
    ensures InfoOk(z.t.i, HoleSlot(z.c))
  {
  }

  /** While memory is attached, the nodes above the focus are Partial or of the new type. */
  predicate Attachable(c: Ctx, ty: State) {
    ty == Partial || HoleSlot(c).st == Partial || HoleSlot(c).st == ty
  }

  lemma Untype(t: Tree, s: Slot)
    requires Inv(t, s)
    ensures Inv(t, s.(st := Partial))
  {
  }

  lemma LeafInv(i: Info, s: Slot)
    requires InfoOk(i, s) && (i.listed <==> i.st == Allocatable && i.refc == 0)
    ensures Inv(Leaf(i), s)
  {
  }

  /** Both halves satisfy what their parent asks for, counting the half that is entered
      as off its list and the other one as listed by the step. */
  lemma GrowInv(t: Tree, s: Slot, ids: seq<Ptr>, right: bool)
    requires t.Node? && t.i.cls > 0 && |ids| >= 2 && Inv(Relist(t), s)
    requires t.i.listed ==> Relist(t).i.listed
    ensures var was := t.i.st == Allocatable && IsFree(t);
      var g := Grow(t, ids);
      var kid, sib := if right then g.r else g.l, if right then g.l else g.r;
      && kid.Node? && sib.Node?
      && Inv(Relist(kid), KidSlot(t.i, right)) && (kid.i.listed ==> Relist(kid).i.listed)
      && Inv(if was then Listed(sib) else sib, KidSlot(t.i, !right))
  {
    var g := Grow(t, ids);
    if t.l.Nil? {
      LeafInv(Relist(g.l).i, KidSlot(t.i, false));
      LeafInv(Relist(g.r).i, KidSlot(t.i, true));
    } else {
      assert Inv(g.l, KidSlot(t.i, false));
      assert Inv(g.r, KidSlot(t.i, true));
    }
  }

  lemma EnterInv(z: Zip, right: bool, ty: State, ids: seq<Ptr>)
    requires FInv(z) && z.t.i.cls > 0 && |ids| >= 2 && Attachable(z.c, ty)
    ensures var s := Enter(z, right, ty, ids);
      FInv(s) && Attachable(s.c, ty) && s.t.i.cls == z.t.i.cls - 1
      && s.t.i.addr == z.t.i.addr + (if right then Pow2(z.t.i.cls - 1) else 0)
  {
    hide Inv, CInv, FInv, Attachable, Grow, Pow2;
    FocusPair(z);
    GrowInv(z.t, HoleSlot(z.c), ids, right);
    var s := Enter(z, right, ty, ids);
    EnterHalf(z, right, ty, s);
  }

  /** Entering a half that is in order, under a node retyped on the way. */
  lemma EnterHalf(z: Zip, right: bool, ty: State, s: Zip)
    requires FInv(z) && z.t.i.cls > 0 && Attachable(z.c, ty) && s.t.Node? && s.c.Down?
    requires s.c == Down(z.t.i.(listed := false, st := PathState(z.t.i.st, ty)), right, s.c.sib, z.c)
    requires Inv(Relist(s.t), KidSlot(z.t.i, right)) && (s.t.i.listed ==> Relist(s.t).i.listed)
    requires s.c.sib.Node? && Inv(s.c.sib, KidSlot(z.t.i, !right))
    ensures FInv(s) && Attachable(s.c, ty) && s.t.i.cls == z.t.i.cls - 1
    ensures s.t.i.addr == z.t.i.addr + (if right then Pow2(z.t.i.cls - 1) else 0)
  {
    hide Inv, CInv, Pow2;
    FocusPair(z);
    Untype(s.c.sib, KidSlot(z.t.i, !right));
    Untype(Relist(s.t), KidSlot(z.t.i, right));
    DownInv(s.c);
    FocusPair(s);
  }

  lemma DownInv(c: Ctx)
    requires c.Down? && c.i.cls > 0 && !c.i.listed && InfoOk(c.i, HoleSlot(c.up))
    requires c.sib.Node? && Inv(c.sib, KidSlot(c.i, !c.right)) && CInv(c.up)
    ensures CInv(c)
  {
  }

  lemma StepInv(z: Zip, a: nat, ty: State, ids: seq<Ptr>)
    requires FInv(z) && z.t.i.cls > 0 && |ids| >= 2 && Attachable(z.c, ty)
    ensures var s := Step(z, a, ty, ids);
      FInv(s) && Attachable(s.c, ty) && s.t.i.cls == z.t.i.cls - 1
      && s.t.i.addr == z.t.i.addr + (if Bit(a, z.t.i.cls - 1) then Pow2(z.t.i.cls - 1) else 0)
  {
    hide Inv, CInv, Bit;
    EnterInv(z, Bit(a, z.t.i.cls - 1), ty, ids);
  }

  lemma {:induction false} LookupInv(z: Zip, n: nat, a: nat, ty: State, ids: seq<Ptr>)
    requires FInv(z) && n <= z.t.i.cls && |ids| >= 2 * n && Attachable(z.c, ty)
    ensures var r := Lookup(z, n, a, ty, ids);
      FInv(r) && Attachable(r.c, ty) && r.t.i.cls == z.t.i.cls - n
    decreases n
  {
    hide Inv, CInv, Bit;
    if n > 0 {
      StepInv(z, a, ty, ids);
      LookupInv(Step(z, a, ty, ids), n - 1, a, ty, Rest(z.t, ids));
    }
  }

  // ------------------------------------------------------------ where it lands

  /** Every node's block is aligned to its own size and inside the root's block. */
  lemma {:induction false} HoleAligned(c: Ctx)
    requires CInv(c)
    ensures HoleSlot(c).cls >= 0 && Aligned(HoleSlot(c).addr, HoleSlot(c).cls)
    ensures HoleSlot(c).addr + Pow2(HoleSlot(c).cls) <= Pow2(MAX_CLASS)
    decreases c
  {
    hide CInv, Aligned, Pow2;
    if c.Down? {
      HoleStep(c);
      HoleAligned(c.up);
      AlignedHalf(c.i.addr, c.i.cls);
    } else {
      AlignedMul(0, MAX_CLASS);
    }
  }

  lemma HoleStep(c: Ctx)
    requires c.Down? && CInv(c)
    ensures CInv(c.up) && c.i.cls > 0 && Pow2(c.i.cls) == 2 * Pow2(c.i.cls - 1)
    ensures HoleSlot(c.up).cls == c.i.cls && HoleSlot(c.up).addr == c.i.addr
    ensures HoleSlot(c).cls == c.i.cls - 1
    ensures HoleSlot(c).addr == c.i.addr + (if c.right then Pow2(c.i.cls - 1) else 0)
  {
  }

  /** The bit test leads to the block asked for. */
  lemma StepLands(z: Zip, a: nat, d: nat, ty: State, ids: seq<Ptr>)
    requires FInv(z) && d < z.t.i.cls && |ids| >= 2 && Attachable(z.c, ty) && Aligned(a, d)
    requires z.t.i.addr <= a && a + Pow2(d) <= z.t.i.addr + Pow2(z.t.i.cls)
    ensures var s := Step(z, a, ty, ids);
      && FInv(s) && Attachable(s.c, ty) && s.t.i.cls == z.t.i.cls - 1
      && s.t.i.addr <= a && a + Pow2(d) <= s.t.i.addr + Pow2(s.t.i.cls)
  {
    hide Inv, CInv, Bit, Aligned, Attachable, FInv, Enter, InfoOk;
    FocusPair(z);
    HoleAligned(z.c);
    BlockInHalf(z.t.i.addr, z.t.i.cls, a, d);
    StepInv(z, a, ty, ids);
  }

  /** The bit test leads to the block asked for. */
  lemma {:induction false} LookupLands(z: Zip, n: nat, a: nat, ty: State, ids: seq<Ptr>)
    requires FInv(z) && n <= z.t.i.cls && |ids| >= 2 * n && Attachable(z.c, ty)
    requires Aligned(a, z.t.i.cls - n)
    requires z.t.i.addr <= a && a + Pow2(z.t.i.cls - n) <= z.t.i.addr + Pow2(z.t.i.cls)
    ensures var r := Lookup(z, n, a, ty, ids);
      r.t.Node? && r.t.i.cls == z.t.i.cls - n && r.t.i.addr == a
    decreases n
  {
    hide Inv, CInv, Aligned, Attachable, Step;
    if n > 0 {
      StepLands(z, a, z.t.i.cls - n, ty, ids);
      LookupLands(Step(z, a, ty, ids), n - 1, a, ty, Rest(z.t, ids));
    }
  }

  // ------------------------------------------------------------ what it leaves alone

  predicate Unused(ids: seq<Ptr>, s: set<Ptr>) {
    && (forall j :: 0 <= j < |ids| ==> ids[j] !in s)
    && (forall j, k :: 0 <= j < k < |ids| ==> ids[j] != ids[k])
  }

  function Taken(ids: seq<Ptr>, n: nat): (s: set<Ptr>)
    requires n <= |ids|
  {
    set j | 0 <= j < n :: ids[j]
  }

  /** A split uses the two first descriptors of ids for the two halves, an entered node
      none. */
  lemma EnterIds(z: Zip, right: bool, ty: State, ids: seq<Ptr>)
    requires FInv(z) && z.t.i.cls > 0 && |ids| >= 2
    ensures var s := Enter(z, right, ty, ids);
      && Ids(Whole(s)) == Ids(Whole(z)) + (if z.t.l.Nil? then {ids[0], ids[1]} else {})
      && (Unused(ids, Ids(Whole(z))) && Dist(Whole(z)) ==> Dist(Whole(s)))
  {
    hide Pow2;
    var s := Enter(z, right, ty, ids);
    var f := Fill(s.c.right, s.c.i, s.c.sib, s.t);
    IdsPlug(z.c, z.t);
    IdsPlug(z.c, f);
    DistPlug(z.c, z.t);
    DistPlug(z.c, f);
    assert Whole(s) == Plug(z.c, f);
    FilledIds(z, right, ty, ids);
  }

  lemma FilledIds(z: Zip, right: bool, ty: State, ids: seq<Ptr>)
    requires FInv(z) && z.t.i.cls > 0 && |ids| >= 2
    ensures var s := Enter(z, right, ty, ids);
      var f := Fill(s.c.right, s.c.i, s.c.sib, s.t);
      && Ids(f) == Ids(z.t) + (if z.t.l.Nil? then {ids[0], ids[1]} else {})
      && (Unused(ids, Ids(z.t)) && Dist(z.t) ==> Dist(f))
  {
    hide Bit, Pow2;
    var s := Enter(z, right, ty, ids);
    var f := Fill(s.c.right, s.c.i, s.c.sib, s.t);
    if z.t.l.Nil? {
      assert Ids(f.l) == {ids[0]} && Ids(f.r) == {ids[1]};
    } else {
      assert Ids(f.l) == Ids(z.t.l) && Ids(f.r) == Ids(z.t.r);
    }
  }

  lemma UnusedRest(ids: seq<Ptr>, s: set<Ptr>)
    requires |ids| >= 2 && Unused(ids, s)
    ensures Unused(ids[2..], s + {ids[0], ids[1]})
  {
  }

  lemma TakenRest(ids: seq<Ptr>, k: nat)
    requires k + 2 <= |ids|
    ensures Taken(ids, k + 2) == {ids[0], ids[1]} + Taken(ids[2..], k)
  {
    forall p | p in Taken(ids, k + 2) ensures p in {ids[0], ids[1]} + Taken(ids[2..], k) {
      var j :| 0 <= j < k + 2 && ids[j] == p;
      if j >= 2 {
        assert ids[2..][j - 2] == p;
      }
    }
  }

  /** The whole walk: it uses the first k of the descriptors it is given, two for each
      node that had no children. */
  lemma {:induction false} LookupIds(z: Zip, n: nat, a: nat, ty: State, ids: seq<Ptr>, used: set<Ptr>)
    returns (r: Zip, k: nat)
    requires FInv(z) && n <= z.t.i.cls && |ids| >= 2 * n && Attachable(z.c, ty)
    requires Unused(ids, used) && used == Ids(Whole(z)) && Dist(Whole(z))
    ensures r == Lookup(z, n, a, ty, ids)
    ensures k <= 2 * n
    ensures Ids(Whole(r)) == used + Taken(ids, k)
    ensures Dist(Whole(r))
    decreases n
  {
    hide Plug, Ids, Dist, Inv, CInv;
    if n == 0 {
      r, k := z, 0;
    } else {
      StepInv(z, a, ty, ids);
      EnterIds(z, Bit(a, z.t.i.cls - 1), ty, ids);
      var s := Step(z, a, ty, ids);
      if z.t.l.Nil? {
        UnusedRest(ids, used);
        r, k := LookupIds(s, n - 1, a, ty, ids[2..], used + {ids[0], ids[1]});
        TakenRest(ids, k);
        k := k + 2;
      } else {
        r, k := LookupIds(s, n - 1, a, ty, ids, used);
      }
    }
  }

  lemma FilledHolds(z: Zip, right: bool, ty: State, ids: seq<Ptr>, hc: nat, ha: nat)
    requires FInv(z) && z.t.i.cls > 0 && |ids| >= 2
    ensures var s := Enter(z, right, ty, ids);
      var f := Fill(s.c.right, s.c.i, s.c.sib, s.t);
      Holds(f, hc, ha) == Holds(z.t, hc, ha) && Pools(f, ha) == Pools(z.t, ha)
  {
    hide CInv, Plug, Bit, Pow2, InfoOk, HoleSlot;
    var s := Enter(z, right, ty, ids);
    var f := Fill(s.c.right, s.c.i, s.c.sib, s.t);
    if z.t.l.Nil? {
      assert z.t.r.Nil?;
      assert Holds(f.l, hc, ha) == 0 && Holds(f.r, hc, ha) == 0;
    } else {
      assert Holds(f.l, hc, ha) == Holds(z.t.l, hc, ha) && Holds(f.r, hc, ha) == Holds(z.t.r, hc, ha);
    }
  }

  lemma EnterHolds(z: Zip, right: bool, ty: State, ids: seq<Ptr>, hc: nat, ha: nat)
    requires FInv(z) && z.t.i.cls > 0 && |ids| >= 2
    ensures var s := Enter(z, right, ty, ids);
      && Holds(Whole(s), hc, ha) == Holds(Whole(z), hc, ha)
      && Pools(Whole(s), ha) == Pools(Whole(z), ha)
  {
    hide Inv, CInv;
    var s := Enter(z, right, ty, ids);
    var f := Fill(s.c.right, s.c.i, s.c.sib, s.t);
    FilledHolds(z, right, ty, ids, hc, ha);
    HoldsPlug(z.c, z.t, hc, ha);
    HoldsPlug(z.c, f, hc, ha);
    PoolsPlug(z.c, z.t, ha);
    PoolsPlug(z.c, f, ha);
    assert Whole(s) == Plug(z.c, f);
  }

  lemma {:induction false} LookupHolds(z: Zip, n: nat, a: nat, ty: State, ids: seq<Ptr>, hc: nat, ha: nat)
    requires FInv(z) && n <= z.t.i.cls && |ids| >= 2 * n && Attachable(z.c, ty)
    ensures var r := Lookup(z, n, a, ty, ids);
      && Holds(Whole(r), hc, ha) == Holds(Whole(z), hc, ha)
      && Pools(Whole(r), ha) == Pools(Whole(z), ha)
    decreases n
  {
    hide Inv, CInv, Plug, Holds, Pools, Bit;
    if n > 0 {
      StepInv(z, a, ty, ids);
      var s := Step(z, a, ty, ids);
      EnterHolds(z, Bit(a, z.t.i.cls - 1), ty, ids, hc, ha);
      LookupHolds(s, n - 1, a, ty, Rest(z.t, ids), hc, ha);
    }
  }

  // ------------------------------------------------------------ coalescing

  /** No two free buddies of their parent's state are left unmerged. */
  predicate Coalesced(t: Tree) {
    t.Node? ==>
      && Coalesced(t.l) && Coalesced(t.r)
      && !(IsFree(t.l) && IsFree(t.r) && t.i.st == t.l.i.st == t.r.i.st)
  }

  predicate CCoalesced(c: Ctx) {
    c.Down? ==> Coalesced(c.sib) && CCoalesced(c.up)
  }

  predicate NoBuddy(z: Zip) {
    z.c.Down? ==> !(IsFree(z.t) && IsFree(z.c.sib) && z.c.i.st == z.t.i.st == z.c.sib.i.st)
  }

  lemma {:induction false} CoalescedPlug(c: Ctx, t: Tree)
    requires t.Node? && (c.Down? ==> c.sib.Node?) && CInv(c)
    ensures Coalesced(Plug(c, t)) <==> CCoalesced(c) && Coalesced(t) && NoBuddy(Zip(c, t))
    decreases c
  {
    if c.Down? {
      CoalescedPlug(c.up, Fill(c.right, c.i, c.sib, t));
    }
  }

  lemma {:induction false} UnrefSubCoalesced(t: Tree)
    requires Coalesced(t)
    ensures Coalesced(UnrefSub(t))
    decreases t
  {
    if t.Node? {
      UnrefSubCoalesced(t.l);
      UnrefSubCoalesced(t.r);
    }
  }

  lemma {:induction false} MergeCoalesced(z: Zip)
    requires CCoalesced(z.c) && Coalesced(z.t) && ZInv(z)
    ensures var m := Merge(z); CCoalesced(m.c) && Coalesced(m.t) && NoBuddy(m)
    decreases z.c
  {
    if z.c.Down? && IsFree(z.t) && IsFree(z.c.sib) && z.c.i.st == z.t.i.st {
      var y := MergeStep(z);
      MergeCoalesced(y);
    }
  }

  /** Releasing keeps the whole tree coalesced. */
  lemma UnrefCoalesced(z: Zip)
    requires ZInv(z) && z.t.i.held > 0 && Coalesced(Whole(z))
    ensures Coalesced(Whole(Unref(Zip(z.c, Release(z.t)))))
  {
    var t1 := Release(z.t);
    CoalescedPlug(z.c, z.t);
    UnrefSubCoalesced(t1);
    UnrefInv(z);
    ReleaseInv(z.t, HoleSlot(z.c));
    MergeCoalesced(Zip(z.c, UnrefSub(t1)));
    var m := Unref(Zip(z.c, t1));
    CoalescedPlug(m.c, m.t);
  }

  lemma {:induction false} RefSubCoalesced(t: Tree)
    requires Coalesced(t)
    ensures Coalesced(RefSub(t))
    decreases t
  {
    if t.Node? {
      RefSubCoalesced(t.l);
      RefSubCoalesced(t.r);
    }
  }

  lemma {:induction false} LookupCoalesced(z: Zip, n: nat, a: nat, ids: seq<Ptr>)
    requires FInv(z) && n <= z.t.i.cls && |ids| >= 2 * n
    requires CCoalesced(z.c) && Coalesced(z.t)
    ensures var r := Lookup(z, n, a, Partial, ids); CCoalesced(r.c) && Coalesced(r.t)
    decreases n
  {
    hide CInv, Bit, Pow2;
    if n > 0 {
      StepInv(z, a, Partial, ids);
      LookupCoalesced(Step(z, a, Partial, ids), n - 1, a, Rest(z.t, ids));
    }
  }

  /** Finding a block and referencing it keeps the whole tree coalesced. */
  lemma LookupRefCoalesced(z: Zip, n: nat, a: nat, ids: seq<Ptr>, pool: bool)
    requires FInv(z) && n <= z.t.i.cls && |ids| >= 2 * n && Coalesced(Whole(z))
    ensures var r := Lookup(z, n, a, Partial, ids);
      r.t.Node? && Coalesced(Plug(r.c, Hold(RefSub(r.t), pool)))
  {
    CoalescedPlug(z.c, z.t);
    LookupCoalesced(z, n, a, ids);
    LookupInv(z, n, a, Partial, ids);
    var r := Lookup(z, n, a, Partial, ids);
    RefSubCoalesced(r.t);
    CoalescedPlug(r.c, Hold(RefSub(r.t), pool));
  }

  // ------------------------------------------------------------ round trip

  function Unlisted(t: Tree): (u: Tree)
    requires t.Node?
  {
    t.(i := t.i.(listed := false))
  }

  /** Climbing from a leaf just split off leads back to the block that was split. */
  lemma {:induction false} MergeUndoesLookup(z: Zip, n: nat, a: nat, ids: seq<Ptr>)
    requires FInv(z) && n <= z.t.i.cls && |ids| >= 2 * n
    requires IsFree(z.t) && z.t.i.st == Allocatable
    ensures var r := Lookup(z, n, a, Partial, ids);
      && IsFree(r.t) && r.t.i.st == Allocatable
      && Merge(Zip(r.c, Relist(r.t))) == Merge(Zip(z.c, Relist(z.t)))
    decreases n
  {
    hide CInv, Bit, Pow2;
    if n > 0 {
      StepInv(z, a, Partial, ids);
      var s := Step(z, a, Partial, ids);
      MergeUndoesLookup(s, n - 1, a, Rest(z.t, ids));
      assert Leaf(s.c.i.(listed := true)) == Relist(z.t);
    }
  }

  /** alloc_page, page_ref and page_unref give back the tree they started from, and with
      it every free list, when no pair of buddies was left unmerged before. */
  lemma AllocThenFree(z: Zip, c: nat, ids: seq<Ptr>)
    requires ZInv(z) && IsFree(z.t) && z.t.i.st == Allocatable && Coalesced(Whole(z))
    requires c <= z.t.i.cls && |ids| >= 2 * (z.t.i.cls - c)
    ensures var r := Lookup(Zip(z.c, Unlisted(z.t)), z.t.i.cls - c, z.t.i.addr, Partial, ids);
      && r.t.Node?
      && Whole(Unref(Zip(r.c, Release(Hold(RefSub(r.t), false))))) == Whole(z)
  {
    hide Lookup, Bit, Plug, Coalesced, Merge, RefSub, UnrefSub, FInv, CInv, Inv;
    var y := Zip(z.c, Unlisted(z.t));
    var n := z.t.i.cls - c;
    UnlistedInv(z);
    LookupInv(y, n, z.t.i.addr, Partial, ids);
    MergeUndoesLookup(y, n, z.t.i.addr, ids);
    var r := Lookup(y, n, z.t.i.addr, Partial, ids);
    HoldRelease(r.t);
    MergeStops(z);
  }

  lemma UnlistedInv(z: Zip)
    requires ZInv(z)
    ensures FInv(Zip(z.c, Unlisted(z.t))) && Relist(Unlisted(z.t)) == z.t && Relist(z.t) == z.t
  {
  }

  /** Taking and giving up a reference on a free leaf puts it back on its list. */
  lemma HoldRelease(t: Tree)
    requires IsFree(t)
    ensures RefSub(t).Node? && Hold(RefSub(t), false).i.held > 0
    ensures UnrefSub(Release(Hold(RefSub(t), false))) == Relist(t)
  {
  }

  /** In a coalesced tree a typed node has nothing to merge with. */
  lemma MergeStops(z: Zip)
    requires ZInv(z) && z.t.i.st != Partial && Coalesced(Whole(z))
    ensures Merge(z) == z
  {
    hide Coalesced;
    CoalescedPlug(z.c, z.t);
    if z.c.Down? && z.c.i.st == z.t.i.st {
      assert InfoOk(z.c.sib.i, KidSlot(z.c.i, !z.c.right));
    }
  }
}
