/**
 Attaching memory: what attach does to the type of every page and every block, when an
 Allocatable attach leaves reserved memory reserved, and why the order of attaching does
 not matter under the conditions it needs.
 */
module BuddyTypes {
  import opened Arith
  import opened BuddyTree
  import opened BuddyOps
  import opened BuddyLookup

  /** The state page_lookup finds n levels below t on the way to address a: that of the
      node there, or of the leaf it would split. */
  function EffAt(t: Tree, n: nat, a: nat): (st: State)
    decreases n
  {
    if t.Nil? then Partial
    else if n == 0 || t.l.Nil? || t.r.Nil? || t.i.cls == 0 then t.i.st
    else EffAt(if Bit(a, t.i.cls - 1) then t.r else t.l, n - 1, a)
  }

  /** Addresses a and b take the same way for the next k levels below a node of class c. */
  predicate Agree(a: nat, b: nat, k: nat, c: nat)
    decreases k
  {
    k > 0 && c > 0 ==> (Bit(a, c - 1) <==> Bit(b, c - 1)) && Agree(a, b, k - 1, c - 1)
  }

  lemma {:induction false} AgreeIsBlock(base: nat, c: nat, a: nat, b: nat, k: nat)
    requires k <= c && Aligned(base, c) && Aligned(a, c - k)
    requires base <= a && a + Pow2(c - k) <= base + Pow2(c)
    requires base <= b < base + Pow2(c)
    ensures Agree(a, b, k, c) <==> a <= b < a + Pow2(c - k)
    decreases k
  {
    if k == 0 {
      AlignedClose(base, a, c);
    } else {
      AlignedHalf(base, c);
      BlockInHalf(base, c, a, c - k);
      BitIsUpperHalf(base, c, b);
      var mid := base + Pow2(c - 1);
      if Bit(a, c - 1) <==> Bit(b, c - 1) {
        AgreeIsBlock(if Bit(a, c - 1) then mid else base, c - 1, a, b, k - 1);
      }
    }
  }

  /** The type of a page is the state reached by going all the way down. */
  lemma {:induction false} TypeIsEff(t: Tree, s: Slot, a: nat, n: nat)
    requires t.Node? && Inv(t, s) && s.cls >= 0 && n >= t.i.cls
    requires Aligned(s.addr, s.cls) && s.addr <= a < s.addr + Pow2(s.cls)
    ensures TypeAt(t, a) == EffAt(t, n, a)
    decreases t
  {
    if t.l.Node? {
      BitIsUpperHalf(s.addr, s.cls, a);
      AlignedHalf(s.addr, s.cls);
      if a >= t.r.i.addr {
        TypeIsEff(t.r, KidSlot(t.i, true), a, n - 1);
      } else {
        TypeIsEff(t.l, KidSlot(t.i, false), a, n - 1);
      }
    }
  }

  /** Below an Allocatable or Reserved node everything has its state. */
  lemma {:induction false} Uniform(t: Tree, s: Slot, n: nat, m: nat, a: nat, b: nat)
    requires t.Node? && Inv(t, s) && n <= m && n <= t.i.cls
    requires Agree(a, b, n, t.i.cls) && EffAt(t, n, a) != Partial
    ensures EffAt(t, m, b) == EffAt(t, n, a)
    decreases m
  {
    if t.l.Node? && m > 0 {
      if n == 0 {
        var right := Bit(b, t.i.cls - 1);
        Uniform(if right then t.r else t.l, KidSlot(t.i, right), 0, m - 1, a, b);
      } else {
        var right := Bit(a, t.i.cls - 1);
        Uniform(if right then t.r else t.l, KidSlot(t.i, right), n - 1, m - 1, a, b);
      }
    }
  }

  // ------------------------------------------------------------ attach

  predicate NoRefs(t: Tree) {
    t.Node? ==> t.i.refc == 0 && NoRefs(t.l) && NoRefs(t.r)
  }

  /** Reserved memory does not become Allocatable ... if the node itself says so. */
  function NewState(old_: State, ty: State): (st: State) {
    if old_ == Reserved then Reserved else ty
  }

  /** Drop what is below the node and retype it. */
  function Retype(t: Tree, ty: State): (u: Tree)
    requires t.Node?
  {
    var st := NewState(t.i.st, ty);
    Leaf(t.i.(st := st, listed := st == Allocatable))
  }

  function Attach(z: Zip, n: nat, a: nat, ty: State, ids: seq<Ptr>): (r: Zip)
    requires |ids| >= 2 * n
  {
    var r := Lookup(z, n, a, ty, ids);
    if r.t.Nil? then r else Zip(r.c, Retype(r.t, ty))
  }

  lemma AttachInv(z: Zip, n: nat, a: nat, ty: State, ids: seq<Ptr>)
    requires FInv(z) && n <= z.t.i.cls && |ids| >= 2 * n
    requires ty != Partial && Attachable(z.c, ty)
    requires NoRefs(Lookup(z, n, a, ty, ids).t)
    ensures ZInv(Attach(z, n, a, ty, ids))
  {
    LookupInv(z, n, a, ty, ids);
    var r := Lookup(z, n, a, ty, ids);
    LeafInv(Retype(r.t, ty).i, HoleSlot(r.c));
  }

  /** The same seen from above: the subtree in which a block n levels down is attached. */
  function AttachIn(t: Tree, n: nat, a: nat, ty: State, ids: seq<Ptr>): (u: Tree)
    requires |ids| >= 2 * n
    decreases n
  {
    if t.Nil? then Nil
    else if n == 0 || t.i.cls == 0 then Retype(t, ty)
    else
      var s := Step(Zip(Top, t), a, ty, ids);
      Fill(s.c.right, s.c.i, s.c.sib, AttachIn(s.t, n - 1, a, ty, Rest(t, ids)))
  }

  lemma {:induction false} AttachIsAttachIn(z: Zip, n: nat, a: nat, ty: State, ids: seq<Ptr>)
    requires |ids| >= 2 * n
    ensures Whole(Attach(z, n, a, ty, ids)) == Plug(z.c, AttachIn(z.t, n, a, ty, ids))
    decreases n
  {
    if n > 0 && z.t.Node? && z.t.i.cls > 0 {
      var s := Step(z, a, ty, ids);
      var s0 := Step(Zip(Top, z.t), a, ty, ids);
      AttachIsAttachIn(s, n - 1, a, ty, Rest(z.t, ids));
      assert s.t == s0.t;
      var u := AttachIn(s.t, n - 1, a, ty, Rest(z.t, ids));
      assert Plug(s.c, u) == Plug(z.c, Fill(s.c.right, s.c.i, s.c.sib, u));
    }
  }

  /** What attaching block (n, a) does to every block (m, b): a block inside it gets the
      new state, one strictly around it becomes Partial unless it had the new type, and
      every other one is as before. */
  function Attached(t: Tree, n: nat, a: nat, ty: State, m: nat, b: nat): (st: State) {
    if t.Nil? then Partial
    else if !Agree(a, b, if m < n then m else n, t.i.cls) then EffAt(t, m, b)
    else if m < n then PathState(EffAt(t, m, b), ty)
    else NewState(EffAt(t, n, a), ty)
  }

  /** One step of the walk, seen by a block below t: only the half entered is affected. */
  lemma EnterEff(t: Tree, s: Slot, right: bool, ty: State, ids: seq<Ptr>, u: Tree, m: nat, b: nat)
    requires t.Node? && Inv(Relist(t), s) && t.i.cls > 0 && |ids| >= 2 && u.Node?
    ensures var z := Enter(Zip(Top, t), right, ty, ids);
      var f := Fill(right, z.c.i, z.c.sib, u);
      && (m == 0 ==> EffAt(f, m, b) == PathState(t.i.st, ty) && EffAt(t, m, b) == t.i.st)
      && (m > 0 && Bit(b, t.i.cls - 1) == right ==>
          EffAt(f, m, b) == EffAt(u, m - 1, b) && EffAt(t, m, b) == EffAt(z.t, m - 1, b))
      && (m > 0 && Bit(b, t.i.cls - 1) != right ==> EffAt(f, m, b) == EffAt(t, m, b))
  {
    if t.l.Nil? {
      assert t.r.Nil?;
    }
  }

  /** If the claim holds one level down, it holds here. */
  lemma AttachEffStep(t: Tree, s: Slot, n: nat, a: nat, ty: State, ids: seq<Ptr>, u: Tree, m: nat, b: nat)
    requires t.Node? && Inv(Relist(t), s) && 0 < n <= t.i.cls && |ids| >= 2 && u.Node?
    requires var z := Step(Zip(Top, t), a, ty, ids);
      m > 0 && (Bit(b, t.i.cls - 1) <==> Bit(a, t.i.cls - 1)) ==>
        EffAt(u, m - 1, b) == Attached(z.t, n - 1, a, ty, m - 1, b)
    ensures var z := Step(Zip(Top, t), a, ty, ids);
      EffAt(Fill(z.c.right, z.c.i, z.c.sib, u), m, b) == Attached(t, n, a, ty, m, b)
  {
    hide Bit, Agree, EffAt;
    var right := Bit(a, t.i.cls - 1);
    EnterEff(t, s, right, ty, ids, u, m, b);
    EnterEff(t, s, right, ty, ids, u, n, a);
    AgreeStep(a, b, if m < n then m else n, t.i.cls);
  }

  lemma AgreeStep(a: nat, b: nat, k: nat, c: nat)
    requires c > 0
    ensures k == 0 ==> Agree(a, b, k, c)
    ensures k > 0 ==> (Agree(a, b, k, c) <==> (Bit(a, c - 1) <==> Bit(b, c - 1)) && Agree(a, b, k - 1, c - 1))
  {
  }

  lemma {:induction false} AttachEff(t: Tree, s: Slot, n: nat, a: nat, ty: State, ids: seq<Ptr>, m: nat, b: nat)
    returns (u: Tree)
    requires t.Node? && Inv(Relist(t), s) && n <= t.i.cls && m <= t.i.cls && |ids| >= 2 * n
    requires t.i.listed ==> Relist(t).i.listed
    ensures u == AttachIn(t, n, a, ty, ids) && u.Node?
    ensures EffAt(u, m, b) == Attached(t, n, a, ty, m, b)
    decreases n
  {
    u := AttachIn(t, n, a, ty, ids);
    if n > 0 {
      var right := Bit(a, t.i.cls - 1);
      GrowInv(t, s, ids, right);
      var kid := Step(Zip(Top, t), a, ty, ids).t;
      var v := AttachEff(kid, KidSlot(t.i, right), n - 1, a, ty, Rest(t, ids), if m > 0 then m - 1 else 0, b);
      AttachEffStep(t, s, n, a, ty, ids, v, m, b);
    }
  }
}
