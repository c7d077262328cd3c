/**
 What the code that walks the tree relies on, node by node, and that the invariant gives
 it.
 */
module BuddyShape {
  import opened BuddyTree
  import opened BuddyOrder

  predicate InfoType(i: Info) {
    i.st == Allocatable ==> i.cls < MAX_CLASS
  }

  predicate InfoShape(i: Info) {
    (i.listed ==> i.refc == 0) && InfoType(i)
  }

  /** Both children or none; a referenced node has referenced children and is on no list;
      Allocatable nodes have a free list to go to. */
  predicate Shape(t: Tree) {
    t.Node? ==>
      && InfoShape(t.i) && (t.l.Node? <==> t.r.Node?)
      && (t.i.refc > 0 && t.l.Node? ==> t.l.i.refc > 0 && t.r.i.refc > 0)
      && Shape(t.l) && Shape(t.r)
  }

  predicate CShape(c: Ctx) {
    c.Down? ==> !c.i.listed && InfoShape(c.i) && c.sib.Node? && CShape(c.up)
  }

  lemma {:induction false} InvShape(t: Tree, s: Slot)
    requires Inv(t, s) && s.cls < MAX_CLASS
    ensures Shape(t)
    decreases t
  {
    if t.Node? {
      InvShape(t.l, KidSlot(t.i, false));
      InvShape(t.r, KidSlot(t.i, true));
    }
  }

  lemma RootShape(t: Tree)
    requires RootInv(t)
    ensures Shape(t)
  {
    InvShape(t.l, KidSlot(t.i, false));
    InvShape(t.r, KidSlot(t.i, true));
  }

  lemma {:induction false} PlugShape(c: Ctx, t: Tree)
    requires Shape(Plug(c, t)) && CInv(c) && t.Node?
    ensures CShape(c) && Shape(t)
    decreases c
  {
    if c.Down? {
      PlugShape(c.up, Fill(c.right, c.i, c.sib, t));
    }
  }

  lemma FocusShape(z: Zip)
    requires RootInv(Whole(z)) && z.t.Node?
    ensures CShape(z.c) && Shape(z.t) && ZInv(z)
  {
    InvPlug(z.c, z.t);
    RootShape(Whole(z));
    PlugShape(z.c, z.t);
  }
}
