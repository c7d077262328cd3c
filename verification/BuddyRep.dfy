/**
 What it means that the records in memory and the list membership are a given tree with a
 given node in focus, and how the writes of the allocator change the one as they change
 the other.
 */
module BuddyRep {
  import opened Arith
  import opened BuddyTree
  import opened BuddyOps
  import opened BuddyLookup

  /** The fields of struct Page, list links aside. */
  datatype Page = Page(left: Ptr, right: Ptr, parent: Ptr, st: State, refc: nat, cls: nat, addr: nat)

  /** Memory, the head each record hangs on, and one node that alloc_page has already
      taken off its list although the tree still counts it as listed. */
  datatype View = View(mem: map<Ptr, Page>, on: map<Ptr, Ptr>, off: Ptr)

  function PtrOf(t: Tree): (p: Ptr) {
    if t.Nil? then Null else t.i.p
  }

  function CPtr(c: Ctx): (p: Ptr) {
    if c.Top? then Null else c.i.p
  }

  function Rec(i: Info, l: Ptr, r: Ptr, par: Ptr): (q: Page) {
    Page(l, r, par, i.st, i.refc, i.cls, i.addr)
  }

  predicate OnList(v: View, i: Info) {
    && (i.p in v.on <==> i.listed && i.p != v.off)
    && (i.p in v.on ==> v.on[i.p] == ClassHead(i.cls))
  }

  predicate Here(v: View, i: Info, l: Ptr, r: Ptr, par: Ptr) {
    i.p != Null && i.p in v.mem && v.mem[i.p] == Rec(i, l, r, par) && OnList(v, i)
  }

  predicate Rep(v: View, t: Tree, par: Ptr) {
    t.Node? ==> Here(v, t.i, PtrOf(t.l), PtrOf(t.r), par) && Rep(v, t.l, t.i.p) && Rep(v, t.r, t.i.p)
  }

  predicate CRep(v: View, c: Ctx, hole: Ptr)
    decreases c
  {
    c.Down? ==>
      && Here(v, c.i, if c.right then PtrOf(c.sib) else hole, if c.right then hole else PtrOf(c.sib), CPtr(c.up))
      && Rep(v, c.sib, c.i.p) && CRep(v, c.up, c.i.p)
  }

  /** The two views agree on everything in s. */
  ghost predicate SameOn(v: View, w: View, s: set<Ptr>) {
    && v.off == w.off
    && (forall p :: p in s ==> (p in v.mem <==> p in w.mem) && (p in v.mem ==> v.mem[p] == w.mem[p]))
    && (forall p :: p in s ==> (p in v.on <==> p in w.on) && (p in v.on ==> v.on[p] == w.on[p]))
  }

  lemma {:induction false} RepFrame(v: View, w: View, t: Tree, par: Ptr)
    requires Rep(v, t, par) && SameOn(v, w, Ids(t))
    ensures Rep(w, t, par)
    decreases t
  {
    if t.Node? {
      assert t.i.p in Ids(t);
      RepFrame(v, w, t.l, t.i.p);
      RepFrame(v, w, t.r, t.i.p);
    }
  }

  lemma {:induction false} CRepFrame(v: View, w: View, c: Ctx, hole: Ptr)
    requires CRep(v, c, hole) && SameOn(v, w, CIds(c))
    ensures CRep(w, c, hole)
    decreases c
  {
    if c.Down? {
      assert c.i.p in CIds(c);
      RepFrame(v, w, c.sib, c.i.p);
      CRepFrame(v, w, c.up, c.i.p);
    }
  }

  function Descs(v: View): (s: set<Ptr>) {
    set p | p in v.on && v.on[p] == DescHead
  }

  predicate NoNil(c: Ctx) {
    c.Down? ==> c.sib.Node? && NoNil(c.up)
  }

  function RootOf(c: Ctx, hole: Ptr): (p: Ptr)
    decreases c
  {
    if c.Top? then hole else RootOf(c.up, c.i.p)
  }

  /** Every descriptor is a node or on the free-descriptor list, and nothing else is on a
      list. */
  predicate Accounted(v: View, all: set<Ptr>, ids: set<Ptr>) {
    && all == ids + Descs(v)
    && (forall p :: p in v.on ==> v.on[p] == DescHead || p in ids)
  }

  ghost predicate ZRep(v: View, all: set<Ptr>, z: Zip) {
    && CRep(v, z.c, PtrOf(z.t)) && Rep(v, z.t, CPtr(z.c))
    && ZDist(z) && NoNil(z.c) && RootOf(z.c, PtrOf(z.t)) == Root
    && Accounted(v, all, CIds(z.c) + Ids(z.t))
  }

  // ------------------------------------------------------------ moving the focus

  /** Moving the focus between a node and one of its children changes nothing. */
  lemma Move(v: View, all: set<Ptr>, c: Ctx, t: Tree)
    requires c.Down? && c.sib.Node?
    ensures ZRep(v, all, Zip(c, t)) <==> ZRep(v, all, Zip(c.up, Fill(c.right, c.i, c.sib, t)))
  {
    var f := Fill(c.right, c.i, c.sib, t);
    assert CIds(c) + Ids(t) == CIds(c.up) + Ids(f);
    assert ZDist(Zip(c, t)) <==> ZDist(Zip(c.up, f)) by {
      DistPlug(c, t);
      DistPlug(c.up, f);
    }
  }

  lemma {:induction false} MoveTop(v: View, all: set<Ptr>, z: Zip)
    requires NoNil(z.c)
    ensures ZRep(v, all, z) <==> ZRep(v, all, Zip(Top, Whole(z)))
    decreases z.c
  {
    if z.c.Down? {
      var y := Zip(z.c.up, Fill(z.c.right, z.c.i, z.c.sib, z.t));
      Move(v, all, z.c, z.t);
      MoveTop(v, all, y);
      assert Whole(y) == Whole(z);
    }
  }

  // ------------------------------------------------------------ writing at the focus

  /** The two views differ at most at p. */
  ghost predicate OnlyAt(v: View, w: View, p: Ptr) {
    && v.off == w.off
    && (forall q :: q != p ==> (q in v.mem <==> q in w.mem) && (q in v.mem ==> v.mem[q] == w.mem[q]))
    && (forall q :: q != p ==> (q in v.on <==> q in w.on) && (q in v.on ==> v.on[q] == w.on[q]))
  }

  /** New values for the fields of the node in focus, its children aside. */
  lemma SetInfo(v: View, w: View, all: set<Ptr>, z: Zip, i: Info)
    requires ZRep(v, all, z) && z.t.Node? && i.p == z.t.i.p && OnlyAt(v, w, i.p)
    requires i.p in w.mem && w.mem[i.p] == Rec(i, PtrOf(z.t.l), PtrOf(z.t.r), CPtr(z.c)) && OnList(w, i)
    ensures ZRep(w, all, Zip(z.c, Node(i, z.t.l, z.t.r)))
  {
    hide CRep, CDist, CIds, NoNil, RootOf, Rec;
    var p := i.p;
    var u := Node(i, z.t.l, z.t.r);
    FocusFacts(v, all, z);
    CRepFrame(v, w, z.c, p);
    RepFrame(v, w, z.t.l, p);
    RepFrame(v, w, z.t.r, p);
    assert Descs(w) == Descs(v);
    assert Ids(u) == Ids(z.t);
    Rebuilt(v, w, all, z, u);
  }

  /** Another tree for the focus, under the same root and made of known descriptors. */
  lemma Rebuilt(v: View, w: View, all: set<Ptr>, z: Zip, u: Tree)
    requires ZRep(v, all, z) && z.t.Node? && u.Node? && u.i.p == z.t.i.p
    requires CRep(w, z.c, u.i.p) && Rep(w, u, CPtr(z.c)) && Dist(u) && Ids(u) !! CIds(z.c)
    requires Accounted(w, all, CIds(z.c) + Ids(u))
    ensures ZRep(w, all, Zip(z.c, u))
  {
    hide CRep, Rep, Dist, Ids, CIds, CDist, Accounted, NoNil, RootOf;
  }

  /** The bookkeeping of lists: every descriptor is on one list at most, so a node on a
      class list, or on none, is not free for use. */
  lemma NodeNotDesc(v: View, all: set<Ptr>, z: Zip, p: Ptr)
    requires ZRep(v, all, z) && p in Ids(z.t)
    ensures p in v.on ==> v.on[p] != DescHead
  {
    IdHere(v, z.t, CPtr(z.c), p);
  }

  lemma {:induction false} IdHere(v: View, t: Tree, par: Ptr, p: Ptr)
    requires Rep(v, t, par) && p in Ids(t)
    ensures p != Null && p in v.mem && (p in v.on ==> v.on[p].ClassHead?)
    decreases t
  {
    if p in Ids(t.l) {
      IdHere(v, t.l, t.i.p, p);
    } else if p in Ids(t.r) {
      IdHere(v, t.r, t.i.p, p);
    }
  }

  lemma {:induction false} CIdHere(v: View, c: Ctx, hole: Ptr, p: Ptr)
    requires CRep(v, c, hole) && p in CIds(c)
    ensures p != Null && p in v.mem && (p in v.on ==> v.on[p].ClassHead?)
    decreases c
  {
    if p in Ids(c.sib) {
      IdHere(v, c.sib, c.i.p, p);
    } else if p in CIds(c.up) {
      CIdHere(v, c.up, c.i.p, p);
    }
  }

  /** A tree fixes the records of its nodes. */
  lemma {:induction false} SameRecords(v: View, w: View, t: Tree, par: Ptr)
    requires Rep(v, t, par) && Rep(w, t, par)
    ensures forall p :: p in Ids(t) ==> p in v.mem && p in w.mem && v.mem[p] == w.mem[p]
    decreases t
  {
    if t.Node? {
      SameRecords(v, w, t.l, t.i.p);
      SameRecords(v, w, t.r, t.i.p);
    }
  }

  lemma LeafDist(i: Info)
    ensures Ids(Leaf(i)) == {i.p} && Dist(Leaf(i))
  {
    assert Ids(Nil) == {} && Dist(Nil);
  }

  /** The node in focus loses its subtrees to the free-descriptor list. */
  lemma Prune(v: View, w: View, all: set<Ptr>, z: Zip, i: Info)
    requires ZRep(v, all, z) && z.t.Node? && i.p == z.t.i.p && v.off == w.off
    requires forall q :: q != i.p ==> (q in v.mem <==> q in w.mem) && (q in v.mem ==> v.mem[q] == w.mem[q])
    requires forall q :: q != i.p && q !in Ids(z.t) ==> (q in v.on <==> q in w.on) && (q in v.on ==> v.on[q] == w.on[q])
    requires forall q :: q != i.p && q in Ids(z.t) ==> q in w.on && w.on[q] == DescHead
    requires i.p in w.mem && w.mem[i.p] == Rec(i, Null, Null, CPtr(z.c)) && OnList(w, i)
    ensures ZRep(w, all, Zip(z.c, Leaf(i)))
  {
    hide CRep, CDist, CIds, NoNil, RootOf, Rec;
    var p := i.p;
    FocusFacts(v, all, z);
    CRepFrame(v, w, z.c, p);
    PrunedDescs(v, w, all, z, i);
    LeafDist(i);
    assert CIds(z.c) + Ids(Leaf(i)) + Descs(w) == CIds(z.c) + Ids(z.t) + Descs(v);
    Rebuilt(v, w, all, z, Leaf(i));
  }

  lemma PrunedDescs(v: View, w: View, all: set<Ptr>, z: Zip, i: Info)
    requires ZRep(v, all, z) && z.t.Node? && i.p == z.t.i.p && OnList(w, i)
    requires forall q :: q != i.p && q !in Ids(z.t) ==> (q in v.on <==> q in w.on) && (q in v.on ==> v.on[q] == w.on[q])
    requires forall q :: q != i.p && q in Ids(z.t) ==> q in w.on && w.on[q] == DescHead
    ensures Descs(w) == Descs(v) + (Ids(z.t) - {i.p})
  {
    hide ZRep, Ids;
    FocusFacts(v, all, z);
    forall q | q in Descs(v) && q in Ids(z.t) ensures false {
      NodeNotDesc(v, all, z, q);
    }
  }

  /** The leaf in focus gets two children made of two free descriptors. */
  lemma Sprout(v: View, w: View, all: set<Ptr>, z: Zip, ids: seq<Ptr>)
    requires ZRep(v, all, z) && IsLeaf(z.t) && z.t.i.cls > 0 && |ids| >= 2 && ids[0] != ids[1]
    requires ids[0] in Descs(v) && ids[1] in Descs(v) && ids[0] != Null && ids[1] != Null && v.off == w.off
    requires v.off != ids[0] && v.off != ids[1]
    requires forall q :: q != z.t.i.p && q != ids[0] && q != ids[1] ==>
      (q in v.mem <==> q in w.mem) && (q in v.mem ==> v.mem[q] == w.mem[q])
    requires w.on == v.on - {ids[0], ids[1]}
    requires var p := z.t.i.p;
      && {p, ids[0], ids[1]} <= w.mem.Keys
      && w.mem[p] == Rec(z.t.i, ids[0], ids[1], CPtr(z.c))
      && w.mem[ids[0]] == Rec(Fresh(z.t.i, false, ids[0]).i, Null, Null, p)
      && w.mem[ids[1]] == Rec(Fresh(z.t.i, true, ids[1]).i, Null, Null, p)
    ensures ZRep(w, all, Zip(z.c, Grow(z.t, ids)))
  {
    hide CRep, CDist, CIds, NoNil, RootOf, Pow2;
    var p := z.t.i.p;
    var g := Grow(z.t, ids);
    var a, b := ids[0], ids[1];
    FocusFacts(v, all, z);
    forall q | q in {a, b} ensures q !in CIds(z.c) && q != p {
      if q in CIds(z.c) {
        CIdHere(v, z.c, p, q);
      }
    }
    CRepFrame(v, w, z.c, p);
    SproutDist(z.t, ids, g);
    SproutRep(w, z.t, ids, CPtr(z.c), g);
    assert Descs(w) == Descs(v) - {a, b};
    assert CIds(z.c) + Ids(g) + Descs(w) == CIds(z.c) + Ids(z.t) + Descs(v);
    Rebuilt(v, w, all, z, g);
  }

  lemma SproutDist(t: Tree, ids: seq<Ptr>, g: Tree)
    requires IsLeaf(t) && t.i.cls > 0 && |ids| >= 2 && ids[0] != ids[1] && t.i.p != ids[0] && t.i.p != ids[1]
    requires g == Grow(t, ids)
    ensures Dist(g) && Ids(g) == {t.i.p, ids[0], ids[1]} && Ids(t) == {t.i.p}
  {
    LeafDist(g.l.i);
    LeafDist(g.r.i);
  }

  lemma SproutRep(w: View, t: Tree, ids: seq<Ptr>, par: Ptr, g: Tree)
    requires IsLeaf(t) && t.i.cls > 0 && |ids| >= 2 && g == Grow(t, ids) && OnList(w, t.i)
    requires t.i.p != Null && ids[0] != Null && ids[1] != Null && ids[0] !in w.on && ids[1] !in w.on
    requires {t.i.p, ids[0], ids[1]} <= w.mem.Keys && w.mem[t.i.p] == Rec(t.i, ids[0], ids[1], par)
    requires w.mem[ids[0]] == Rec(g.l.i, Null, Null, t.i.p) && w.mem[ids[1]] == Rec(g.r.i, Null, Null, t.i.p)
    ensures Rep(w, g, par)
  {
    assert Rep(w, g.l, t.i.p) && Rep(w, g.r, t.i.p);
  }

  /** What alloc_page has taken off its list is unlisted in the tree once the walk starts. */
  lemma Unhide(v: View, all: set<Ptr>, z: Zip)
    requires ZRep(v, all, z) && z.t.Node? && v.off == z.t.i.p
    ensures ZRep(v.(off := Null), all, Zip(z.c, Unlisted(z.t)))
  {
    var w := v.(off := Null);
    var p := z.t.i.p;
    UnhideCtx(v, z.c, p);
    UnhideTree(v, z.t.l, p);
    UnhideTree(v, z.t.r, p);
    var u := Unlisted(z.t);
    assert Ids(u) == Ids(z.t);
    DistPlug(z.c, u);
    DistPlug(z.c, z.t);
  }

  lemma {:induction false} UnhideTree(v: View, t: Tree, par: Ptr)
    requires Rep(v, t, par) && v.off !in Ids(t)
    ensures Rep(v.(off := Null), t, par)
    decreases t
  {
    if t.Node? {
      UnhideTree(v, t.l, t.i.p);
      UnhideTree(v, t.r, t.i.p);
    }
  }

  lemma {:induction false} UnhideCtx(v: View, c: Ctx, hole: Ptr)
    requires CRep(v, c, hole) && v.off !in CIds(c)
    ensures CRep(v.(off := Null), c, hole)
    decreases c
  {
    if c.Down? {
      UnhideTree(v, c.sib, c.i.p);
      UnhideCtx(v, c.up, c.i.p);
    }
  }

  /** What is known about the node in focus. */
  lemma FocusFacts(v: View, all: set<Ptr>, z: Zip)
    requires ZRep(v, all, z) && z.t.Node?
    ensures Here(v, z.t.i, PtrOf(z.t.l), PtrOf(z.t.r), CPtr(z.c))
    ensures z.t.i.p in all && Ids(z.t) <= all
    ensures z.t.i.p !in Ids(z.t.l) && z.t.i.p !in Ids(z.t.r) && Ids(z.t.l) !! Ids(z.t.r)
    ensures z.t.i.p !in CIds(z.c) && Ids(z.t) !! CIds(z.c) && Dist(z.t)
    ensures Rep(v, z.t.l, z.t.i.p) && Rep(v, z.t.r, z.t.i.p)
    ensures z.t.i.p == Root <==> z.c.Top?
  {
    RootAbove(z.c, z.t.i.p);
  }

  lemma {:induction false} RootAbove(c: Ctx, hole: Ptr)
    ensures c.Down? ==> RootOf(c, hole) in CIds(c)
    decreases c
  {
    if c.Down? {
      RootAbove(c.up, c.i.p);
    }
  }

  /** What is known about the parent of the node in focus, and its buddy. */
  lemma CtxFacts(v: View, all: set<Ptr>, z: Zip)
    requires ZRep(v, all, z) && z.c.Down?
    ensures var s := PtrOf(z.c.sib);
      && Here(v, z.c.i, if z.c.right then s else PtrOf(z.t), if z.c.right then PtrOf(z.t) else s, CPtr(z.c.up))
      && z.c.sib.Node? && Here(v, z.c.sib.i, PtrOf(z.c.sib.l), PtrOf(z.c.sib.r), z.c.i.p)
      && (PtrOf(z.c.sib.l) == Null <==> z.c.sib.l.Nil?) && (PtrOf(z.c.sib.r) == Null <==> z.c.sib.r.Nil?)
  {
    assert Rep(v, z.c.sib.l, z.c.sib.i.p) && Rep(v, z.c.sib.r, z.c.sib.i.p);
  }

  /** The list membership after a merge: both buddies free, the parent on its class list
      if it is Allocatable. */
  function Merged(on: map<Ptr, Ptr>, i: Info, l: Ptr, r: Ptr): (m: map<Ptr, Ptr>) {
    var given := on[l := DescHead][r := DescHead];
    if i.st == Allocatable then given[i.p := ClassHead(i.cls)] else given
  }

  /** A merge, in memory and in the tree. */
  lemma Collapse(v: View, w: View, all: set<Ptr>, z: Zip, i: Info)
    requires ZRep(v, all, z) && z.t.Node? && IsLeaf(z.t.l) && IsLeaf(z.t.r) && v.off == w.off == Null
    requires !z.t.i.listed && i == z.t.i.(listed := z.t.i.st == Allocatable)
    requires w.mem == v.mem[i.p := Rec(i, Null, Null, CPtr(z.c))]
    requires w.on == Merged(v.on, i, z.t.l.i.p, z.t.r.i.p)
    ensures ZRep(w, all, Zip(z.c, Leaf(i)))
  {
    FocusFacts(v, all, z);
    LeafDist(z.t.l.i);
    LeafDist(z.t.r.i);
    assert Ids(z.t) == {i.p, z.t.l.i.p, z.t.r.i.p};
    Prune(v, w, all, z, i);
  }

  /** What is known about a node's two children. */
  lemma KidFacts(v: View, all: set<Ptr>, z: Zip)
    requires ZRep(v, all, z) && z.t.Node? && z.t.l.Node? && z.t.r.Node?
    ensures Here(v, z.t.i, z.t.l.i.p, z.t.r.i.p, CPtr(z.c))
    ensures Here(v, z.t.l.i, PtrOf(z.t.l.l), PtrOf(z.t.l.r), z.t.i.p)
    ensures Here(v, z.t.r.i, PtrOf(z.t.r.l), PtrOf(z.t.r.r), z.t.i.p)
    ensures {z.t.i.p, z.t.l.i.p, z.t.r.i.p} <= all
    ensures z.t.i.p != z.t.l.i.p && z.t.i.p != z.t.r.i.p && z.t.l.i.p != z.t.r.i.p
  {
    assert Rep(v, z.t.l, z.t.i.p) && Rep(v, z.t.r, z.t.i.p);
    assert z.t.l.i.p in Ids(z.t.l) && z.t.r.i.p in Ids(z.t.r);
  }

  /** Two free descriptors are no nodes, and differ from each other and from the node
      alloc_page may have put aside. */
  lemma TwoSpare(v: View, all: set<Ptr>, z: Zip, ids: seq<Ptr>)
    requires ZRep(v, all, z) && z.t.Node? && |ids| >= 2 && ids[0] != ids[1]
    requires forall k :: 0 <= k < |ids| ==> ids[k] in v.on && v.on[ids[k]] == DescHead
    ensures ids[0] in all && ids[1] in all && ids[0] in Descs(v) && ids[1] in Descs(v)
    ensures ids[0] !in CIds(z.c) + Ids(z.t) && ids[1] !in CIds(z.c) + Ids(z.t)
  {
    forall k | 0 <= k < 2 ensures ids[k] !in CIds(z.c) + Ids(z.t) {
      if ids[k] in CIds(z.c) {
        CIdHere(v, z.c, PtrOf(z.t), ids[k]);
      } else if ids[k] in Ids(z.t) {
        IdHere(v, z.t, CPtr(z.c), ids[k]);
      }
    }
  }

  lemma CtxMem(v: View, all: set<Ptr>, z: Zip)
    requires ZRep(v, all, z)
    ensures forall p :: p in CIds(z.c) ==> p in v.mem
  {
    forall p | p in CIds(z.c) ensures p in v.mem {
      CIdHere(v, z.c, PtrOf(z.t), p);
    }
  }

  /** A record has no children in memory exactly when its node has none. */
  lemma LeafRecord(v: View, t: Tree)
    requires t.Node? && Rep(v, t.l, t.i.p) && Rep(v, t.r, t.i.p)
    ensures PtrOf(t.l) == Null <==> t.l.Nil?
    ensures PtrOf(t.r) == Null <==> t.r.Nil?
  {
  }

  lemma NotYet(v: View, all: set<Ptr>, z: Zip, a: nat)
    requires ZRep(v, all, z) && forall k: nat :: Pooled(a, k) !in all
    ensures forall k: nat :: Pooled(a, k) !in v.on
  {
    assert Descs(v) <= all;
  }

  /** More free descriptors leave the tree as it is. */
  lemma PoolJoins(v: View, w: View, all: set<Ptr>, z: Zip, a: nat)
    requires ZRep(v, all, z) && w.mem == v.mem && w.off == v.off
    requires forall k: nat :: Pooled(a, k) !in all
    requires forall p :: p in w.on <==> p in v.on || (p.Pooled? && p.page == a && p.k < 127)
    requires forall p :: p in w.on ==> w.on[p] == if p in v.on then v.on[p] else DescHead
    ensures ZRep(w, all + (set k: nat | k < 127 :: Pooled(a, k)), z)
  {
    CRepFrame(v, w, z.c, PtrOf(z.t));
    RepFrame(v, w, z.t, CPtr(z.c));
    NotYet(v, all, z, a);
    assert Descs(w) == Descs(v) + (set k: nat | k < 127 :: Pooled(a, k));
  }

  lemma {:induction false} HideTree(v: View, w: View, t: Tree, par: Ptr)
    requires Rep(v, t, par) && v.off == Null && w == View(v.mem, v.on - {w.off}, w.off) && w.off !in Ids(t)
    ensures Rep(w, t, par)
    decreases t
  {
    if t.Node? {
      HideTree(v, w, t.l, t.i.p);
      HideTree(v, w, t.r, t.i.p);
    }
  }

  lemma {:induction false} HideCtx(v: View, w: View, c: Ctx, hole: Ptr)
    requires CRep(v, c, hole) && v.off == Null && w == View(v.mem, v.on - {w.off}, w.off) && w.off !in CIds(c)
    ensures CRep(w, c, hole)
    decreases c
  {
    if c.Down? {
      HideTree(v, w, c.sib, c.i.p);
      HideCtx(v, w, c.up, c.i.p);
    }
  }

  /** alloc_page takes a node off its list before the tree says so. */
  lemma Hide(v: View, w: View, all: set<Ptr>, z: Zip)
    requires ZRep(v, all, z) && z.t.Node? && z.t.i.listed && v.off == Null
    requires w == View(v.mem, v.on - {z.t.i.p}, z.t.i.p)
    ensures ZRep(w, all, z)
  {
    var p := z.t.i.p;
    HideCtx(v, w, z.c, p);
    HideTree(v, w, z.t.l, p);
    HideTree(v, w, z.t.r, p);
    assert Descs(w) == Descs(v);
  }

  /** What is on a class list is a node, and the lists know nothing of null. */
  lemma ListedNodes(v: View, all: set<Ptr>, t: Tree)
    requires ZRep(v, all, Zip(Top, t)) && Null !in all
    ensures Null !in v.on
    ensures forall p :: p in v.on && v.on[p] != DescHead ==> p in Ids(t) && p in v.mem && p != v.off
  {
    forall p | p in v.on && v.on[p] != DescHead ensures p in Ids(t) && p in v.mem && p != v.off {
      ListedHere(v, t, Null, p);
    }
    assert Null !in Descs(v) && Null !in Ids(t);
  }

  lemma {:induction false} ListedHere(v: View, t: Tree, par: Ptr, p: Ptr)
    requires Rep(v, t, par) && p in Ids(t) && p in v.on
    ensures p != Null && p in v.mem && p != v.off
    decreases t
  {
    if p in Ids(t.l) {
      ListedHere(v, t.l, t.i.p, p);
    } else if p in Ids(t.r) {
      ListedHere(v, t.r, t.i.p, p);
    }
  }
}
