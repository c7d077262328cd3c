/**
 The physical page allocator of kern/pmap.c: records in memory, the free lists, the pool
 of free descriptors, and the operations that update them in place. Every operation is
 proved to turn the tree it found into the tree its function of BuddyOps, BuddyLookup or
 BuddyTypes says.
 */
module Buddy {
  import opened Arith
  import opened BuddyTree
  import opened BuddyOps
  import opened BuddyLookup
  import opened BuddyTypes
  import opened BuddyOrder
  import opened BuddyPool
  import opened BuddyRep
  import opened BuddyShape
  import opened BuddySteps
  import opened BuddyClaim
  import opened BuddySupply
  import opened BuddyGreedy
  import opened Lists

  const INIT_DESCR: nat := 256

  predicate IsHead(p: Ptr) {
    p == DescHead || (p.ClassHead? && p.c < MAX_CLASS)
  }

  predicate IsRecord(p: Ptr) {
    p.Root? || p.Boot? || p.Pooled?
  }

  const RootInfo := Info(Root, Partial, 0, MAX_CLASS, 0, false, 0, false)

  /** The root and the statically allocated descriptors. */
  function FirstDescs(): (s: set<Ptr>) {
    {Root} + (set i: nat | i < INIT_DESCR :: Boot(i))
  }

  lemma FirstMembers()
    ensures forall p :: p in FirstDescs() <==> p == Root || (p.Boot? && p.i < INIT_DESCR)
  {
  }

  lemma FirstRoot()
    ensures RootInv(Leaf(RootInfo))
  {
    LeafDist(RootInfo);
    LeafInv(RootInfo, RootSlot);
  }

  lemma FirstView(v: View)
    requires v == View(map[Root := Rec(RootInfo, Null, Null, Null)], v.on, Null)
    requires forall p :: p in v.on <==> p.Boot? && p.i < INIT_DESCR
    requires forall p :: p in v.on ==> v.on[p] == DescHead
    ensures ZRep(v, FirstDescs(), Zip(Top, Leaf(RootInfo)))
  {
    LeafDist(RootInfo);
    assert Descs(v) == set i: nat | i < INIT_DESCR :: Boot(i);
  }

  /** The node off its list, the half not entered on one. */
  function Passed(t: Tree, right: bool): (u: Tree)
    requires t.Node?
  {
    Node(t.i.(listed := false), if right then Listed(t.l) else t.l, if right then t.r else Listed(t.r))
  }

  /** A node that is being split: its halves are there, and if it was free it is off its list
      and the half not entered is on one. */
  function Halved(t: Tree, right: bool, ids: seq<Ptr>): (g: Tree)
    requires t.Node? && t.i.cls > 0 && |ids| >= 2 && (t.l.Node? <==> t.r.Node?)
  {
    if t.i.st == Allocatable && IsFree(t) then Passed(Grow(t, ids), right) else Grow(t, ids)
  }

  lemma StepIs(z: Zip, right: bool, ty: State, ids: seq<Ptr>)
    requires z.t.Node? && z.t.i.cls > 0 && |ids| >= 2 && (z.t.l.Node? <==> z.t.r.Node?)
    requires z.t.i.listed ==> z.t.i.st == Allocatable && IsFree(z.t)
    ensures var s := Enter(z, right, ty, ids);
      var g := Halved(z.t, right, ids);
      && g.Node? && g.l.Node? && g.r.Node? && g.i.p == z.t.i.p
      && s.c == Down(g.i.(st := PathState(g.i.st, ty)), right, if right then g.l else g.r, z.c)
      && s.t == if right then g.r else g.l
  {
  }

  /** The records above the focus are the same in both memories. */
  ghost predicate Kept(c: Ctx, m: map<Ptr, Page>, n: map<Ptr, Page>) {
    forall p :: p in CIds(c) ==> p in m && p in n && m[p] == n[p]
  }

  /** The walk from s down to class cls ends at z and leaves these descriptors over. */
  predicate Reached(z: Zip, s: Zip, cls: nat, addr: nat, ty: State, ids: seq<Ptr>, rest: seq<Ptr>) {
    && s.t.Node? && cls <= s.t.i.cls && |ids| >= 2 * (s.t.i.cls - cls)
    && z == Lookup(s, s.t.i.cls - cls, addr, ty, ids) && rest == WalkRest(s, s.t.i.cls - cls, addr, ty, ids)
  }

  lemma KeptOn(c: Ctx, d: Ctx, m: map<Ptr, Page>, n: map<Ptr, Page>, o: map<Ptr, Page>)
    requires CIds(c) <= CIds(d) && Kept(c, m, n) && Kept(d, n, o)
    ensures Kept(c, m, o)
  {
  }

  /** Memory to be attached is in use. */
  predicate Blocked(e: Attempt) {
    Sound(e) && !NoRefs(Target(e.t, e.b, e.ids))
  }

  /** The node just allocated is held, and releasing it gives the first tree back. */
  lemma TreeBack(t: Tree, z: Zip, c: nat, ids: seq<Ptr>)
    requires RootInv(t) && Source(t, z, c) && |ids| >= 2 * (z.t.i.cls - c) && Coalesced(t)
    ensures var r := AllocWalk(z, c, ids);
      && r.t.Node? && RefSub(r.t).Node? && Hold(RefSub(r.t), false).i.p == PtrOf(r.t)
      && Hold(RefSub(r.t), false).Node? && Hold(RefSub(r.t), false).i.held > 0
      && Whole(Zip(r.c, Hold(RefSub(r.t), false))) == AllocTree(z, c, ids, false)
      && UnrefTree(Zip(r.c, Hold(RefSub(r.t), false))) == t
  {
    hide Inv, AllocWalk, AllocTree, UnrefTree, Coalesced;
    AllocThenRelease(t, z, c, ids);
    RefSubInfo(AllocWalk(z, c, ids).t);
  }

  /** After a claim the root is an untyped root, and the pools are where they were. */
  lemma ClaimedRoot(v: View, all: set<Ptr>, t: Tree, c: nat, a: nat, ids: seq<Ptr>, u: Tree)
    requires RootInv(t) && Housed(all, t) && IsBlock(c, a) && |ids| >= 2 * (MAX_CLASS - c)
    requires u == ClaimTree(t, c, a, ids) && ZRep(v, all, Zip(Top, u))
    ensures RootInv(u) && Housed(all, u)
  {
    hide ClaimTree, Accounted, IsBlock;
    ClaimKeeps(t, c, a, ids);
    assert PtrOf(u) == Root;
    forall x: nat, k: nat | Pooled(x, k) in all ensures Pools(u, x) > 0 {
      ClaimHolds(t, c, a, ids, 0, x);
    }
  }

  class Allocator {
    var mem: map<Ptr, Page>
    const links: ListHeap
    var freeDescCount: nat
    var allocatingPool: bool
    /** The pools in use, newest first: first page of each, and the node it came from. */
    var pools: seq<(nat, Ptr)>
    /** Every descriptor there is: nodes of the tree and free descriptors. */
    ghost var all: set<Ptr>
    /** A node alloc_page has taken off its list and not yet split. */
    ghost var off: Ptr
    /** The tree between operations. */
    ghost var tree: Tree

    ghost function V(): View
      reads `mem, `off, links
    {
      View(mem, links.on, off)
    }

    ghost predicate ListsOk()
      reads `freeDescCount, `all, links
    {
      && links.Valid()
      && (forall h :: h in links.lists <==> IsHead(h))
      && freeDescCount == |links.lists[DescHead]|
      && (forall p :: p in all ==> IsRecord(p) && p in links.m.next)
    }

    /** Memory and lists are the tree with this focus. */
    ghost predicate At(z: Zip)
      reads this, links
    {
      ListsOk() && ZRep(V(), all, z)
    }

    /** init_allocator: empty free lists, INIT_DESCR free descriptors, and a root that
        covers everything and has no type. */
    constructor ()
      ensures Valid() && fresh(links)
      ensures tree == Node(Info(Root, Partial, 0, 48, 0, false, 0, false), Nil, Nil)
      ensures freeDescCount == 256 && forall p :: p in all <==> p == Root || (p.Boot? && p.i < 256)
    {
      hide Linked, RootInv, IsHead, FirstDescs, Steady;
      links := new ListHeap();
      freeDescCount := INIT_DESCR;
      mem := map[Root := Rec(RootInfo, Null, Null, Null)];
      allocatingPool, off, tree := false, Null, Leaf(RootInfo);
      all := FirstDescs();
      new;
      InitLists(links);
      FirstAt();
      FirstMembers();
    }

    lemma FirstAt()
      requires links.Valid() && (forall h :: h in links.lists <==> IsHead(h))
      requires DescHead in links.lists && |links.lists[DescHead]| == freeDescCount
      requires forall p :: p in links.on <==> p.Boot? && p.i < INIT_DESCR
      requires forall p :: p in links.on ==> links.on[p] == DescHead
      requires forall k :: 0 <= k < INIT_DESCR ==> Boot(k) in links.m.next
      requires Root in links.m.next
      requires V() == View(map[Root := Rec(RootInfo, Null, Null, Null)], links.on, Null) && all == FirstDescs()
      ensures Steady(Leaf(RootInfo))
    {
      hide Linked, ZRep, RootInv, IsHead;
      FirstMembers();
      hide FirstDescs;
      FirstView(V());
      FirstRoot();
    }

    static method InitLists(links: ListHeap)
      requires links.Valid() && links.lists == map[] && links.on == map[]
      modifies links
      ensures links.Valid()
      ensures forall h :: h in links.lists <==> IsHead(h)
      ensures DescHead in links.lists && |links.lists[DescHead]| == INIT_DESCR
      ensures forall p :: p in links.on <==> p.Boot? && p.i < INIT_DESCR
      ensures forall p :: p in links.on ==> links.on[p] == DescHead
      ensures forall k :: 0 <= k < INIT_DESCR ==> Boot(k) in links.m.next
      ensures Root in links.m.next
    {
      hide Linked;
      for c := 0 to MAX_CLASS
        invariant links.Valid() && links.on == map[]
        invariant forall h :: h in links.lists <==> h.ClassHead? && h.c < c
      {
        links.InitHead(ClassHead(c));
      }
      links.InitHead(DescHead);
      for i := 0 to INIT_DESCR
        invariant links.Valid()
        invariant forall h :: h in links.lists <==> IsHead(h)
        invariant DescHead in links.lists && |links.lists[DescHead]| == i
        invariant forall p :: p in links.on <==> p.Boot? && p.i < i
        invariant forall p :: p in links.on ==> links.on[p] == DescHead
        invariant forall k :: 0 <= k < i ==> Boot(k) in links.m.next
      {
        links.Append(DescHead, Boot(i));
      }
      links.Init(Root);
    }

    // ---------------------------------------------------------- lists

    /** The free descriptors, the next one to be handed out first. */
    ghost function Spare(): seq<Ptr>
      requires ListsOk()
      reads `freeDescCount, `all, links
    {
      links.lists[DescHead]
    }

    /** list_del of a node. */
    method Unlist(page: Ptr)
      requires ListsOk() && page in all && (page in links.on ==> links.on[page] != DescHead)
      modifies links
      ensures ListsOk() && Spare() == old(Spare())
      ensures links.on == old(links.on) - {page}
    {
      hide Linked;
      links.Del(page);
    }

    /** list_append of a node to the free list of a class. */
    method Enlist(cls: nat, page: Ptr)
      requires ListsOk() && page in all && page !in links.on && cls < MAX_CLASS
      modifies links
      ensures ListsOk() && Spare() == old(Spare())
      ensures links.on == old(links.on)[page := ClassHead(cls)]
    {
      hide Linked;
      links.Append(ClassHead(cls), page);
    }

    method FreeDescriptor(page: Ptr)
      requires ListsOk() && page in all && (page in links.on ==> links.on[page] != DescHead)
      modifies this`freeDescCount, links
      ensures ListsOk() && Spare() == [page] + old(Spare()) && freeDescCount == old(freeDescCount) + 1
      ensures links.on == old(links.on)[page := DescHead]
    {
      hide Linked;
      links.Del(page);
      links.Append(DescHead, page);
      freeDescCount := freeDescCount + 1;
    }

    // ---------------------------------------------------------- descriptors

    /** Releases a whole subtree; the walk is recursive to the right and a loop to the
        left. */
    method FreeDescRec(page: Ptr, ghost t: Tree, ghost par: Ptr)
      requires ListsOk() && Rep(V(), t, par) && Dist(t) && NoRefs(t) && Ids(t) <= all
      requires page == PtrOf(t)
      modifies this`freeDescCount, links
      ensures ListsOk() && freeDescCount >= old(freeDescCount)
      ensures forall p :: p in Ids(t) ==> p in links.on && links.on[p] == DescHead
      ensures forall p :: p !in Ids(t) ==>
        (p in links.on <==> p in old(links.on)) && (p in links.on ==> links.on[p] == old(links.on)[p])
      decreases t
    {
      hide Linked, ListsOk;
      var p := page;
      ghost var s, up := t, par;
      while p != Null
        invariant freeDescCount >= old(freeDescCount)
        invariant ListsOk() && Rep(V(), s, up) && Dist(s) && NoRefs(s) && Ids(s) <= Ids(t) && p == PtrOf(s)
        invariant forall q :: q in Ids(t) && q !in Ids(s) ==> q in links.on && links.on[q] == DescHead
        invariant forall q :: q !in Ids(t) ==>
          (q in links.on <==> q in old(links.on)) && (q in links.on ==> links.on[q] == old(links.on)[q])
        decreases s
      {
        ghost var v := V();
        FreeDescRec(mem[p].right, s.r, s.i.p);
        RepFrame(v, V(), s.l, s.i.p);
        var tmp := mem[p].left;
        ghost var w := V();
        FreeDescriptor(p);
        RepFrame(w, V(), s.l, s.i.p);
        s, up := s.l, s.i.p;
        p := tmp;
      }
    }

    // ---------------------------------------------------------- references

    /** A node leaves its list. */
    method TakeOff(node: Ptr, ghost z: Zip)
      requires At(z) && z.t.Node? && node == z.t.i.p
      modifies links
      ensures At(Zip(z.c, Unlisted(z.t))) && Spare() == old(Spare())
    {
      hide Linked, ListsOk, ZRep, Accounted;
      FocusFacts(V(), all, z);
      ghost var v := V();
      Unlist(node);
      SetInfo(v, V(), all, z, z.t.i.(listed := false));
    }

    /** page_ref: counts a reference; the first one takes the node off its list and is
        passed on to everything below. */
    method PageRef(node: Ptr, ghost z: Zip)
      requires ListsOk() && node == PtrOf(z.t) && (z.t.Node? ==> At(z) && Shape(z.t))
      modifies this`mem, links
      ensures ListsOk() && Spare() == old(Spare())
      ensures z.t.Node? ==> At(Zip(z.c, RefSub(z.t)))
      ensures forall p :: p !in Ids(z.t) ==> (p in mem <==> p in old(mem)) && (p in mem ==> mem[p] == old(mem)[p])
      ensures z.t.Nil? ==> mem == old(mem) && unchanged(links)
      decreases Height(z.t), 1
    {
      hide Linked, ListsOk, ZRep, Accounted;
      if z.t.Node? {
        FocusFacts(V(), all, z);
      }
      if node == Null {
        return;
      }
      ghost var v, i := V(), z.t.i;
      var refc := mem[node].refc;
      mem := mem[node := mem[node].(refc := refc + 1)];
      SetInfo(v, V(), all, z, i.(refc := i.refc + 1));
      if refc == 0 {
        TakeOff(node, Zip(z.c, Node(i.(refc := 1), z.t.l, z.t.r)));
        PageRefBelow(node, Zip(z.c, Node(i.(refc := 1, listed := false), z.t.l, z.t.r)));
      }
    }

    /** The two recursive calls of page_ref. */
    method PageRefBelow(node: Ptr, ghost z: Zip)
      requires z.t.Node? && node == z.t.i.p && At(z) && Shape(z.t.l) && Shape(z.t.r) && (z.t.l.Node? <==> z.t.r.Node?)
      modifies this`mem, links
      ensures At(Zip(z.c, Node(z.t.i, RefSub(z.t.l), RefSub(z.t.r)))) && Spare() == old(Spare())
      ensures forall p :: p !in Ids(z.t) ==> (p in mem <==> p in old(mem)) && (p in mem ==> mem[p] == old(mem)[p])
      decreases Height(z.t), 0
    {
      hide Linked, ListsOk, ZRep, Accounted;
      ghost var l, r := z.t.l, z.t.r;
      FocusFacts(V(), all, z);
      ghost var c1, c2 := Down(z.t.i, false, r, z.c), Down(z.t.i, true, RefSub(l), z.c);
      if l.Node? {
        Move(V(), all, c1, l);
      }
      PageRef(mem[node].left, Zip(c1, l));
      if l.Node? {
        Move(V(), all, c1, RefSub(l));
        Move(V(), all, c2, r);
      }
      PageRef(mem[node].right, Zip(c2, r));
      if l.Node? {
        Move(V(), all, c2, RefSub(r));
      }
    }

    /** PAGE_IS_FREE. */
    predicate FreeRecord(q: Page) {
      q.refc == 0 && q.left == Null && q.right == Null
    }

    /** The merge loop of page_unref and the list update after it. */
    method MergeUp(start: Ptr, ghost z: Zip)
      requires At(z) && IsFree(z.t) && start == z.t.i.p && CShape(z.c) && InfoType(z.t.i) && off == Null
      modifies this`mem, this`freeDescCount, links
      ensures At(Merge(Zip(z.c, Flag(z.t))))
    {
      hide Linked, ListsOk, ZRep, Accounted;
      var page := start;
      ghost var y := z;
      while page != Root
        invariant At(y) && IsLeaf(y.t) && page == y.t.i.p && CShape(y.c) && InfoType(y.t.i)
        invariant Merge(Zip(y.c, Flag(y.t))) == Merge(Zip(z.c, Flag(z.t)))
        decreases y.c
      {
        FocusFacts(V(), all, y);
        CtxFacts(V(), all, y);
        var par := mem[page].parent;
        var left, right := mem[par].left, mem[par].right;
        if mem[par].st == mem[page].st && FreeRecord(mem[left]) && FreeRecord(mem[right]) {
          y := MergeOnce(par, y);
          page := par;
        } else {
          break;
        }
      }
      FocusFacts(V(), all, y);
      assert Merge(Zip(y.c, Flag(y.t))) == Zip(y.c, Flag(y.t));
      RelistInPlace(page, y);
    }

    /** list_del and, for Allocatable memory, list_append at the end of page_unref. */
    method RelistInPlace(page: Ptr, ghost z: Zip)
      requires At(z) && z.t.Node? && page == z.t.i.p && InfoType(z.t.i) && off == Null
      modifies links
      ensures At(Zip(z.c, Flag(z.t)))
    {
      hide Linked, ListsOk, ZRep, Accounted;
      TakeOff(page, z);
      FocusFacts(V(), all, Zip(z.c, Unlisted(z.t)));
      if mem[page].st == Allocatable {
        ghost var v := V();
        Enlist(mem[page].cls, page);
        SetInfo(v, V(), all, Zip(z.c, Unlisted(z.t)), Flag(z.t).i);
      }
    }

    /** Both children of a node become free descriptors. */
    method GiveBoth(par: Ptr)
      requires ListsOk() && par in mem && mem[par].left in all && mem[par].right in all
      requires mem[par].left in links.on ==> links.on[mem[par].left] != DescHead
      requires mem[par].right in links.on ==> links.on[mem[par].right] != DescHead
      requires mem[par].left != mem[par].right
      modifies this`mem, this`freeDescCount, links
      ensures ListsOk() && mem == old(mem)[par := old(mem)[par].(left := Null, right := Null)]
      ensures links.on == old(links.on)[old(mem)[par].left := DescHead][old(mem)[par].right := DescHead]
    {
      hide Linked, ListsOk;
      FreeDescriptor(mem[par].left);
      mem := mem[par := mem[par].(left := Null)];
      FreeDescriptor(mem[par].right);
      mem := mem[par := mem[par].(right := Null)];
    }

    /** One turn of the loop: both buddies are given back and the parent is listed. */
    method MergeOnce(par: Ptr, ghost z: Zip) returns (ghost y: Zip)
      requires At(z) && IsFree(z.t) && CShape(z.c) && z.c.Down? && IsFree(z.c.sib) && off == Null
      requires par == z.c.i.p && z.c.i.st == z.t.i.st
      modifies this`mem, this`freeDescCount, links
      ensures y == Zip(z.c.up, Leaf(z.c.i.(listed := z.c.i.st == Allocatable)))
      ensures At(y)
    {
      hide Linked, ListsOk, ZRep, Accounted, Rep, Dist, Ids, CIds;
      ghost var v, i := V(), z.c.i;
      ghost var f := Fill(z.c.right, i, z.c.sib, z.t);
      Move(v, all, z.c, z.t);
      KidFacts(v, all, Zip(z.c.up, f));
      GiveBoth(par);
      if mem[par].st == Allocatable {
        Enlist(mem[par].cls, par);
      }
      y := Zip(z.c.up, Leaf(i.(listed := i.st == Allocatable)));
      Collapse(v, V(), all, Zip(z.c.up, f), y.t.i);
    }

    /** One reference less. */
    method CountDown(page: Ptr, ghost z: Zip)
      requires At(z) && z.t.Node? && page == z.t.i.p && z.t.i.refc > 0
      modifies this`mem
      ensures At(Zip(z.c, z.t.(i := z.t.i.(refc := z.t.i.refc - 1)))) && page in mem
      ensures FreeRecord(mem[page]) <==> z.t.i.refc == 1 && z.t.l.Nil? && z.t.r.Nil?
    {
      hide Linked, ListsOk, ZRep, Accounted;
      FocusFacts(V(), all, z);
      LeafRecord(V(), z.t);
      ghost var v := V();
      mem := mem[page := mem[page].(refc := mem[page].refc - 1)];
      SetInfo(v, V(), all, z, z.t.i.(refc := z.t.i.refc - 1));
    }

    /** page_unref: releases a reference; the last one is passed on to everything below
        before the count reaches zero, and a node that became free is merged upwards. */
    method PageUnref(page: Ptr, ghost z: Zip)
      requires ListsOk() && page == PtrOf(z.t) && off == Null
      requires z.t.Node? ==> At(z) && Shape(z.t) && CShape(z.c) && z.t.i.refc > 0
      modifies this`mem, this`freeDescCount, links
      ensures ListsOk()
      ensures z.t.Node? ==> At(Unref(z))
      ensures z.t.Nil? ==> mem == old(mem) && freeDescCount == old(freeDescCount) && unchanged(links)
      decreases Height(z.t), 1
    {
      hide Linked, ListsOk, ZRep, Accounted;
      if z.t.Node? {
        FocusFacts(V(), all, z);
      }
      if page == Null {
        return;
      }
      ghost var t := z.t;
      if mem[page].refc == 1 {
        PageUnrefBelow(page, z);
        t := Mid(z.t);
        FocusFacts(V(), all, Zip(z.c, t));
      }
      ghost var u := t.(i := t.i.(refc := t.i.refc - 1));
      CountDown(page, Zip(z.c, t));
      UnrefEnd(z, t, u);
      if FreeRecord(mem[page]) {
        MergeUp(page, Zip(z.c, u));
      }
    }

    /** The two recursive calls of page_unref. The second one may merge the pair while the
        node still counts its last reference. */
    method PageUnrefBelow(page: Ptr, ghost z: Zip)
      requires off == Null && z.t.Node? && page == z.t.i.p && At(z) && Shape(z.t) && CShape(z.c) && z.t.i.refc == 1
      modifies this`mem, this`freeDescCount, links
      ensures At(Zip(z.c, Mid(z.t)))
      decreases Height(z.t), 0
    {
      hide Linked, ListsOk, ZRep, Accounted;
      ghost var i, l, r := z.t.i, z.t.l, z.t.r;
      FocusFacts(V(), all, z);
      ghost var c1, c2 := Down(i, false, r, z.c), Down(i, true, UnrefSub(l), z.c);
      if l.Node? {
        Move(V(), all, c1, l);
        UnrefLeft(z.c, i, l, r);
      }
      PageUnref(mem[page].left, Zip(c1, l));
      if l.Node? {
        Move(V(), all, c1, UnrefSub(l));
        UnrefSubNode(l);
        FocusFacts(V(), all, Zip(z.c, Node(i, UnrefSub(l), r)));
        Move(V(), all, c2, r);
        UnrefRight(z.c, i, l, r);
      }
      PageUnref(mem[page].right, Zip(c2, r));
      if l.Node? && !Merges(i, UnrefSub(l), UnrefSub(r)) {
        Move(V(), all, c2, UnrefSub(r));
      }
    }

    // ---------------------------------------------------------- page_lookup

    lemma SpareFacts()
      requires ListsOk()
      ensures NoDup(Spare()) && |Spare()| == freeDescCount
      ensures forall k :: 0 <= k < |Spare()| ==> Spare()[k] in links.on && links.on[Spare()[k]] == DescHead
      ensures forall p :: p in all ==> IsRecord(p)
    {
      hide Linked;
      links.Members(DescHead);
    }

    /** The first free descriptor, cleared. */
    method FirstDescriptor(st: State) returns (new_: Ptr)
      requires ListsOk() && freeDescCount > 0 && Spare()[0] in all
      modifies this`mem, this`freeDescCount, links
      ensures new_ == old(Spare())[0]
      ensures ListsOk() && Spare() == old(Spare())[1..] && freeDescCount == old(freeDescCount) - 1
      ensures links.on == old(links.on) - {new_}
      ensures mem == old(mem)[new_ := Page(Null, Null, Null, st, 0, 0, 0)]
    {
      hide Linked;
      links.First(DescHead);
      links.Members(DescHead);
      new_ := links.Next(DescHead);
      links.Del(new_);
      mem := mem[new_ := Page(Null, Null, Null, st, 0, 0, 0)];
      links.Init(new_);
      freeDescCount := freeDescCount - 1;
    }

    /** alloc_descriptor. If there is no free descriptor, a refill comes first, and the answer
        is Null where that panics; the new descriptor is no node of the tree. */
    method AllocDescriptor(st: State, ghost t: Tree) returns (new_: Ptr, ghost u: Tree)
      requires ListsOk() && (if freeDescCount > 0 then Spare()[0] in all else Steady(t) && !allocatingPool)
      modifies if freeDescCount > 0 then {} else {this}
      modifies this`mem, this`freeDescCount, links
      ensures new_ != Null <==> old(Supplied(1, Null))
      ensures old(freeDescCount) > 0 ==> new_ == old(Spare())[0] && ListsOk() && Spare() == old(Spare())[1..]
      ensures old(freeDescCount) > 0 ==> freeDescCount == old(freeDescCount) - 1 && links.on == old(links.on) - {new_}
      ensures old(freeDescCount) > 0 ==> mem == old(mem)[new_ := Page(Null, Null, Null, st, 0, 0, 0)]
      ensures old(freeDescCount) == 0 && new_ != Null ==> Refilled(t, u) && ListsOk() && Rep(V(), u, Null)
      ensures new_ != Null ==> new_ in all && new_ in mem && mem[new_] == Page(Null, Null, Null, st, 0, 0, 0)
      ensures old(freeDescCount) == 0 && new_ != Null ==> new_ !in Ids(u) && new_ !in links.on
      decreases if allocatingPool then 0 else 1, 3, 0
    {
      hide Linked, ListsOk, ZRep, Accounted, RootInv, Housed, Refilled, Rep, Ids;
      new_, u := Null, t;
      SpareFacts();
      if freeDescCount == 0 {
        var ok;
        ok, u := EnsureFreeDesc(1, t);
        if !ok {
          return;
        }
        SpareOutside(u);
      }
      ghost var v := V();
      new_ := FirstDescriptor(st);
      if old(freeDescCount) == 0 {
        RepFrame(v, V(), u, Null);
      }
    }

    /** A free descriptor is no node. */
    lemma SpareOutside(u: Tree)
      requires Steady(u) && freeDescCount > 0
      ensures |Spare()| > 0 && Spare()[0] in all && Spare()[0] != Null
      ensures Spare()[0] !in Ids(u) && Rep(V(), u, Null)
    {
      hide Linked, Housed, RootInv;
      SpareFacts();
      var p := Spare()[0];
      assert p in Descs(V());
      if p in Ids(u) {
        NodeNotDesc(V(), all, Zip(Top, u), p);
      }
    }

    /** alloc_child. */
    method AllocChild(parent: Ptr, right: bool) returns (new_: Ptr)
      requires ListsOk() && freeDescCount > 0 && Spare()[0] in all
      requires parent in mem && mem[parent].cls > 0 && parent != Spare()[0]
      modifies this`mem, this`freeDescCount, links
      ensures new_ == old(Spare())[0]
      ensures ListsOk() && Spare() == old(Spare())[1..] && freeDescCount == old(freeDescCount) - 1
      ensures links.on == old(links.on) - {new_}
      ensures var p := old(mem)[parent];
        mem == old(mem)[new_ := Page(Null, Null, parent, p.st, if p.refc > 0 then 1 else 0, p.cls - 1,
                                     if right then p.addr + Pow2(p.cls - 1) else p.addr)]
                       [parent := if right then p.(right := new_) else p.(left := new_)]
      decreases if allocatingPool then 0 else 1, 3, 1
    {
      hide Linked, ListsOk;
      ghost var u;
      new_, u := AllocDescriptor(Partial, Nil);
      var p, child := mem[parent], mem[new_];
      child := child.(parent := parent, st := p.st, refc := if p.refc > 0 then 1 else 0, cls := p.cls - 1);
      child := child.(addr := if right then p.addr + Pow2(p.cls - 1) else p.addr);
      mem := mem[new_ := child];
      mem := mem[parent := if right then p.(right := new_) else p.(left := new_)];
    }

    /** The node alloc_page has put aside, if any, is not below the focus. */
    ghost predicate Away(z: Zip)
      reads `off
    {
      off == Null || off in CIds(z.c)
    }

    /** The two calls of alloc_child, each made if that child is missing; a node lacks both or
        none. */
    method MakeChildren(node: Ptr)
      requires ListsOk() && node in mem && mem[node].cls > 0 && (mem[node].left == Null <==> mem[node].right == Null)
      requires mem[node].left == Null ==>
        freeDescCount >= 2 && Spare()[0] in all && Spare()[1] in all && Spare()[0] != Spare()[1]
      requires mem[node].left == Null ==>
        node != Spare()[0] && node != Spare()[1] && Spare()[0] != Null && Spare()[1] != Null
      modifies this`mem, this`freeDescCount, links
      ensures ListsOk() && Spare() == (if old(mem)[node].left == Null then old(Spare())[2..] else old(Spare()))
      ensures old(mem)[node].left != Null ==> mem == old(mem) && links.on == old(links.on)
      ensures old(mem)[node].left == Null ==>
        var q, a, b := old(mem)[node], old(Spare())[0], old(Spare())[1];
        var r := if q.refc > 0 then 1 else 0;
        && links.on == old(links.on) - {a, b}
        && mem == old(mem)[a := Page(Null, Null, node, q.st, r, q.cls - 1, q.addr)]
                          [b := Page(Null, Null, node, q.st, r, q.cls - 1, q.addr + Pow2(q.cls - 1))]
                          [node := q.(left := a, right := b)]
      decreases if allocatingPool then 0 else 1, 3, 2
    {
      hide Linked, Pow2;
      if mem[node].left == Null {
        var a := AllocChild(node, false);
      }
      if mem[node].right == Null {
        var b := AllocChild(node, true);
      }
    }

    /** The two halves of a node, made if it has none. */
    method Split(node: Ptr, ghost z: Zip)
      requires At(z) && z.t.Node? && node == z.t.i.p && z.t.i.cls > 0 && (z.t.l.Node? <==> z.t.r.Node?)
      requires (z.t.l.Nil? ==> freeDescCount >= 2) && Away(z)
      modifies this`mem, this`freeDescCount, links
      ensures ListsOk() && Spare() == (if z.t.l.Nil? then old(Spare())[2..] else old(Spare()))
      ensures z.t.l.Nil? ==> |old(Spare())| >= 2
      ensures At(Zip(z.c, if z.t.l.Nil? then Grow(z.t, old(Spare())) else z.t))
      ensures forall p :: p in CIds(z.c) ==> p in mem && p in old(mem) && mem[p] == old(mem)[p]
      decreases if allocatingPool then 0 else 1, 3, 3
    {
      hide Linked, ListsOk, ZRep, Accounted, Rep, Dist, Ids, CIds, Pow2;
      FocusFacts(V(), all, z);
      SpareFacts();
      CtxMem(V(), all, z);
      LeafRecord(V(), z.t);
      ghost var v, ids := V(), Spare();
      if z.t.l.Nil? {
        TwoSpare(v, all, z, ids);
      }
      MakeChildren(node);
      if z.t.l.Nil? {
        Sprout(v, V(), all, z, ids);
      }
    }

    /** A free node that is being split leaves its list to the half not entered. */
    method PassOn(node: Ptr, other: Ptr, right: bool, ghost z: Zip)
      requires At(z) && z.t.Node? && z.t.l.Node? && z.t.r.Node? && node == z.t.i.p && Away(z)
      requires 0 < z.t.i.cls <= MAX_CLASS && other == (if right then z.t.l else z.t.r).i.p
      requires !(if right then z.t.l else z.t.r).i.listed
      requires (if right then z.t.l else z.t.r).i.cls == z.t.i.cls - 1
      modifies links
      ensures At(Zip(z.c, Passed(z.t, right))) && Spare() == old(Spare())
    {
      hide Linked, ListsOk, ZRep, Accounted;
      TakeOff(node, z);
      ghost var i := z.t.i.(listed := false);
      KidFacts(V(), all, Zip(z.c, Unlisted(z.t)));
      FocusFacts(V(), all, Zip(z.c, Unlisted(z.t)));
      ghost var w := V();
      ghost var kid, sib := if right then z.t.l else z.t.r, if right then z.t.r else z.t.l;
      ghost var c := Down(i, !right, sib, z.c);
      Move(w, all, c, kid);
      Enlist(mem[node].cls - 1, other);
      SetInfo(w, V(), all, Zip(c, kid), kid.i.(listed := true));
      Move(V(), all, c, Listed(kid));
    }

    /** The first half of a turn: split the node, and pass its place on a list on. */
    method Halve(node: Ptr, right: bool, ghost z: Zip) returns (ghost y: Zip)
      requires At(z) && FInv(z) && node == z.t.i.p && 0 < z.t.i.cls <= MAX_CLASS && Away(z)
      requires freeDescCount >= 2 && |Spare()| >= 2
      modifies this`mem, this`freeDescCount, links
      ensures At(y) && y.c == z.c && y.t == Halved(z.t, right, old(Spare())) && Spare() == Rest(z.t, old(Spare()))
      ensures y.t.Node? && y.t.l.Node? && y.t.r.Node? && y.t.i.p == z.t.i.p
      ensures forall p :: p in CIds(z.c) ==> p in mem && p in old(mem) && mem[p] == old(mem)[p]
      decreases if allocatingPool then 0 else 1, 3, 4
    {
      hide Linked, ListsOk, ZRep, Accounted, CInv, Inv, Rep, Dist, Ids, Pow2;
      FocusFacts(V(), all, z);
      FocusPair(z);
      ghost var ids := Spare();
      var wasFree := mem[node].st == Allocatable && FreeRecord(mem[node]);
      LeafRecord(V(), z.t);
      Split(node, z);
      y := Zip(z.c, Grow(z.t, ids));
      KidFacts(V(), all, y);
      if wasFree {
        var other := if !right then mem[node].right else mem[node].left;
        PassOn(node, other, right, y);
        y := Zip(z.c, Passed(y.t, right));
      }
    }

    /** One turn of the loop of page_lookup. */
    method StepDown(node: Ptr, addr: nat, ty: State, ghost z: Zip) returns (next: Ptr, ghost s: Zip)
      requires At(z) && FInv(z) && node == z.t.i.p && 0 < z.t.i.cls <= MAX_CLASS && Away(z)
      requires freeDescCount >= 2 && |Spare()| >= 2
      modifies this`mem, this`freeDescCount, links
      ensures s == Step(z, addr, ty, old(Spare())) && At(s) && next == PtrOf(s.t)
      ensures Spare() == Rest(z.t, old(Spare()))
      ensures forall p :: p in CIds(z.c) ==> p in mem && p in old(mem) && mem[p] == old(mem)[p]
      decreases if allocatingPool then 0 else 1, 3, 5
    {
      hide Linked, ListsOk, ZRep, Accounted, FInv, Rep, Dist, Ids, Bit, Enter, Halved, Away, Pow2;
      FocusPair(z);
      FocusFacts(V(), all, z);
      ghost var ids := Spare();
      var right := Bit(addr, mem[node].cls - 1);
      ghost var y := Halve(node, right, z);
      s := Step(z, addr, ty, ids);
      StepIs(z, right, ty, ids);
      next := Turn(node, right, ty, s, y);
    }

    /** The end of the turn: retype the node, enter a half. */
    method Turn(node: Ptr, right: bool, ty: State, ghost s: Zip, ghost y: Zip) returns (next: Ptr)
      requires At(y) && y.t.Node? && y.t.l.Node? && y.t.r.Node? && node == y.t.i.p
      requires s.c == Down(y.t.i.(st := PathState(y.t.i.st, ty)), right, if right then y.t.l else y.t.r, y.c)
      requires s.t == if right then y.t.r else y.t.l
      modifies this`mem
      ensures At(s) && next == PtrOf(s.t) && Spare() == old(Spare())
      ensures forall p :: p != node ==> (p in mem <==> p in old(mem)) && (p in mem ==> mem[p] == old(mem)[p])
    {
      hide Linked, ListsOk, ZRep, Accounted;
      ghost var v := V();
      KidFacts(v, all, y);
      FocusFacts(v, all, y);
      if ty != Partial && mem[node].st != ty {
        mem := mem[node := mem[node].(st := Partial)];
      }
      SetInfo(v, V(), all, y, s.c.i);
      Move(V(), all, s.c, s.t);
      next := if right then mem[node].right else mem[node].left;
    }

    // ---------------------------------------------------------- alloc_page

    /** The condition on a candidate: pool memory must lie in boot memory. */
    ghost predicate Fits(p: Ptr, cls: nat, boot: bool)
      reads `mem
    {
      p in mem && (boot ==> InBoot(mem[p].addr, cls))
    }

    /** No listed block of a class from lo on and below hi fits. */
    ghost predicate NoneFits(cls: nat, lo: nat, hi: nat, boot: bool)
      reads `mem, links
    {
      forall p :: p in links.on && links.on[p].ClassHead? && lo <= links.on[p].c < hi ==> !Fits(p, cls, boot)
    }

    /** Nothing ahead of p in its list fits. */
    ghost predicate FirstOf(p: Ptr, h: Ptr, cls: nat, boot: bool)
      reads `mem, links
    {
      h in links.lists && exists k :: 0 <= k < |links.lists[h]| && AheadUnfit(k, p, h, cls, boot)
    }

    ghost predicate AheadUnfit(k: nat, p: Ptr, h: Ptr, cls: nat, boot: bool)
      requires h in links.lists && k < |links.lists[h]|
      reads `mem, links
    {
      links.lists[h][k] == p && forall j :: 0 <= j < k ==> !Fits(links.lists[h][j], cls, boot)
    }

    /** The block alloc_page takes: the first member, in list order, of the lowest class at
        or above cls that fits. */
    ghost predicate Chosen(p: Ptr, cls: nat, boot: bool)
      reads `mem, links
    {
      && p in links.on && links.on[p].ClassHead? && cls <= links.on[p].c < MAX_CLASS
      && Fits(p, cls, boot) && NoneFits(cls, cls, links.on[p].c, boot) && FirstOf(p, links.on[p], cls, boot)
    }

    /** The lists of these classes are empty. */
    ghost predicate Bare(lo: nat, hi: nat)
      reads links
    {
      forall c: nat :: lo <= c < hi ==> ClassHead(c) in links.lists && links.lists[ClassHead(c)] == []
    }

    lemma NoneChosen(cls: nat, boot: bool)
      requires NoneFits(cls, cls, MAX_CLASS, boot)
      ensures forall p :: !Chosen(p, cls, boot)
      ensures !Strands(cls, boot)
    {
      hide Fits;
    }

    lemma ChosenFacts(p: Ptr, cls: nat, boot: bool)
      requires Chosen(p, cls, boot)
      ensures p in links.on && links.on[p].ClassHead? && cls <= links.on[p].c < MAX_CLASS
      ensures p in mem && (boot ==> InBoot(mem[p].addr, cls))
      ensures !NoneFits(cls, cls, MAX_CLASS, boot)
      ensures Strands(cls, boot) <==> !Supplied(Need(links.on[p].c, cls), p)
      ensures cls == POOL_CLASS && boot && p != Null ==> Offers(links.on[p].c, Null)
    {
      hide Supplied;
      forall q | Chosen(q, cls, boot) ensures q == p {
        ChosenUnique(p, q, cls, boot);
      }
      assert OfClass(p, links.on[p].c);
    }

    lemma ChosenUnique(p: Ptr, q: Ptr, cls: nat, boot: bool)
      requires Chosen(p, cls, boot) && Chosen(q, cls, boot)
      ensures p == q
    {
      hide Fits;
      assert links.on[p].c == links.on[q].c;
      var h := links.on[p];
      var j :| 0 <= j < |links.lists[h]| && AheadUnfit(j, p, h, cls, boot);
      var k :| 0 <= k < |links.lists[h]| && AheadUnfit(k, q, h, cls, boot);
    }

    /** No member of the list of class c fits. */
    lemma ClassPassed(cls: nat, c: nat, boot: bool)
      requires ListsOk() && cls <= c < MAX_CLASS && NoneFits(cls, cls, c, boot) && ClassHead(c) in links.lists
      requires forall j :: 0 <= j < |links.lists[ClassHead(c)]| ==> !Fits(links.lists[ClassHead(c)][j], cls, boot)
      ensures NoneFits(cls, cls, c + 1, boot)
    {
      hide Linked, Fits;
      links.Members(ClassHead(c));
      var s := links.lists[ClassHead(c)];
      forall p | p in links.on && links.on[p] == ClassHead(c) ensures !Fits(p, cls, boot) {
        var j :| 0 <= j < |s| && s[j] == p;
      }
    }

    lemma Picked(cls: nat, c: nat, k: nat, boot: bool)
      requires ListsOk() && cls <= c < MAX_CLASS && NoneFits(cls, cls, c, boot) && ClassHead(c) in links.lists
      requires k < |links.lists[ClassHead(c)]| && Fits(links.lists[ClassHead(c)][k], cls, boot)
      requires forall j :: 0 <= j < k ==> !Fits(links.lists[ClassHead(c)][j], cls, boot)
      ensures var p := links.lists[ClassHead(c)][k];
        p in links.on && links.on[p] == ClassHead(c) && Chosen(p, cls, boot)
    {
      hide Linked, Fits, NoneFits;
      links.Members(ClassHead(c));
      assert AheadUnfit(k, links.lists[ClassHead(c)][k], ClassHead(c), cls, boot);
    }

    /** The search of alloc_page. */
    method FindFree(cls: nat, boot: bool) returns (peer: Ptr)
      requires ListsOk() && Null !in links.on
      requires forall p :: p in links.on && links.on[p] != DescHead ==> p in mem
      ensures peer == Null ==> NoneFits(cls, cls, MAX_CLASS, boot)
      ensures peer != Null ==> Chosen(peer, cls, boot)
      ensures !boot && peer == Null ==> Bare(cls, MAX_CLASS)
      ensures !boot && peer != Null ==>
        Bare(cls, links.on[peer].c) && links.on[peer] in links.lists && peer in links.lists[links.on[peer]][..1]
    {
      hide Linked, FirstOf, InBoot, Chosen;
      var c := cls;
      while c < MAX_CLASS
        invariant c <= MAX_CLASS || c == cls
        invariant NoneFits(cls, cls, c, boot) && (!boot ==> Bare(cls, c))
      {
        ghost var s := links.lists[ClassHead(c)];
        links.First(ClassHead(c));
        links.Members(ClassHead(c));
        var li := links.Next(ClassHead(c));
        ghost var k := 0;
        while li != ClassHead(c)
          invariant 0 <= k <= |s| && li == (if k < |s| then s[k] else ClassHead(c))
          invariant (forall j :: 0 <= j < k ==> !Fits(s[j], cls, boot)) && (!boot ==> k == 0)
          decreases |s| - k
        {
          if !boot || InBoot(mem[li].addr, cls) {
            Picked(cls, c, k, boot);
            return li;
          }
          links.Following(ClassHead(c), k);
          li := links.Next(li);
          k := k + 1;
        }
        ClassPassed(cls, c, boot);
        c := c + 1;
      }
      links.Members(DescHead);
      peer := Null;
    }

    /** The block a refill would take, if it may not take `but`, is of class k. */
    ghost predicate Offers(k: nat, but: Ptr)
      reads `mem, links
    {
      && POOL_CLASS <= k < MAX_CLASS
      && (exists p :: p != but && OfClass(p, k) && Fits(p, POOL_CLASS, true))
      && (forall p, j: nat :: p != but && POOL_CLASS <= j < k && OfClass(p, j) ==> !Fits(p, POOL_CLASS, true))
    }

    ghost predicate OfClass(p: Ptr, k: nat)
      reads links
    {
      p in links.on && links.on[p] == ClassHead(k)
    }

    /** What one refill would add. */
    ghost function Refill(): (n: int)
      reads `mem, links
    {
      if exists k: nat :: Offers(k, Null) then var k: nat :| Offers(k, Null); Net(k) else 0
    }

    /** There are count free descriptors, or one refill makes them as many. */
    ghost predicate Supplied(count: nat, but: Ptr)
      reads `mem, `freeDescCount, links
    {
      freeDescCount >= count || exists k: nat :: Offers(k, but) && freeDescCount + Net(k) >= count
    }

    /** The free descriptors page_lookup asks for on its way from one class down to another:
        two for each level, and two more. */
    static function Need(from: nat, cls: nat): (n: nat) {
      if from > cls then 2 * (from - cls + 1) else 0
    }

    /** alloc_page finds a block and then not enough descriptors to split it. */
    ghost predicate Strands(cls: nat, boot: bool)
      reads `mem, `freeDescCount, links
    {
      exists p :: Chosen(p, cls, boot) && !Supplied(Need(links.on[p].c, cls), p)
    }

    lemma Enough(count: nat)
      requires freeDescCount >= count
      ensures Supplied(count, Null)
    {
    }

    lemma OffersUnique(j: nat, k: nat, but: Ptr)
      requires Offers(j, but) && Offers(k, but)
      ensures j == k
    {
      hide Fits, OfClass;
    }

    /** The descriptors of a new pool join the free ones. */
    method AddPool(a: nat, ghost z: Zip)
      requires At(z) && forall k: nat :: Pooled(a, k) !in all
      modifies this`freeDescCount, this`all, links
      ensures At(z) && all == old(all) + PoolPtrs(a)
      ensures freeDescCount == old(freeDescCount) + 127
    {
      hide Linked, ZRep;
      ghost var v := V();
      NotYet(v, all, z, a);
      ListPool(links, a);
      freeDescCount := freeDescCount + POOL_ENTRIES;
      all := all + PoolPtrs(a);
      PoolJoins(v, V(), old(all), z, a);
    }

    /** The loop over the descriptors of a new pool. */
    static method ListPool(links: ListHeap, a: nat)
      requires links.Valid() && DescHead in links.lists && forall k: nat :: Pooled(a, k) !in links.on
      requires forall h :: h in links.lists ==> !h.Pooled?
      modifies links
      ensures links.Valid() && links.lists.Keys == old(links.lists).Keys
      ensures |links.lists[DescHead]| == |old(links.lists)[DescHead]| + POOL_ENTRIES
      ensures forall p :: p in links.m.next <==> p in old(links.m.next) || p in PoolPtrs(a)
      ensures forall p :: p in links.on <==> p in old(links.on) || p in PoolPtrs(a)
      ensures forall p :: p in links.on ==> links.on[p] == if p in old(links.on) then old(links.on)[p] else DescHead
    {
      hide Linked;
      for i := 0 to POOL_ENTRIES
        invariant links.Valid() && links.lists.Keys == old(links.lists).Keys
        invariant |links.lists[DescHead]| == |old(links.lists)[DescHead]| + i
        invariant forall p :: p in links.m.next <==> p in old(links.m.next) || Before(p, a, i)
        invariant forall p :: p in links.on <==> p in old(links.on) || Before(p, a, i)
        invariant forall p :: p in links.on ==> links.on[p] == if p in old(links.on) then old(links.on)[p] else DescHead
      {
        links.Append(DescHead, Pooled(a, i));
      }
    }

    static predicate Before(p: Ptr, a: nat, i: nat) {
      p.Pooled? && p.page == a && p.k < i
    }

    // ---------------------------------------------------------- refilling

    ghost predicate Steady(t: Tree)
      reads this, links
    {
      At(Zip(Top, t)) && RootInv(t) && Housed(all, t) && PutAside(t)
    }

    /** The node alloc_page has put aside, if any, is a free Allocatable leaf. */
    ghost predicate PutAside(t: Tree)
      reads `mem, `off
    {
      off == Null || (off in Ids(t) && off in mem && FreeRecord(mem[off]) && mem[off].st == Allocatable)
    }

    /** A walk may start or go on: the focus is in order and there are descriptors for the
        rest of the way. */
    ghost predicate Ready(z: Zip, cls: nat)
      reads this, links
    {
      && At(z) && FInv(z) && Away(z) && cls <= z.t.i.cls <= MAX_CLASS
      && (cls < z.t.i.cls ==> freeDescCount >= 2 * (z.t.i.cls - cls + 1))
    }

    /** ensure_free_desc. The answer is false where the source panics: no memory for a
        pool, or still too few descriptors after the refill. It depends on the state before
        the call alone: how many descriptors are free, and the class of the first block a
        pool could be put in. */
    method EnsureFreeDesc(count: nat, ghost t: Tree) returns (ok: bool, ghost u: Tree)
      requires ListsOk() && (freeDescCount < count ==> Steady(t) && !allocatingPool)
      modifies this, links
      ensures allocatingPool == old(allocatingPool) && off == old(off)
      ensures old(freeDescCount) >= count ==> ok && u == t && unchanged(this) && unchanged(links)
      ensures ok ==> ListsOk() && freeDescCount >= count
      ensures ok <==> old(Supplied(count, Null))
      ensures !ok ==> freeDescCount < count && freeDescCount == old(freeDescCount + Refill())
      ensures old(freeDescCount) < count ==>
        forall k: nat :: old(Offers(k, Null)) ==> freeDescCount == old(freeDescCount) + Net(k)
      ensures old(freeDescCount) < count ==> Steady(u) && Refilled(t, u)
      ensures ok && old(freeDescCount) < count && off != Null ==>
        old(off in mem) && off in mem && mem[off] == old(mem[off])
      decreases if allocatingPool then 0 else 1, 2
    {
      hide Linked, ListsOk, ZRep, Accounted, RootInv, Housed, Refilled;
      ok, u := true, t;
      if freeDescCount < count {
        forall j: nat, k: nat | Offers(j, Null) && Offers(k, Null) ensures j == k {
          OffersUnique(j, k, Null);
        }
        var page, panic;
        ghost var g, ids, r;
        page, panic, g, ids, r := AllocPage(POOL_CLASS, true, false, t);
        if page == Null {
          RefilledSame(t);
          return false, t;
        }
        u := AllocTree(g, POOL_CLASS, ids, true);
        PoolRefills(t, g, ids);
        ok := freeDescCount >= count;
      }
    }

    method AllocPage(cls: nat, pool: bool, boot: bool, ghost t: Tree)
      returns (page: Ptr, panic: bool, ghost g: Zip, ghost ids: seq<Ptr>, ghost r: Zip)
      requires Steady(t) && !allocatingPool && cls < MAX_CLASS
      requires if pool then cls == POOL_CLASS else off == Null
      modifies this, links
      ensures panic <==> !pool && old(Strands(cls, boot))
      ensures page == Null && !panic ==> unchanged(this) && unchanged(links)
      ensures page == Null && !panic <==> old(NoneFits(cls, cls, MAX_CLASS, boot || pool))
      ensures panic ==> page == Null && freeDescCount < 2 * (MAX_CLASS - cls)
      ensures page != Null ==> Source(Whole(g), g, cls) && |ids| >= 2 * (g.t.i.cls - cls) && !allocatingPool
      ensures page != Null ==> old(Chosen(g.t.i.p, cls, boot || pool)) && old(links.on[g.t.i.p]) == ClassHead(g.t.i.cls)
      ensures page != Null ==> (boot || pool ==> InBoot(g.t.i.addr, cls))
      ensures page != Null && pool ==> Whole(g) == t && Steady(AllocTree(g, cls, ids, true)) && off == old(off)
      ensures page != Null && pool && off != Null ==> old(off in mem) && off in mem && mem[off] == old(mem[off])
      ensures page != Null && pool ==> freeDescCount == old(freeDescCount) + Net(g.t.i.cls)
      ensures page != Null && pool ==> old(Offers(g.t.i.cls, Null))
      ensures page != Null && !pool && old(freeDescCount) >= Need(g.t.i.cls, cls) ==>
        Whole(g) == t && ids == old(Spare()) && all == old(all)
      ensures page != Null && !pool ==>
        Refilled(t, Whole(g)) && RootInv(Whole(g)) && Housed(all, Whole(g)) && off == Null
      ensures page != Null && !pool ==> At(r) && r == AllocWalk(g, cls, ids) && page == PtrOf(r.t)
      decreases if allocatingPool then 0 else 1, if pool then 1 else 8
    {
      hide Linked, ListsOk, ZRep, Accounted, RootInv, Housed, Refilled, Pow2, AllocTree;
      hide Chosen, Strands, NoneFits, Fits, Offers, Supplied, AllocWalk, Inv, CInv, Plug;
      page, panic, g, ids, r := Null, false, Zip(Top, t), [], Zip(Top, t);
      SteadyFacts(t);
      var low := boot || pool;
      var peer := FindFree(cls, low);
      if peer == Null {
        NoneChosen(cls, low);
        return;
      }
      ChosenFacts(peer, cls, low);
      g := PeerFocus(peer, cls, t);
      ghost var v := V();
      Unlist(peer);
      if pool {
        SetInfo(v, V(), all, g, Unlisted(g.t).i);
        page, ids := FillPool(peer, t, g);
      } else {
        off := peer;
        AsideSteady(v, t, g);
        SupplyAside(peer);
        page, g, ids, r := AllocAside(peer, cls, t, g);
        panic := page == Null;
      }
    }

    /** Taking a block off its list leaves a refill what it had beside that block. */
    twostate lemma SupplyAside(peer: Ptr)
      requires links.on == old(links.on) - {peer} && mem == old(mem) && freeDescCount == old(freeDescCount)
      requires Null !in old(links.on)
      ensures forall count: nat :: Supplied(count, Null) <==> old(Supplied(count, peer))
    {
      forall p, k: nat | p != Null ensures OfClass(p, k) <==> p != peer && old(OfClass(p, k)) {
      }
      forall k: nat ensures Offers(k, Null) <==> old(Offers(k, peer)) {
      }
    }

    lemma AsideSteady(v: View, t: Tree, z: Zip)
      requires ListsOk() && RootInv(t) && Housed(all, t) && ZRep(v, all, z) && Source(t, z, 0) && ZInv(z)
      requires z.t.i.listed
      requires v.off == Null && V() == View(v.mem, v.on - {z.t.i.p}, z.t.i.p)
      ensures Steady(t)
    {
      hide Linked, ListsOk, Housed, RootInv, Accounted;
      Hide(v, V(), all, z);
      AllNodes(z.c);
      MoveTop(V(), all, z);
      FocusFacts(V(), all, z);
      IdsPlug(z.c, z.t);
    }

    lemma SteadyFacts(t: Tree)
      requires Steady(t)
      ensures ListsOk() && Null !in links.on
      ensures forall p :: p in links.on && links.on[p] != DescHead ==> p in mem && p in all && p != off && p in Ids(t)
    {
      hide Linked, Housed;
      ListedNodes(V(), all, t);
    }

    /** A member of a class list is a free Allocatable leaf of that class. */
    lemma PeerFocus(peer: Ptr, cls: nat, t: Tree) returns (z: Zip)
      requires Steady(t) && peer in links.on && links.on[peer].ClassHead? && links.on[peer].c >= cls
      ensures Source(t, z, cls) && At(z) && z.t.i.p == peer && z.t.i.listed && z.t.i.cls < MAX_CLASS && ZInv(z)
      ensures peer in mem && mem[peer] == Rec(z.t.i, Null, Null, CPtr(z.c)) && peer != Null && peer != off
      ensures peer in all
      ensures links.on[peer] == ClassHead(z.t.i.cls)
      ensures off == Null || off in CIds(z.c)
    {
      hide Linked, Housed;
      SteadyFacts(t);
      z := FocusById(Top, t, peer);
      InvPlug(z.c, z.t);
      AllNodes(z.c);
      MoveTop(V(), all, z);
      FocusFacts(V(), all, z);
      FocusShape(z);
      IdsPlug(z.c, z.t);
    }

    /** A walk starts from the root, or from what alloc_page put aside for it. */
    ghost predicate FromHint(hint: Ptr, h: Zip, ty: State)
      reads `mem, `off
    {
      && h.t.Node? && off == hint && (hint == Null ==> h.t.i.cls == MAX_CLASS)
      && (hint != Null ==> ZInv(h) && IsFree(h.t) && h.t.i.st == Allocatable && h.t.i.p == hint && ty == Partial)
      && (hint != Null ==> hint in mem && mem[hint] == Rec(h.t.i, Null, Null, mem[hint].parent))
    }

    /** The walk starts: what alloc_page put aside is now off its list in the tree as well.
        If a refill came first, the start is the same node in the new tree. */
    ghost method Begin(hint: Ptr, h: Zip, cls: nat, ty: State, u: Tree) returns (g: Zip)
      requires Steady(u) && h.t.Node? && cls <= h.t.i.cls <= MAX_CLASS
      requires cls < h.t.i.cls ==> freeDescCount >= 2 * (h.t.i.cls - cls + 1)
      requires FromHint(hint, h, ty)
      modifies `off
      ensures off == Null && Whole(g) == u && g.t.Node? && g.t.i.cls == h.t.i.cls
      ensures hint == Null ==> g == Zip(Top, u) && g.t.i.p == Root
      ensures hint != Null ==> g.t == h.t && Source(u, g, cls)
      ensures Ready(Zip(g.c, Unlisted(g.t)), cls) && Attachable(g.c, if hint == Null then ty else Partial)
      ensures Spare() == old(Spare())
    {
      hide Linked, ListsOk, ZRep, Accounted, Housed;
      if hint == Null {
        g := Zip(Top, u);
        assert Unlisted(u) == u && Relist(u) == u;
      } else {
        g := Refocus(V(), all, u, h);
        Unhide(V(), all, g);
        off := Null;
        SourceInv(u, g, cls);
      }
    }

    /** The loop of page_lookup is at focus z, on its way down from s. */
    ghost predicate Walking(z: Zip, s: Zip, cls: nat, addr: nat, ty: State, ids: seq<Ptr>)
      reads this, links
    {
      && Ready(z, cls) && Attachable(z.c, ty) && |Spare()| == freeDescCount
      && s.t.Node? && cls <= s.t.i.cls && |ids| >= 2 * (s.t.i.cls - cls)
      && Lookup(z, z.t.i.cls - cls, addr, ty, Spare()) == Lookup(s, s.t.i.cls - cls, addr, ty, ids)
      && WalkRest(z, z.t.i.cls - cls, addr, ty, Spare()) == WalkRest(s, s.t.i.cls - cls, addr, ty, ids)
    }

    /** A turn of the loop keeps on the way. */
    method WalkOn(node: Ptr, addr: nat, cls: nat, ty: State, ghost z: Zip, ghost s: Zip, ghost ids: seq<Ptr>)
      returns (next: Ptr, ghost y: Zip)
      requires Walking(z, s, cls, addr, ty, ids) && node == z.t.i.p && cls < z.t.i.cls
      modifies this`mem, this`freeDescCount, links
      ensures Walking(y, s, cls, addr, ty, ids) && next == y.t.i.p && y.t.i.cls == z.t.i.cls - 1
      ensures CIds(z.c) <= CIds(y.c)
      ensures Kept(z.c, old(mem), mem)
      decreases if allocatingPool then 0 else 1, 3, 6
    {
      hide Linked, ListsOk, ZRep, Accounted, Inv, CInv, Bit;
      ghost var spare := Spare();
      next, y := StepDown(node, addr, ty, z);
      StepInv(z, addr, ty, spare);
      SpareFacts();
    }

    lemma WalkingFacts(z: Zip, s: Zip, cls: nat, addr: nat, ty: State, ids: seq<Ptr>)
      requires Walking(z, s, cls, addr, ty, ids)
      ensures ListsOk() && At(z) && z.t.Node? && cls <= z.t.i.cls <= MAX_CLASS && z.t.i.p != Null
      ensures z.t.i.p in mem && mem[z.t.i.p].cls == z.t.i.cls
      ensures freeDescCount >= Need(z.t.i.cls, cls)
      ensures s.t.Node? && cls <= s.t.i.cls && |ids| >= 2 * (s.t.i.cls - cls)
    {
      hide Linked, ListsOk, ZRep, Accounted, Inv, CInv, Bit;
      FocusFacts(V(), all, z);
    }

    /** What a zipper is for page_lookup to start from it: hint or the root of a steady
        tree, or a node alloc_page has already taken off its list. */
    static ghost function Origin(g: Zip, begun: bool): Zip
      requires g.t.Node?
    {
      if begun then g else Zip(g.c, Unlisted(g.t))
    }

    ghost predicate Startable(hint: Ptr, cls: nat, ty: State, t: Tree, h: Zip, begun: bool)
      reads this, links
    {
      && h.t.Node? && h.t.i.p == (if hint != Null then hint else Root)
      && cls <= h.t.i.cls <= MAX_CLASS && Attachable(h.c, ty)
      && (begun ==> Ready(h, cls) && ty == Partial)
      && (!begun ==> Steady(t) && !allocatingPool && Whole(h) == t)
      && (!begun && hint == Null ==> h == Zip(Top, t) && off == Null)
      && (!begun && hint != Null ==> Source(t, h, cls) && off == hint && ty == Partial)
    }

    lemma StartFacts(hint: Ptr, addr: nat, cls: nat, ty: State, t: Tree, h: Zip, begun: bool)
      requires Startable(hint, cls, ty, t, h, begun)
      ensures h.t.Node? && h.t.i.p == (if hint != Null then hint else Root) && cls <= h.t.i.cls <= MAX_CLASS
      ensures begun ==> freeDescCount >= Need(h.t.i.cls, cls)
      ensures !begun ==> Steady(t) && !allocatingPool && off == hint
      ensures !begun && hint != Null ==> IsFree(h.t) && h.t.i.st == Allocatable && ty == Partial
      ensures begun ==> Walking(h, h, cls, addr, ty, Spare())
      ensures Supplied(0, Null)
      ensures ListsOk() && h.t.i.p in mem && mem[h.t.i.p].cls == h.t.i.cls && h.t.i.p != Null
      ensures Kept(h.c, mem, mem)
      ensures !begun && hint != Null ==> ZInv(h) && mem[hint] == Rec(h.t.i, Null, Null, mem[hint].parent)
      ensures !begun && hint == Null ==> h.t.i.cls == MAX_CLASS
      ensures |Spare()| == freeDescCount
    {
      hide Linked, ListsOk, ZRep, Accounted, Pow2, Aligned;
      SpareFacts();
      if !begun {
        InvPlug(h.c, h.t);
        AllNodes(h.c);
        MoveTop(V(), all, h);
      }
      FocusFacts(V(), all, h);
      CtxMem(V(), all, h);
    }

    /** Where the walk has started: at h, or, if a refill came first, at the same node of the
        refilled tree. */
    ghost predicate Underway(hint: Ptr, cls: nat, t: Tree, h: Zip, g: Zip, begun: bool)
      reads `all, `off
    {
      && g.t.Node? && h.t.Node? && g.t.i.cls == h.t.i.cls && (begun ==> g == h)
      && (!begun ==> off == Null && Refilled(t, Whole(g)) && RootInv(Whole(g)) && Housed(all, Whole(g)))
      && (!begun ==> if hint == Null then g.c == Top else Source(Whole(g), g, cls) && g.t == h.t)
    }

    /** The top of a turn: ensure_free_desc. Before the first turn nothing has started, and
        the walk starts then; later on it finds descriptors enough. */
    method Provide(count: nat, hint: Ptr, addr: nat, cls: nat, ty: State, ghost t: Tree, ghost h: Zip,
                   ghost started: bool, ghost g0: Zip, ghost ids0: seq<Ptr>, ghost z0: Zip)
      returns (ok: bool, ghost g: Zip, ghost ids: seq<Ptr>, ghost z: Zip)
      requires ListsOk() && (started ==> freeDescCount >= count)
      requires !started ==> Startable(hint, cls, ty, t, h, false) && count == Need(h.t.i.cls, cls) > 0
      modifies this, links
      ensures allocatingPool == old(allocatingPool)
      ensures !ok ==> freeDescCount < count && freeDescCount == old(freeDescCount + Refill())
      ensures started ==> ok && unchanged(this) && unchanged(links) && g == g0 && ids == ids0 && z == z0
      ensures !started ==> (ok <==> old(Supplied(count, Null)))
      ensures !started && ok ==> g.t.Node? && z.t.Node? && Underway(hint, cls, t, h, g, false)
      ensures !started && ok ==> Walking(z, Origin(g, false), cls, addr, ty, ids)
      ensures !started && ok ==> z.t.i.p == (if hint != Null then hint else Root) && z.t.i.cls == h.t.i.cls
      ensures !started && old(freeDescCount) >= count ==> Whole(g) == t && ids == old(Spare()) && all == old(all)
      decreases if allocatingPool then 0 else 1, 3
    {
      hide Linked, ListsOk, ZRep, Accounted, Inv, CInv, RootInv, Housed, Refilled, Bit, Lookup, WalkRest, Underway;
      hide Supplied, Startable, Steady, Walking, Ready, Pow2, Dist, CIds, Ids, Plug, Rep;
      g, ids, z := g0, ids0, z0;
      ghost var cur := t;
      if !started {
        StartFacts(hint, addr, cls, ty, t, h, false);
        RefilledSame(t);
      }
      ok, cur := EnsureFreeDesc(count, t);
      if ok && !started {
        g := BeginWalk(hint, h, cls, addr, ty, t, cur);
        ids, z := Spare(), Zip(g.c, Unlisted(g.t));
      }
    }

    /** One turn of the loop, the first one with the walk's start. */
    method TakeTurn(node: Ptr, hint: Ptr, addr: nat, cls: nat, ty: State, ghost t: Tree, ghost h: Zip,
                    ghost begun: bool, ghost started: bool, ghost g0: Zip, ghost ids0: seq<Ptr>, ghost z0: Zip)
      returns (next: Ptr, ghost g: Zip, ghost ids: seq<Ptr>, ghost z: Zip)
      requires ListsOk() && node in mem && z0.t.Node? && node == z0.t.i.p && mem[node].cls == z0.t.i.cls > cls
      requires started ==> g0.t.Node? && Walking(z0, Origin(g0, begun), cls, addr, ty, ids0)
      requires started ==> freeDescCount >= Need(z0.t.i.cls, cls)
      requires !started ==> !begun && z0 == h && Startable(hint, cls, ty, t, h, false)
      modifies this, links
      ensures next == Null ==> !started && freeDescCount < Need(z0.t.i.cls, cls)
      ensures next == Null ==> freeDescCount == old(freeDescCount + Refill())
      ensures !started ==> (next != Null <==> old(Supplied(Need(z0.t.i.cls, cls), Null)))
      ensures allocatingPool == old(allocatingPool)
      ensures next != Null ==>
        next in mem && g.t.Node? && z.t.Node? && ListsOk() && freeDescCount >= Need(z.t.i.cls, cls)
      ensures next != Null ==> next == z.t.i.p && mem[next].cls == z.t.i.cls == z0.t.i.cls - 1
      ensures next != Null ==> Walking(z, Origin(g, begun), cls, addr, ty, ids)
      ensures started ==> g == g0 && ids == ids0 && off == old(off) && all == old(all)
      ensures started ==> CIds(z0.c) <= CIds(z.c) && Kept(z0.c, old(mem), mem)
      ensures !started && next != Null ==> Underway(hint, cls, t, h, g, false)
      ensures !started && old(freeDescCount) >= Need(z0.t.i.cls, cls) ==>
        Whole(g) == t && ids == old(Spare()) && all == old(all)
      decreases if allocatingPool then 0 else 1, 4
    {
      hide Linked, ListsOk, ZRep, Accounted, Inv, CInv, RootInv, Housed, Refilled, Bit, Lookup, WalkRest, Attachable;
      hide Supplied, Pow2, Dist, CIds, Ids, Plug, Rep, Offers, Net, Startable, Steady, Walking, Ready;
      hide Source, FInv, ZInv, IsFree, Rec, Kept, Reached, Spare;
      if !started {
        StartFacts(hint, addr, cls, ty, t, h, false);
      }
      var ok;
      ok, g, ids, z := Provide((mem[node].cls - cls + 1) * 2, hint, addr, cls, ty, t, h, started, g0, ids0, z0);
      if !ok {
        return Null, g, ids, z;
      }
      WalkingFacts(z, Origin(g, begun), cls, addr, ty, ids);
      next, z := WalkOn(node, addr, cls, ty, z, Origin(g, begun), ids);
      WalkingFacts(z, Origin(g, begun), cls, addr, ty, ids);
    }

    /** The loop of page_lookup, with allocation. Only its first turn can find too few
        descriptors, so it refills at most once. */
    method Descend(hint: Ptr, addr: nat, cls: nat, ty: State, ghost t: Tree, ghost h: Zip, ghost begun: bool)
      returns (node: Ptr, ghost g: Zip, ghost ids: seq<Ptr>, ghost z: Zip)
      requires Startable(hint, cls, ty, t, h, begun)
      modifies this, links
      ensures node != Null ==> g.t.Node? && z.t.Node? && z.t.i.cls == cls && node == z.t.i.p
      ensures node != Null ==> At(z) && Reached(z, Origin(g, begun), cls, addr, ty, ids, Spare())
      ensures node != Null ==> Underway(hint, cls, t, h, g, begun)
      ensures node == Null ==> freeDescCount < 2 * (h.t.i.cls - cls + 1)
      ensures node == Null ==> freeDescCount == old(freeDescCount + Refill())
      ensures node != Null <==> begun || old(Supplied(Need(h.t.i.cls, cls), Null))
      ensures !begun && old(freeDescCount) >= Need(h.t.i.cls, cls) ==>
        Whole(g) == t && ids == old(Spare()) && all == old(all)
      ensures node != Null ==> allocatingPool == old(allocatingPool)
      ensures begun ==> node != Null && off == old(off) && ids == old(Spare()) && all == old(all)
      ensures begun ==> Kept(h.c, old(mem), mem)
      ensures begun ==> CIds(h.c) <= CIds(z.c)
      decreases if allocatingPool then 0 else 1, 5
    {
      hide Linked, ListsOk, ZRep, Accounted, Inv, CInv, RootInv, Housed, Refilled, Bit, Lookup, WalkRest, Attachable;
      hide Underway, Supplied, Pow2, Dist, CIds, Ids, Plug, Rep, Offers, Net, Startable, Steady, Walking, Ready;
      hide Source, FInv, ZInv, IsFree, Rec, Kept, Reached;
      node := if hint != Null then hint else Root;
      StartFacts(hint, addr, cls, ty, t, h, begun);
      g, ids, z := h, Spare(), h;
      ghost var started := begun;
      RefilledSame(t);
      if begun {
        UnderwayAt(hint, cls, t, h);
      }
      while mem[node].cls > cls
        invariant node in mem && node != Null && z.t.Node? && node == z.t.i.p && mem[node].cls == z.t.i.cls && g.t.Node?
        invariant allocatingPool == old(allocatingPool) && ListsOk()
        invariant !started ==> z == h && cls <= z.t.i.cls
        invariant !started ==> unchanged(this) && unchanged(links)
        invariant started ==> begun || old(Supplied(Need(h.t.i.cls, cls), Null))
        invariant started && !begun && old(freeDescCount) >= Need(h.t.i.cls, cls) ==>
          Whole(g) == t && ids == old(Spare()) && all == old(all)
        invariant started ==> freeDescCount >= Need(z.t.i.cls, cls) && cls <= z.t.i.cls
        invariant started ==> Walking(z, Origin(g, begun), cls, addr, ty, ids) && Underway(hint, cls, t, h, g, begun)
        invariant begun ==>
          started && off == old(off) && ids == old(Spare()) && all == old(all) && CIds(h.c) <= CIds(z.c)
        invariant begun ==> Kept(h.c, old(mem), mem)
        decreases z.t.i.cls
      {
        ghost var m, y := mem, z;
        node, g, ids, z := TakeTurn(node, hint, addr, cls, ty, t, h, begun, started, g, ids, z);
        if node == Null {
          return;
        }
        started := true;
        if begun {
          KeptOn(h.c, y.c, old(mem), m, mem);
        }
      }
      if !started {
        g, ids, z := Stay(hint, addr, cls, ty, t, h);
      } else {
        WalkingFacts(z, Origin(g, begun), cls, addr, ty, ids);
        Arrived(z, Origin(g, begun), cls, addr, ty, ids);
      }
    }

    /** The block is the one asked for, and the walk has no step. */
    ghost method Stay(hint: Ptr, addr: nat, cls: nat, ty: State, t: Tree, h: Zip)
      returns (g: Zip, ids: seq<Ptr>, z: Zip)
      requires Startable(hint, cls, ty, t, h, false) && h.t.i.cls == cls
      modifies `off
      ensures g.t.Node? && z.t.Node? && z.t.i.cls == cls && z.t.i.p == (if hint != Null then hint else Root)
      ensures At(z) && Reached(z, Origin(g, false), cls, addr, ty, ids, Spare())
      ensures Underway(hint, cls, t, h, g, false) && Whole(g) == t && ids == Spare() && Spare() == old(Spare())
    {
      hide Linked, ListsOk, ZRep, Accounted, Inv, CInv, RootInv, Housed, Refilled, Bit, Lookup, WalkRest, Underway;
      hide Startable, Steady, Walking, Ready, Dist, Plug, Reached;
      StartFacts(hint, addr, cls, ty, t, h, false);
      RefilledSame(t);
      g := BeginWalk(hint, h, cls, addr, ty, t, t);
      ids, z := Spare(), Zip(g.c, Unlisted(g.t));
      WalkingFacts(z, z, cls, addr, ty, ids);
      Arrived(z, z, cls, addr, ty, ids);
    }

    lemma UnderwayAt(hint: Ptr, cls: nat, t: Tree, h: Zip)
      requires h.t.Node?
      ensures Underway(hint, cls, t, h, h, true)
    {
    }

    ghost method BeginWalk(hint: Ptr, h: Zip, cls: nat, addr: nat, ty: State, t: Tree, u: Tree) returns (g: Zip)
      requires Steady(u) && h.t.Node? && cls <= h.t.i.cls <= MAX_CLASS && Refilled(t, u)
      requires cls < h.t.i.cls ==> freeDescCount >= 2 * (h.t.i.cls - cls + 1)
      requires FromHint(hint, h, ty)
      modifies `off
      ensures g.t.Node? && g.t.i.cls == h.t.i.cls && Whole(g) == u
      ensures Underway(hint, cls, t, h, g, false) && off == Null && Spare() == old(Spare())
      ensures Walking(Zip(g.c, Unlisted(g.t)), Zip(g.c, Unlisted(g.t)), cls, addr, ty, Spare())
      ensures (if hint != Null then hint else Root) == g.t.i.p
    {
      hide Linked, ListsOk, ZRep, Accounted, Inv, CInv, RootInv, Housed, Refilled, Bit, Lookup, WalkRest;
      g := Begin(hint, h, cls, ty, u);
      SpareFacts();
    }

    lemma Arrived(z: Zip, s: Zip, cls: nat, addr: nat, ty: State, ids: seq<Ptr>)
      requires Walking(z, s, cls, addr, ty, ids) && z.t.i.cls <= cls
      ensures Reached(z, s, cls, addr, ty, ids, Spare())
    {
      hide Linked, ListsOk, ZRep, Accounted, Inv, CInv, Bit;
    }

    /** Whether neither the node nor anything below it is referenced: what page_lookup and
        free_desc_rec assert before memory is retyped. */
    method Unreferenced(node: Ptr, ghost t: Tree, ghost par: Ptr) returns (ok: bool)
      requires Rep(V(), t, par) && node == PtrOf(t)
      ensures ok <==> NoRefs(t)
      decreases t
    {
      if node == Null {
        return true;
      }
      if mem[node].refc != 0 {
        return false;
      }
      ok := Unreferenced(mem[node].left, t.l, t.i.p);
      if ok {
        ok := Unreferenced(mem[node].right, t.r, t.i.p);
      }
    }

    /** The end of page_lookup when memory is attached. The answer is false where an
        assertion of the source fails because the memory is in use. */
    method AttachHere(node: Ptr, ty: State, ghost z: Zip) returns (ok: bool)
      requires At(z) && z.t.Node? && node == z.t.i.p && off == Null && z.t.i.cls < MAX_CLASS
      modifies this`mem, this`freeDescCount, links
      ensures ok <==> NoRefs(z.t)
      ensures ok ==> At(Zip(z.c, Retype(z.t, ty))) && freeDescCount >= old(freeDescCount)
    {
      hide Linked, ListsOk, ZRep, Accounted;
      FocusFacts(V(), all, z);
      ok := Unreferenced(node, z.t, CPtr(z.c));
      if ok {
        Renew(node, ty, z);
      }
    }

    /** Give the subtrees back, retype the node and list it if it is Allocatable. */
    method Renew(node: Ptr, ty: State, ghost z: Zip)
      requires At(z) && z.t.Node? && node == z.t.i.p && off == Null && z.t.i.cls < MAX_CLASS && NoRefs(z.t)
      modifies this`mem, this`freeDescCount, links
      ensures At(Zip(z.c, Retype(z.t, ty))) && freeDescCount >= old(freeDescCount)
    {
      hide Linked, ListsOk, ZRep, Accounted, NoRefs, Rep, CIds, Pow2, Dist;
      FocusFacts(V(), all, z);
      ghost var v := V();
      FreeBelow(node, z);
      Retag(node, ty);
      Prune(v, V(), all, z, Retype(z.t, ty).i);
    }

    /** The two calls of free_desc_rec. */
    method FreeBelow(node: Ptr, ghost z: Zip)
      requires At(z) && z.t.Node? && node == z.t.i.p && NoRefs(z.t)
      modifies this`freeDescCount, links
      ensures ListsOk() && freeDescCount >= old(freeDescCount)
      ensures forall p :: p in Ids(z.t) && p != node ==> p in links.on && links.on[p] == DescHead
      ensures forall p :: p !in Ids(z.t) || p == node ==>
        (p in links.on <==> p in old(links.on)) && (p in links.on ==> links.on[p] == old(links.on)[p])
    {
      hide Linked, ListsOk, ZRep, Accounted, NoRefs, Rep, CIds, Pow2, Dist;
      FocusFacts(V(), all, z);
      RefsBelow(z.t);
      ghost var v := V();
      FreeDescRec(mem[node].left, z.t.l, node);
      RepFrame(v, V(), z.t.r, node);
      FreeDescRec(mem[node].right, z.t.r, node);
    }

    static lemma RefsBelow(t: Tree)
      requires t.Node? && NoRefs(t) && t.i.p !in Ids(t.l) && t.i.p !in Ids(t.r) && Dist(t)
      ensures NoRefs(t.l) && NoRefs(t.r) && Dist(t.l) && Dist(t.r)
      ensures forall p :: p in Ids(t) && p != t.i.p <==> p in Ids(t.l) || p in Ids(t.r)
    {
    }

    /** The node forgets its children and leaves its list, gets its new state, and goes on a
        list if that is Allocatable. */
    method Retag(node: Ptr, ty: State)
      requires ListsOk() && node in mem && node in all && (node in links.on ==> links.on[node] != DescHead)
      requires mem[node].cls < MAX_CLASS
      modifies this`mem, links
      ensures var q := old(mem)[node];
        && ListsOk() && mem == old(mem)[node := q.(left := Null, right := Null, st := NewState(q.st, ty))]
        && links.on ==
           if NewState(q.st, ty) == Allocatable then old(links.on)[node := ClassHead(q.cls)]
           else old(links.on) - {node}
    {
      hide Linked, ListsOk;
      mem := mem[node := mem[node].(left := Null, right := Null)];
      Unlist(node);
      if mem[node].st != Reserved {
        mem := mem[node := mem[node].(st := ty)];
      }
      if mem[node].st == Allocatable {
        Enlist(mem[node].cls, node);
      }
    }

    /** The memory to be retyped is referenced. */
    static ghost predicate Occupied(hint: Ptr, addr: nat, cls: nat, ty: State, t: Tree, h: Zip, g: Zip,
                                    ids: seq<Ptr>, begun: bool) {
      && ty != Partial && g.t.Node? && h.t.Node? && cls <= g.t.i.cls == h.t.i.cls && |ids| >= 2 * (g.t.i.cls - cls)
      && (!begun ==> Refilled(t, Whole(g)) && RootInv(Whole(g)) && (hint == Null ==> g.c == Top))
      && !NoRefs(Lookup(Origin(g, begun), g.t.i.cls - cls, addr, ty, ids).t)
    }

    /** page_lookup with allocation. The node is Null where the source panics: no memory for
        descriptors, or memory to be retyped is in use. */
    method PageLookup(hint: Ptr, addr: nat, cls: nat, ty: State, ghost t: Tree, ghost h: Zip, ghost begun: bool)
      returns (node: Ptr, ghost g: Zip, ghost ids: seq<Ptr>, ghost r: Zip)
      requires Startable(hint, cls, ty, t, h, begun) && (ty != Partial ==> cls < MAX_CLASS)
      modifies this, links
      ensures node != Null ==> g.t.Node? && cls <= g.t.i.cls == h.t.i.cls && |ids| >= 2 * (g.t.i.cls - cls)
      ensures node != Null ==> off == (if begun then old(off) else Null) && allocatingPool == old(allocatingPool)
      ensures node != Null ==> At(r) && node == PtrOf(r.t)
      ensures node != Null && ty == Partial ==> r == Lookup(Origin(g, begun), g.t.i.cls - cls, addr, ty, ids)
      ensures node != Null && ty != Partial ==>
        r == Attach(Origin(g, begun), g.t.i.cls - cls, addr, ty, ids) &&
        NoRefs(Lookup(Origin(g, begun), g.t.i.cls - cls, addr, ty, ids).t)
      ensures node == Null ==>
        freeDescCount < 2 * (h.t.i.cls - cls + 1) || Occupied(hint, addr, cls, ty, t, h, g, ids, begun)
      ensures !begun && !old(Supplied(Need(h.t.i.cls, cls), Null)) ==>
        node == Null && freeDescCount < 2 * (h.t.i.cls - cls + 1) && freeDescCount == old(freeDescCount + Refill())
      ensures begun || old(Supplied(Need(h.t.i.cls, cls), Null)) ==>
        (node == Null <==> Occupied(hint, addr, cls, ty, t, h, g, ids, begun))
      ensures !begun && old(freeDescCount) >= Need(h.t.i.cls, cls) ==>
        Whole(g) == t && ids == old(Spare()) && all == old(all)
      ensures node != Null ==> freeDescCount >= |ids| - 2 * (g.t.i.cls - cls)
      ensures begun ==> node != Null && g == h && ids == old(Spare()) && all == old(all)
      ensures begun ==> Spare() == WalkRest(h, h.t.i.cls - cls, addr, ty, ids)
      ensures begun ==> Kept(h.c, old(mem), mem)
      ensures begun ==> CIds(h.c) <= CIds(r.c)
      ensures node != Null && !begun ==> Refilled(t, Whole(g)) && RootInv(Whole(g)) && Housed(all, Whole(g))
      ensures node != Null && !begun ==> if hint == Null then g.c == Top else Source(Whole(g), g, cls) && g.t == h.t
      decreases if allocatingPool then 0 else 1, 6
    {
      hide Linked, ListsOk, ZRep, Accounted, Inv, CInv, RootInv, Housed, Refilled, Bit, Lookup, WalkRest;
      node, g, ids, r := Descend(hint, addr, cls, ty, t, h, begun);
      if node != Null {
        SpareFacts();
        WalkRestLen(Origin(g, begun), g.t.i.cls - cls, addr, ty, ids);
      }
      if node != Null && ty != Partial {
        var ok := AttachHere(node, ty, r);
        r := Zip(r.c, Retype(r.t, ty));
        if !ok {
          node := Null;
        }
      }
    }

    /** alloc_page once it has found and unlisted a block for a client. */
    method AllocAside(peer: Ptr, cls: nat, ghost t: Tree, ghost h: Zip)
      returns (page: Ptr, ghost g: Zip, ghost ids: seq<Ptr>, ghost r: Zip)
      requires Steady(t) && !allocatingPool && Source(t, h, cls) && h.t.i.p == peer && off == peer && peer != Null
      requires h.t.i.cls < MAX_CLASS
      modifies this, links
      ensures page == Null ==> freeDescCount < 2 * (h.t.i.cls - cls + 1)
      ensures page != Null <==> old(Supplied(Need(h.t.i.cls, cls), Null))
      ensures old(freeDescCount) >= Need(h.t.i.cls, cls) ==> Whole(g) == t && ids == old(Spare()) && all == old(all)
      ensures page != Null ==>
        Source(Whole(g), g, cls) && |ids| >= 2 * (g.t.i.cls - cls) && !allocatingPool && g.t == h.t
      ensures page != Null ==> Refilled(t, Whole(g)) && RootInv(Whole(g)) && Housed(all, Whole(g)) && off == Null
      ensures page != Null ==> At(r) && r == AllocWalk(g, cls, ids) && page == PtrOf(r.t)
      decreases if allocatingPool then 0 else 1, 7
    {
      hide Linked, ListsOk, ZRep, Accounted, RootInv, Housed, Refilled, Pow2;
      StartFacts(peer, mem[peer].addr, cls, Partial, t, h, false);
      page, g, ids, r := PageLookup(peer, mem[peer].addr, cls, Partial, t, h, false);
    }

    /** alloc_page once it has found and unlisted a block for a pool: the descriptors are
        added first, so that the walk finds enough of them. */
    method FillPool(peer: Ptr, ghost t: Tree, ghost g: Zip) returns (page: Ptr, ghost ids: seq<Ptr>)
      requires !allocatingPool && RootInv(t) && Housed(all, t) && Source(t, g, POOL_CLASS) && ZInv(g)
      requires InBoot(g.t.i.addr, POOL_CLASS)
      requires At(Zip(g.c, Unlisted(g.t))) && g.t.i.p == peer && g.t.i.cls < MAX_CLASS && g.t.i.listed
      requires off == Null || (off in CIds(g.c) && off in mem && FreeRecord(mem[off]) && mem[off].st == Allocatable)
      modifies this, links
      ensures page != Null && |ids| >= 2 * (g.t.i.cls - POOL_CLASS) && !allocatingPool
      ensures Steady(AllocTree(g, POOL_CLASS, ids, true)) && off == old(off)
      ensures off != Null ==> old(off in mem) && off in mem && mem[off] == old(mem[off])
      ensures freeDescCount == old(freeDescCount) + POOL_ENTRIES - 2 * (g.t.i.cls - POOL_CLASS)
      decreases if allocatingPool then 0 else 1, 0
    {
      hide Linked, ListsOk, ZRep, Accounted, RootInv, Housed, Refilled, Inv, CInv, Lookup, WalkRest, Rep;
      hide Steady, AllocTree, Plug, Ids, CIds, Pow2, Dist, Supplied, Refill, Offers, Net, Occupied, NoRefs, Attach;
      allocatingPool := true;
      ghost var y := Zip(g.c, Unlisted(g.t));
      FocusFacts(V(), all, y);
      var a := mem[peer].addr;
      forall k: nat ensures Pooled(a, k) !in all {
        PoolIsFresh(all, g, k);
      }
      AddPool(a, y);
      RootSource(t, g, POOL_CLASS, []);
      SpareFacts();
      ghost var h, r;
      page, h, ids, r := PageLookup(peer, a, POOL_CLASS, Partial, t, y, true);
      LeafWalkRest(y, g.t.i.cls - POOL_CLASS, a, ids);
      SpareFacts();
      TakePool(page, a, t, g, ids, r, old(all), AllocTree(g, POOL_CLASS, ids, true));
      SteadyFacts(AllocTree(g, POOL_CLASS, ids, true));
      SpareFacts();
    }

    /** The end of alloc_page for a pool: the allocator references the page it lives in. */
    method TakePool(page: Ptr, a: nat, ghost t: Tree, ghost g: Zip, ghost ids: seq<Ptr>, ghost r: Zip,
                    ghost before: set<Ptr>, ghost u: Tree)
      requires RootInv(t) && Housed(before, t) && Source(t, g, POOL_CLASS) && all == before + PoolPtrs(g.t.i.addr)
      requires InBoot(g.t.i.addr, POOL_CLASS)
      requires g.t.i.cls < MAX_CLASS && |ids| >= 2 * (g.t.i.cls - POOL_CLASS)
      requires At(r) && r == AllocWalk(g, POOL_CLASS, ids) && page == PtrOf(r.t)
      requires u == AllocTree(g, POOL_CLASS, ids, true)
      requires off == Null || (off in CIds(r.c) && off in mem && FreeRecord(mem[off]) && mem[off].st == Allocatable)
      modifies this`mem, this`pools, this`allocatingPool, links
      ensures Steady(u) && !allocatingPool && Spare() == old(Spare())
      ensures off != Null ==> off in mem && off in old(mem) && mem[off] == old(mem)[off]
    {
      hide Linked, ListsOk, ZRep, Accounted, RootInv, Housed, Inv, CInv, Lookup, RefSub;
      RootSource(t, g, POOL_CLASS, ids);
      FocusFacts(V(), all, r);
      PageRef(page, r);
      pools := [(a, page)] + pools;
      allocatingPool := false;
      RefSubFacts(r.t);
      HoldRep(V(), all, Zip(r.c, RefSub(r.t)), true);
      RootAfter(V(), all, t, g, POOL_CLASS, ids, true, u);
      HousedGrows(before, t, u, g, ids);
      IdsPlug(r.c, Hold(RefSub(r.t), true));
    }

    // ---------------------------------------------------------- operations

    ghost predicate Valid()
      reads this, links
    {
      Steady(tree) && off == Null && !allocatingPool
    }

    /** What a refill adds depends on the tree alone, and it is never a loss. */
    lemma SupplyIs(count: nat)
      requires Valid()
      ensures Refill() == PoolGain(tree)
      ensures Supplied(count, Null) <==> freeDescCount + PoolGain(tree) >= count
    {
      hide Linked, Housed, Accounted, RootInv, FreeLeaves, HasLow, Rep, Ids, Pow2;
      Settled();
      ListedLeaves();
      var low := LowClass(tree, POOL_CLASS);
      forall k: nat ensures Offers(k, Null) <==> k == low && k < MAX_CLASS {
        OffersIs(k, low);
      }
      if low < MAX_CLASS {
        assert Offers(low, Null);
      }
    }

    lemma OffersIs(k: nat, low: nat)
      requires Valid() && low == LowClass(tree, POOL_CLASS)
      requires Rep(V(), tree, Null)
      requires forall p, j: nat :: j < MAX_CLASS ==> (OfClass(p, j) <==> p in FreeLeaves(tree, j))
      ensures Offers(k, Null) <==> k == low && k < MAX_CLASS
    {
      hide Linked, Housed, Accounted, RootInv, FreeLeaves, HasLow, Rep, Ids, Pow2, OfClass, Dist;
      SteadyFacts(tree);
      forall j: nat | j < MAX_CLASS
        ensures HasLow(tree, j) <==> exists p :: p != Null && OfClass(p, j) && Fits(p, POOL_CLASS, true)
      {
        LowIs(V(), tree, Null, j);
        LowListed(j);
      }
      assert low < MAX_CLASS ==> HasLow(tree, low);
      if Offers(k, Null) {
        assert HasLow(tree, k);
      } else if k == low && k < MAX_CLASS {
        forall p, j: nat | p != Null && POOL_CLASS <= j < k && OfClass(p, j) ensures !Fits(p, POOL_CLASS, true) {
          assert !HasLow(tree, j);
        }
      }
    }

    lemma LowListed(j: nat)
      requires Valid() && j < MAX_CLASS
      requires forall p :: OfClass(p, j) <==> p in FreeLeaves(tree, j)
      ensures (exists p :: p in FreeLeaves(tree, j) && p in mem && InBoot(mem[p].addr, POOL_CLASS))
        <==> exists p :: p != Null && OfClass(p, j) && Fits(p, POOL_CLASS, true)
    {
      hide Linked, Housed, Accounted, RootInv, FreeLeaves, Rep, Ids, Pow2, Dist;
      SteadyFacts(tree);
    }

    /** attach_region, on byte addresses. The answer is false where the source panics. */
    method AttachRegion(startByte: nat, endByte: nat, ty: State)
      returns (ok: bool, ghost es: seq<Attempt>, ghost u: Tree, ghost n: nat)
      requires Valid() && ty != Partial && startByte <= endByte <= 4096 * Pow2(MAX_CLASS)
      requires (endByte + 4095) / 4096 - startByte / 4096 < Pow2(MAX_CLASS)
      modifies this, links
      ensures ok ==> Valid() && Leads(old(tree), es, tree)
      ensures ok ==> Carries(es, Blocks(startByte / 4096, (endByte + 4095) / 4096, ty))
      ensures !ok ==>
        var bs := Blocks(startByte / 4096, (endByte + 4095) / 4096, ty);
        StoppedAt(es, bs) || (ShortAt(old(tree), es, u, n, bs) && freeDescCount == n + PoolGain(u))
      ensures old(freeDescCount) >= 2 * (MAX_CLASS + 1) * |Blocks(startByte / 4096, (endByte + 4095) / 4096, ty)| ==>
        ok || StoppedAt(es, Blocks(startByte / 4096, (endByte + 4095) / 4096, ty))
    {
      hide Pow2, Valid, Leads, Carries;
      ok, es, u, n := AttachPages(startByte / 4096, (endByte + 4095) / 4096, ty);
    }

    /** The attaches follow the blocks up to one whose memory is in use. */
    ghost predicate StoppedAt(es: seq<Attempt>, bs: seq<Block>) {
      0 < |es| <= |bs| && Carries(es, bs[..|es|]) && Blocked(es[|es| - 1])
    }

    lemma Stopped(es: seq<Attempt>, bs: seq<Block>, e: Attempt)
      requires |es| < |bs| && Carries(es + [e], bs[..|es| + 1]) && Blocked(e)
      ensures StoppedAt(es + [e], bs)
    {
    }

    static lemma StoppedShort(t: Tree, es: seq<Attempt>, u: Tree, n: nat, bs: seq<Block>)
      requires Leads(t, es, u) && |es| < |bs| && Carries(es, bs[..|es|])
      requires bs[|es|].cls < MAX_CLASS && n + PoolGain(u) < Need(MAX_CLASS, bs[|es|].cls)
      ensures ShortAt(t, es, u, n, bs)
    {
      hide Leads, Carries, PoolGain;
    }

    /** The loop of attach_region. */
    method AttachPages(first: nat, end: nat, ty: State)
      returns (ok: bool, ghost es: seq<Attempt>, ghost u: Tree, ghost n: nat)
      requires Valid() && ty != Partial && first <= end <= Pow2(MAX_CLASS) && end - first < Pow2(MAX_CLASS)
      modifies this, links
      ensures ok ==> Valid() && Leads(old(tree), es, tree)
      ensures ok ==> Carries(es, Blocks(first, end, ty))
      ensures !ok ==>
        var bs := Blocks(first, end, ty);
        StoppedAt(es, bs) || (ShortAt(old(tree), es, u, n, bs) && freeDescCount == n + PoolGain(u))
      ensures old(freeDescCount) >= 2 * (MAX_CLASS + 1) * |Blocks(first, end, ty)| ==>
        ok || StoppedAt(es, Blocks(first, end, ty))
    {
      hide Pow2, Valid, Leads, Carries, Blocks, Aligned, Biggest, Placed, Refilled, AttachBlock, NoRefs, Target, Sound;
      hide Refill, Supplied, PoolGain, ShortAt, StoppedAt;
      var start := first;
      ghost var bs := Blocks(first, end, ty);
      es, ok, u, n := [], true, tree, freeDescCount;
      LeadsNowhere(tree);
      CarriesNothing(bs);
      while start < end
        invariant Valid() && first <= start <= end && Leads(old(tree), es, tree)
        invariant |es| <= |bs| && bs[|es|..] == Blocks(start, end, ty) && Carries(es, bs[..|es|])
        invariant old(freeDescCount) >= 2 * (MAX_CLASS + 1) * |bs| ==>
          freeDescCount >= 2 * (MAX_CLASS + 1) * (|bs| - |es|)
        decreases end - start
      {
        var i := PickClass(start, end);
        NextBlock(start, end, ty, i);
        BlocksPlaced(first, end, ty, |es|);
        ghost var e;
        u, n := tree, freeDescCount;
        SupplyIs(Need(MAX_CLASS, i));
        ghost var supplied := Supplied(Need(MAX_CLASS, i), Null);
        ok, e := AttachOne(Block(i, start, ty));
        if !ok {
          if supplied {
            CarriesOn(es, bs, e);
            Stopped(es, bs, e);
            es := es + [e];
          } else {
            StoppedShort(old(tree), es, u, n, bs);
          }
          return;
        }
        LeadsOn(old(tree), es, u, e);
        CarriesOn(es, bs, e);
        es := es + [e];
        start := start + Pow2(i);
      }
      NoBlocks(end, ty);
      assert bs[..|es|] == bs;
    }

    /** The downward search for a class in attach_region. */
    method PickClass(start: nat, end: nat) returns (i: nat)
      requires start < end
      ensures i == Biggest(start, end, MAX_CLASS)
    {
      i := MAX_CLASS;
      while !Aligned(start, i) || start + Pow2(i) > end || (start + Pow2(i) == end && !Aligned(end, i))
        invariant i <= MAX_CLASS && Biggest(start, end, MAX_CLASS) == Biggest(start, end, i)
        decreases i
      {
        FitsSmallest(start, end);
        if Aligned(start, i) {
          StepAligned(start, i);
        }
        i := i - 1;
      }
    }

    /** The walk for a block may start at the root. */
    lemma RootStart(cls: nat, ty: State)
      requires Valid() && cls <= MAX_CLASS
      ensures Startable(Null, cls, ty, tree, Zip(Top, tree), false)
      ensures tree.Node? && tree.i.cls == MAX_CLASS && RootInv(tree) && ListsOk()
      ensures freeDescCount >= Need(MAX_CLASS, cls) ==> Supplied(Need(MAX_CLASS, cls), Null)
    {
      hide Linked, ListsOk, ZRep, Accounted, Housed, Inv;
      RootUnlisted(tree);
    }

    /** It has found the block's memory free, from u. */
    lemma RootWalk(b: Block, g: Zip, ids: seq<Ptr>)
      requires Placed(b) && g.c == Top && RootInv(Whole(g)) && |ids| >= 2 * Levels(b)
      requires NoRefs(Lookup(Origin(g, false), MAX_CLASS - b.cls, b.addr, b.ty, ids).t)
      ensures g.t.i.cls == MAX_CLASS && Origin(g, false) == Zip(Top, g.t) && RootInv(g.t) && Whole(g) == g.t
      ensures Sound(Attempt(g.t, b, ids)) && !Blocked(Attempt(g.t, b, ids)) && NoRefs(Target(g.t, b, ids))
    {
      hide Lookup, NoRefs, Inv;
      RootUnlisted(g.t);
    }

    /** It has found it in use. */
    lemma RootBlocked(b: Block, t: Tree, g: Zip, ids: seq<Ptr>)
      requires Placed(b) && Occupied(Null, b.addr, b.cls, b.ty, t, Zip(Top, t), g, ids, false)
      requires t.Node? && t.i.cls == MAX_CLASS
      ensures Sound(Attempt(g.t, b, ids)) && Blocked(Attempt(g.t, b, ids)) && Refilled(t, g.t) && Whole(g) == g.t
    {
      hide Lookup, NoRefs, Inv, Refilled;
      RootUnlisted(g.t);
    }

    /** One block of attach_region. With descriptors enough, or made enough by a refill, it
        fails if and only if the memory is in use. */
    method AttachOne(b: Block) returns (ok: bool, ghost e: Attempt)
      requires Valid() && Placed(b)
      modifies this, links
      ensures !old(Supplied(Need(MAX_CLASS, b.cls), Null)) ==>
        !ok && freeDescCount == old(freeDescCount + Refill()) < Need(MAX_CLASS, b.cls)
      ensures old(Supplied(Need(MAX_CLASS, b.cls), Null)) ==>
        e.b == b && Sound(e) && Refilled(old(tree), e.t) && (ok <==> !Blocked(e))
      ensures ok ==> Valid() && tree == AttachBlock(e.t, b, e.ids)
      ensures old(freeDescCount) >= Need(MAX_CLASS, b.cls) ==>
        e == Attempt(old(tree), b, old(Spare())) && all == old(all) &&
        (ok ==> freeDescCount >= old(freeDescCount) - 2 * Levels(b))
    {
      hide Linked, ListsOk, ZRep, Accounted, Housed, Refilled, Lookup, Inv, Supplied, RootInv, Blocked, NoRefs, Attach;
      hide Occupied, AttachBlock, Whole, Dist, Aligned, Pow2, Startable;
      RootStart(b.cls, b.ty);
      SpareFacts();
      ghost var g, ids, r;
      var node;
      ghost var t, supplied := tree, Supplied(Need(MAX_CLASS, b.cls), Null);
      node, g, ids, r := PageLookup(Null, b.addr, b.cls, b.ty, t, Zip(Top, t), false);
      ok, e := node != Null, Attempt(g.t, b, ids);
      if ok {
        RootWalk(b, g, ids);
        AttachedRoot(V(), all, g.t, b, ids, r);
        tree := AttachBlock(g.t, b, ids);
      } else if supplied {
        RootBlocked(b, t, g, ids);
      }
    }

    /** The state with any node in focus. */
    lemma FocusValid(z: Zip)
      requires Valid() && Whole(z) == tree && z.t.Node?
      ensures At(z) && Shape(z.t) && CShape(z.c) && ZInv(z) && NoNil(z.c)
    {
      hide Linked, ListsOk, Housed;
      FocusShape(z);
      AllNodes(z.c);
      MoveTop(V(), all, z);
    }

    ghost predicate NoLeafFits(cls: nat, hi: nat, boot: bool)
      reads `mem, `tree
    {
      forall c: nat, p :: cls <= c < hi && p in FreeLeaves(tree, c) ==>
        p in mem && boot && 4096 * (mem[p].addr + Pow2(cls)) >= 0x4000_0000
    }

    /** In terms of the tree: without the boot flag nothing fits only if there is no free block
        big enough, and with it no other counts than those that end, cut to size, within the
        first gigabyte. */
    lemma NoFreeBlock(cls: nat, hi: nat, boot: bool)
      requires Valid() && hi <= MAX_CLASS
      ensures NoneFits(cls, cls, hi, boot) <==> NoLeafFits(cls, hi, boot)
      ensures NoLeafFits(cls, hi, false) <==> NoFree(tree, cls, hi)
    {
      hide Linked, Housed, RootInv, ZRep, Accounted, FreeLeaves, Pow2, IsHead;
      ListedLeaves();
      SteadyFacts(tree);
      hide Valid, Steady, ListsOk;
      forall c: nat, p | cls <= c < hi && p in FreeLeaves(tree, c)
        ensures p in links.on && links.on[p] == ClassHead(c) && p in mem
      {
        assert OfClass(p, c);
      }
      forall p | p in links.on && links.on[p].ClassHead? && cls <= links.on[p].c < hi
        ensures p in FreeLeaves(tree, links.on[p].c) && p in mem
      {
        assert OfClass(p, links.on[p].c);
      }
    }

    /** The record of the page that was allocated. */
    lemma PageIs(t: Tree, g: Zip, cls: nat, ids: seq<Ptr>, r: Zip)
      requires RootInv(t) && Source(t, g, cls) && |ids| >= 2 * (g.t.i.cls - cls) && r == AllocWalk(g, cls, ids)
      requires r.t.Node? && At(Zip(r.c, RefSub(r.t)))
      ensures var p := PtrOf(r.t);
        p in mem && mem[p] == Page(Null, Null, mem[p].parent, Allocatable, 1, cls, g.t.i.addr)
    {
      hide Linked, ListsOk, ZRep, Accounted, AllocWalk, Source, Inv, CInv;
      WalkFacts(t, g, cls, ids);
      RefSubInfo(r.t);
      FocusFacts(V(), all, Zip(r.c, RefSub(r.t)));
    }

    /** The page_ref of the page alloc_page has found. */
    method HandOut(page: Ptr, cls: nat, ghost g: Zip, ghost ids: seq<Ptr>, ghost r: Zip)
      requires Source(Whole(g), g, cls) && |ids| >= 2 * (g.t.i.cls - cls) && r == AllocWalk(g, cls, ids)
      requires !allocatingPool && off == Null && RootInv(Whole(g)) && Housed(all, Whole(g))
      requires At(r) && page == PtrOf(r.t)
      modifies this`mem, this`tree, links
      ensures Valid() && tree == AllocTree(g, cls, ids, false) && g.t.i.cls < MAX_CLASS
      ensures page in mem && mem[page] == Page(Null, Null, mem[page].parent, Allocatable, 1, cls, g.t.i.addr)
    {
      hide Linked, ListsOk, ZRep, Accounted, RootInv, Housed, Inv, CInv, Lookup, RefSub;
      SourceClass(Whole(g), g, cls);
      RootSource(Whole(g), g, cls, ids);
      PageRef(page, r);
      PageIs(Whole(g), g, cls, ids, r);
      RefSubInfo(r.t);
      HoldRep(V(), all, Zip(r.c, RefSub(r.t)), false);
      tree := AllocTree(g, cls, ids, false);
      RootAfter(V(), all, Whole(g), g, cls, ids, false, tree);
      HousedStays(all, Whole(g), tree, g, cls, ids);
    }

    /** alloc_page and page_ref: a block of class cls for a client. No block and no panic
        means that nothing changed and that no listed block fits. */
    method Alloc(cls: nat, boot: bool) returns (page: Ptr, panic: bool, ghost g: Zip, ghost ids: seq<Ptr>)
      requires Valid() && cls < MAX_CLASS
      modifies this, links
      ensures panic <==> old(Strands(cls, boot))
      ensures page == Null && !panic ==> unchanged(this) && unchanged(links)
      ensures page == Null && !panic <==> old(NoneFits(cls, cls, MAX_CLASS, boot))
      ensures page == Null && !panic <==> old(NoLeafFits(cls, MAX_CLASS, boot))
      ensures !boot ==> (page == Null && !panic <==> NoFree(old(tree), cls, MAX_CLASS))
      ensures panic ==> page == Null && freeDescCount < 2 * (MAX_CLASS - cls)
      ensures old(freeDescCount) >= 2 * (MAX_CLASS - cls) ==> !panic
      ensures page != Null && old(freeDescCount) >= 2 * (MAX_CLASS - cls) ==>
        Whole(g) == old(tree) && ids == old(Spare()) && all == old(all)
      ensures page != Null ==> Valid() && Source(Whole(g), g, cls) && |ids| >= 2 * (g.t.i.cls - cls)
      ensures page != Null ==> g.t.i.cls < MAX_CLASS && old(NoLeafFits(cls, g.t.i.cls, boot))
      ensures page != Null ==> old(Chosen(g.t.i.p, cls, boot)) && old(links.on[g.t.i.p]) == ClassHead(g.t.i.cls)
      ensures page != Null ==> Refilled(old(tree), Whole(g)) && RootInv(Whole(g))
      ensures page != Null ==> tree == AllocTree(g, cls, ids, false) && page == PtrOf(AllocWalk(g, cls, ids).t)
      ensures page != Null ==>
        page in mem && mem[page] == Page(Null, Null, mem[page].parent, Allocatable, 1, cls, g.t.i.addr)
      ensures page != Null && boot ==> 4096 * (mem[page].addr + Pow2(cls)) < 0x4000_0000
    {
      hide Linked, ListsOk, ZRep, Accounted, RootInv, Housed, Refilled, Inv, CInv, Lookup, RefSub;
      ghost var r;
      forall hi: nat | hi <= MAX_CLASS
        ensures NoneFits(cls, cls, hi, boot) <==> NoLeafFits(cls, hi, boot)
        ensures NoLeafFits(cls, hi, false) <==> NoFree(tree, cls, hi)
      {
        NoFreeBlock(cls, hi, boot);
      }
      hide NoFree, NoLeafFits;
      page, panic, g, ids, r := AllocPage(cls, false, boot, tree);
      if page != Null {
        HandOut(page, cls, g, ids, r);
      }
    }

    /** page_lookup with allocation and no type, from the root, and page_ref of what it
        returns: the block of class cls at addr, whatever its memory is used for. The node is
        Null where the source panics for want of descriptors. */
    method Claim(addr: nat, cls: nat) returns (node: Ptr, ghost t: Tree, ghost ids: seq<Ptr>)
      requires Valid() && IsBlock(cls, addr)
      modifies this, links
      ensures node != Null <==> old(Supplied(Need(MAX_CLASS, cls), Null))
      ensures node == Null ==> freeDescCount == old(freeDescCount + Refill()) < 2 * (MAX_CLASS - cls + 1)
      ensures node != Null ==> Valid() && Refilled(old(tree), t) && RootInv(t)
      ensures node != Null ==> |ids| >= 2 * (MAX_CLASS - cls) && tree == ClaimTree(t, cls, addr, ids)
      ensures node != Null ==> node == PtrOf(ClaimWalk(t, cls, addr, ids).t)
      ensures node != Null ==> node in mem && mem[node].addr == addr && mem[node].cls == cls && mem[node].refc > 0
      ensures old(freeDescCount) >= Need(MAX_CLASS, cls) ==> t == old(tree) && ids == old(Spare()) && all == old(all)
    {
      hide Linked, ListsOk, ZRep, Accounted, Housed, Refilled, Lookup, Inv, CInv, Supplied, RootInv, RefSub, NoRefs;
      hide Whole, Dist, Startable, Aligned, Pow2, Bit;
      RootStart(cls, Partial);
      ghost var g, r;
      node, g, ids, r := PageLookup(Null, addr, cls, Partial, tree, Zip(Top, tree), false);
      t := g.t;
      if node != Null {
        RootFound(g);
        ClaimShape(t, cls, addr, ids);
        PageRef(node, r);
        ClaimedRecord(t, cls, addr, ids, r);
        RefSubInfo(r.t);
        AllNodes(r.c);
        HoldRep(V(), all, Zip(r.c, RefSub(r.t)), false);
        tree := ClaimTree(t, cls, addr, ids);
        ClaimedRoot(V(), all, t, cls, addr, ids, tree);
      }
    }

    static lemma SubRecord(t: Tree)
      requires t.Node?
      ensures var u := RefSub(t); u.Node? && u.i == t.i.(refc := u.i.refc, listed := u.i.listed) && u.i.refc > 0
    {
    }

    static lemma RootUntyped(t: Tree)
      requires RootInv(t)
      ensures Untyped(t)
    {
    }

    lemma ClaimedRecord(t: Tree, c: nat, a: nat, ids: seq<Ptr>, r: Zip)
      requires RootInv(t) && IsBlock(c, a) && |ids| >= 2 * (MAX_CLASS - c) && r == ClaimWalk(t, c, a, ids)
      requires r.t.Node? && At(Zip(r.c, RefSub(r.t)))
      ensures var p := PtrOf(r.t); p in mem && mem[p].addr == a && mem[p].cls == c && mem[p].refc > 0
    {
      hide Linked, ListsOk, ZRep, Accounted, Inv, CInv, Lookup, IsBlock, FInv, RefSub, ClaimWalk;
      RootUntyped(t);
      var found := ClaimFinds(t, c, a, ids);
      SubRecord(r.t);
      FocusFacts(V(), all, Zip(r.c, RefSub(r.t)));
    }

    lemma RootFound(g: Zip)
      requires g.t.Node? && g.c == Top && RootInv(Whole(g))
      ensures g.t.i.cls == MAX_CLASS && Origin(g, false) == Zip(Top, g.t) && RootInv(g.t) && Whole(g) == g.t
    {
      hide Inv, Dist;
      RootUnlisted(g.t);
    }

    /** page_ref on any node. */
    method Ref(node: Ptr, ghost z: Zip)
      requires Valid() && Whole(z) == tree && z.t.Node? && node == z.t.i.p
      modifies this`mem, this`tree, links
      ensures Valid() && tree == RefTree(z) && freeDescCount == old(freeDescCount)
    {
      hide Linked, ListsOk, ZRep, Accounted, RootInv, Housed, RefSub;
      FocusValid(z);
      PageRef(node, z);
      RefSubInfo(z.t);
      HoldRep(V(), all, Zip(z.c, RefSub(z.t)), false);
      RefKeeps(z);
      HousedSame(all, tree, RefTree(z), z, true);
      tree := RefTree(z);
    }

    /** page_unref on a node a client holds. */
    method Release(node: Ptr, ghost z: Zip)
      requires Valid() && Whole(z) == tree && z.t.Node? && node == z.t.i.p && z.t.i.held > 0
      modifies this`mem, this`freeDescCount, this`tree, links
      ensures Valid() && tree == UnrefTree(z)
    {
      hide Linked, ListsOk, ZRep, Accounted, RootInv, Housed, UnrefSub, Merge, Inv, CInv;
      FocusValid(z);
      ghost var y := Zip(z.c, BuddyOps.Release(z.t));
      FocusFacts(V(), all, z);
      SetInfo(V(), V(), all, z, y.t.i);
      ReleaseShape(z);
      PageUnref(node, y);
      UnrefKeeps(z);
      UnrefInv(z);
      AllNodes(Unref(y).c);
      MoveTop(V(), all, Unref(y));
      HousedSame(all, tree, UnrefTree(z), z, false);
      tree := UnrefTree(z);
    }

    /** Each free list holds exactly the unreferenced Allocatable leaves of its class, each
        of them once. */
    lemma FreeListsExact(c: nat)
      requires Valid() && c < MAX_CLASS
      ensures ClassHead(c) in links.lists && NoDup(links.lists[ClassHead(c)])
      ensures forall p :: p in links.lists[ClassHead(c)] <==> p in FreeLeaves(tree, c)
    {
      hide Linked, Housed;
      links.Members(ClassHead(c));
      SteadyFacts(tree);
      LeavesAreIds(tree, c);
      forall p ensures p in links.lists[ClassHead(c)] <==> p in FreeLeaves(tree, c) {
        if p in Ids(tree) {
          ListedAreLeaves(V(), tree, RootSlot, Null, c, p);
        }
        if p in links.lists[ClassHead(c)] {
          assert links.on[p] == ClassHead(c);
        }
      }
    }

    lemma ListedLeaves()
      requires Valid()
      ensures forall p, k: nat :: k < MAX_CLASS ==> (OfClass(p, k) <==> p in FreeLeaves(tree, k))
    {
      hide Valid, Linked, FreeLeaves;
      forall p, k: nat | k < MAX_CLASS ensures OfClass(p, k) <==> p in FreeLeaves(tree, k) {
        FreeListsExact(k);
        ListMembers(k);
      }
    }

    lemma ListMembers(c: nat)
      requires Valid() && ClassHead(c) in links.lists
      ensures forall p :: p in links.lists[ClassHead(c)] <==> OfClass(p, c)
    {
      hide Linked, Housed, RootInv, ZRep;
      links.Members(ClassHead(c));
    }

    /** Descriptors are conserved: each one is a node of the tree or on the list of free
        descriptors, never both, and the count is the length of that list. */
    lemma DescriptorsConserved()
      requires Valid()
      ensures freeDescCount == |Spare()| && NoDup(Spare())
      ensures all == Ids(tree) + (set p | p in Spare()) && Ids(tree) !! (set p | p in Spare())
    {
      hide Linked, Housed;
      SpareFacts();
      links.Members(DescHead);
      assert Descs(V()) == set p | p in Spare();
      forall p | p in Spare() ensures p !in Ids(tree) {
        if p in Ids(tree) {
          NodeNotDesc(V(), all, Zip(Top, tree), p);
        }
      }
    }

    /** The tree and the set of all descriptors fix the rest of a valid state, short of the
        order of the lists: the records, the number of free descriptors, the free lists. */
    lemma Settled()
      requires Valid()
      ensures Rep(V(), tree, Null) && freeDescCount == |all - Ids(tree)|
      ensures forall c: nat :: c < MAX_CLASS ==> ClassHead(c) in links.lists && NoDup(links.lists[ClassHead(c)])
      ensures forall c: nat, p :: c < MAX_CLASS ==> (p in links.lists[ClassHead(c)] <==> p in FreeLeaves(tree, c))
    {
      hide Linked, Housed, RootInv, Accounted, Dist, Rep, FreeLeaves, Ids, NoDup;
      DescriptorsConserved();
      NoDupSize(Spare());
      assert all - Ids(tree) == set p | p in Spare();
      forall c: nat | c < MAX_CLASS
        ensures ClassHead(c) in links.lists && NoDup(links.lists[ClassHead(c)])
        ensures forall p :: p in links.lists[ClassHead(c)] <==> p in FreeLeaves(tree, c)
      {
        FreeListsExact(c);
      }
    }

    /** alloc_page with page_ref, and then page_unref, in place. With descriptors enough and
        no two free buddies left unmerged, all is as before: the tree and with it the record
        of every node, the descriptors, the members of every free list. */
    method AllocThenRelease(cls: nat, boot: bool) returns (found: bool)
      requires Valid() && cls < MAX_CLASS && Coalesced(tree) && freeDescCount >= 2 * (MAX_CLASS - cls)
      modifies this, links
      ensures Valid() && tree == old(tree) && all == old(all) && freeDescCount == old(freeDescCount)
      ensures found <==> !old(NoneFits(cls, cls, MAX_CLASS, boot))
      ensures !boot ==> (found <==> !NoFree(old(tree), cls, MAX_CLASS))
      ensures forall p :: p in Ids(tree) ==> p in mem && p in old(mem) && mem[p] == old(mem)[p]
      ensures forall c: nat :: c < MAX_CLASS ==> ClassHead(c) in links.lists && ClassHead(c) in old(links.lists)
      ensures forall c: nat, p :: c < MAX_CLASS ==>
        (p in links.lists[ClassHead(c)] <==> p in old(links.lists)[ClassHead(c)])
    {
      hide Valid, Chosen, Strands, NoneFits, NoFree, NoLeafFits, AllocWalk, AllocTree, RefSub, UnrefTree, Rep;
      hide FreeLeaves, Ids, Plug;
      hide Coalesced;
      ghost var v := V();
      Settled();
      var page, panic;
      ghost var g, ids;
      page, panic, g, ids := Alloc(cls, boot);
      found := page != Null;
      if found {
        TreeBack(old(tree), g, cls, ids);
        ghost var r := AllocWalk(g, cls, ids);
        Release(page, Zip(r.c, Hold(RefSub(r.t), false)));
      }
      Settled();
      SameRecords(v, V(), tree, Null);
    }

    // ---------------------------------------------------------- check_physical_tree

    /** The loop over the rest of a free list: the node itself must not come again. */
    method CheckList(page: Ptr, cls: nat) returns (ok: bool)
      requires links.Valid() && page in links.on && links.on[page] == ClassHead(cls)
      requires ClassHead(cls) in links.lists && page in links.m.next
      ensures ok
    {
      hide Linked;
      ghost var h := ClassHead(cls);
      links.Members(h);
      ghost var s := links.lists[h];
      ghost var k :| 0 <= k < |s| && s[k] == page;
      links.Following(h, k);
      var n := links.Next(page);
      ok := true;
      ghost var j := k + 1;
      while n != ClassHead(cls)
        invariant k < j <= |s| && n == (if j < |s| then s[j] else h) && ok
        decreases |s| - j
      {
        ok := ok && n != page;
        links.Following(h, j);
        n := links.Next(n);
        j := j + 1;
      }
    }

    /** check_physical_tree passes on every node of a valid tree. */
    method CheckPhysicalTree(page: Ptr, ghost z: Zip) returns (ok: bool)
      requires Valid() && Whole(z) == tree && z.t.Node? && page == z.t.i.p
      ensures ok
      decreases Height(z.t)
    {
      hide Linked, ListsOk, Housed, RootInv, Accounted;
      FocusValid(z);
      ok := CheckNode(page, z);
      if mem[page].left != Null {
        var below := CheckPhysicalTree(mem[page].left, Zip(Down(z.t.i, false, z.t.r, z.c), z.t.l));
        ok := ok && below && mem[mem[page].left].parent == page;
      }
      if mem[page].right != Null {
        var below := CheckPhysicalTree(mem[page].right, Zip(Down(z.t.i, true, z.t.l, z.c), z.t.r));
        ok := ok && below && mem[mem[page].right].parent == page;
      }
    }

    /** The assertions of check_physical_tree about one node. Mappings are not modelled, so
        a referenced node's list is empty. */
    method CheckNode(page: Ptr, ghost z: Zip) returns (ok: bool)
      requires Valid() && Whole(z) == tree && z.t.Node? && page == z.t.i.p
      ensures ok && page in mem && mem[page].left == PtrOf(z.t.l) && mem[page].right == PtrOf(z.t.r)
      ensures z.t.l.Node? ==> PtrOf(z.t.l) in mem && mem[PtrOf(z.t.l)].parent == page && PtrOf(z.t.l) != Null
      ensures z.t.r.Node? ==> PtrOf(z.t.r) in mem && mem[PtrOf(z.t.r)].parent == page && PtrOf(z.t.r) != Null
    {
      hide Linked, Valid, Aligned, CShape, Shape;
      NodeFacts(z);
      ParentFacts(z);
      ListFacts(z);
      var q := mem[page];
      ok := Aligned(q.addr, q.cls);
      if q.left != Null {
        var l := mem[q.left];
        ok := ok && (q.st == Partial || l.st == q.st) && l.cls + 1 == q.cls && l.addr == q.addr;
      }
      if q.right != Null {
        var r := mem[q.right];
        ok := ok && (q.st == Partial || r.st == q.st) && r.cls + 1 == q.cls && r.addr == q.addr + Pow2(q.cls - 1);
      }
      if q.parent != Null {
        var p := mem[q.parent];
        ok := ok && p.cls - 1 == q.cls && (p.left == page) != (p.right == page);
      } else {
        ok := ok && q.cls == MAX_CLASS && page == Root;
      }
      if q.refc == 0 {
        if links.Next(page) != page {
          var listed := CheckList(page, q.cls);
          ok := ok && listed;
        }
      } else {
        ok := ok && links.Next(page) == page;
      }
    }

    /** The record of a node and those of its children. */
    lemma NodeFacts(z: Zip)
      requires Valid() && Whole(z) == tree && z.t.Node?
      ensures Here(V(), z.t.i, PtrOf(z.t.l), PtrOf(z.t.r), CPtr(z.c)) && Aligned(z.t.i.addr, z.t.i.cls)
      ensures z.t.l.Node? <==> z.t.r.Node?
      ensures z.t.l.Node? ==> PtrOf(z.t.l) != Null && PtrOf(z.t.r) != Null && z.t.i.cls > 0
      ensures z.t.l.Node? ==> PtrOf(z.t.l) in mem && InfoOk(z.t.l.i, KidSlot(z.t.i, false))
      ensures z.t.l.Node? ==> mem[PtrOf(z.t.l)] == Rec(z.t.l.i, PtrOf(z.t.l.l), PtrOf(z.t.l.r), z.t.i.p)
      ensures z.t.r.Node? ==> PtrOf(z.t.r) in mem && InfoOk(z.t.r.i, KidSlot(z.t.i, true))
      ensures z.t.r.Node? ==> mem[PtrOf(z.t.r)] == Rec(z.t.r.i, PtrOf(z.t.r.l), PtrOf(z.t.r.r), z.t.i.p)
    {
      hide Linked, ListsOk, Housed, RootInv, Accounted, CInv, Inv, Aligned, ZRep, Rep, InfoOk, Dist;
      FocusValid(z);
      FocusFacts(V(), all, z);
      InvAtFocus(z);
      if z.t.l.Node? && z.t.r.Node? {
        KidFacts(V(), all, z);
      }
    }

    static lemma InvAtFocus(z: Zip)
      requires ZInv(z)
      ensures Aligned(z.t.i.addr, z.t.i.cls) && (z.t.l.Node? <==> z.t.r.Node?)
      ensures z.t.l.Node? ==>
        z.t.i.cls > 0 && InfoOk(z.t.l.i, KidSlot(z.t.i, false)) && InfoOk(z.t.r.i, KidSlot(z.t.i, true))
    {
      hide Aligned, CInv;
      HoleAligned(z.c);
      assert Inv(z.t.l, KidSlot(z.t.i, false)) && Inv(z.t.r, KidSlot(z.t.i, true));
    }

    /** The record of a node's parent: exactly one of its links leads to the node. */
    lemma ParentFacts(z: Zip)
      requires Valid() && Whole(z) == tree && z.t.Node?
      ensures z.c.Top? <==> z.t.i.p == Root
      ensures z.c.Top? ==> z.t.i.cls == MAX_CLASS
      ensures z.c.Down? ==> z.c.i.p in mem && z.c.i.p != Null && mem[z.c.i.p].cls == z.t.i.cls + 1
      ensures z.c.Down? ==> (mem[z.c.i.p].left == z.t.i.p) != (mem[z.c.i.p].right == z.t.i.p)
    {
      hide Linked, ListsOk, Housed, RootInv, Accounted, ZRep;
      FocusValid(z);
      FocusFacts(V(), all, z);
      if z.c.Down? {
        CtxFacts(V(), all, z);
        assert PtrOf(z.c.sib) in CIds(z.c);
      }
    }

    /** A node is on the list of its class or points to itself. */
    lemma ListFacts(z: Zip)
      requires Valid() && Whole(z) == tree && z.t.Node?
      ensures links.Valid() && z.t.i.p in links.m.next
      ensures z.t.i.refc > 0 ==> links.m.next[z.t.i.p] == z.t.i.p
      ensures links.m.next[z.t.i.p] != z.t.i.p ==> z.t.i.p in links.on && links.on[z.t.i.p] == ClassHead(z.t.i.cls)
      ensures links.m.next[z.t.i.p] != z.t.i.p ==> ClassHead(z.t.i.cls) in links.lists
    {
      hide Linked, Housed, RootInv, Accounted, ZRep;
      FocusValid(z);
      FocusFacts(V(), all, z);
      assert IsRecord(z.t.i.p);
      if z.t.i.p in links.on {
        links.Members(DescHead);
      } else {
        links.LooseSelf(z.t.i.p);
      }
    }
  }
}
