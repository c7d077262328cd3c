/**
 The first-fit heap of kern/alloc.c: headers in an arena, a circular doubly linked list of
 the free ones in address order through a sentinel of size 0, allocation from the tail of
 the first block that is big enough, coalescing on release. Addresses are in units of one
 header.
 */
module Heap {
  import opened HeapBlocks

  datatype Header = Header(next: int, prev: int, size: nat)

  function Succ(ring: seq<int>, i: nat): (j: nat)
    requires i < |ring|
    ensures j < |ring|
  {
    if i + 1 < |ring| then i + 1 else 0
  }

  function Pred(ring: seq<int>, i: nat): (j: nat)
    requires i < |ring|
    ensures j < |ring| && Succ(ring, j) == i
  {
    if i > 0 then i - 1 else |ring| - 1
  }

  /** next leads from each member to the following one and prev back. */
  ghost predicate Hop(mem: map<int, Header>, ring: seq<int>, i: nat)
    requires i < |ring|
  {
    && ring[i] in mem && mem[ring[i]].next == ring[Succ(ring, i)]
    && ring[Succ(ring, i)] in mem && mem[ring[Succ(ring, i)]].prev == ring[i]
  }

  ghost predicate Linked(mem: map<int, Header>, ring: seq<int>) {
    forall i :: 0 <= i < |ring| ==> Hop(mem, ring, i)
  }

  /** Headers carry the sizes. */
  ghost predicate Sized(mem: map<int, Header>, base: int, sz: map<int, nat>) {
    && (forall b :: b in sz ==> b in mem && mem[b].size == sz[b])
    && base in mem && mem[base].size == 0
  }

  ghost predicate Sound(mem: map<int, Header>, base: int, sz: map<int, nat>, ring: seq<int>) {
    Blocks(base, sz, ring) && Linked(mem, ring) && Sized(mem, base, sz)
  }

  lemma RingBase(base: int, ring: seq<int>)
    requires Order(base, ring)
    ensures |ring| > 0 && ring[0] == base
  {
  }

  lemma LinkedFrame(mem: map<int, Header>, m: map<int, Header>, ring: seq<int>)
    requires Linked(mem, ring)
    requires forall a :: a in ring && a in mem ==> a in m && m[a].next == mem[a].next && m[a].prev == mem[a].prev
    ensures Linked(m, ring)
  {
    forall i | 0 <= i < |ring| ensures Hop(m, ring, i) {
      assert Hop(mem, ring, i);
    }
  }

  lemma SizeAt(mem: map<int, Header>, base: int, sz: map<int, nat>, b: int)
    requires Sized(mem, base, sz) && b in sz
    ensures b in mem && mem[b].size == sz[b]
  {
  }

  lemma SameSizes(mem: map<int, Header>, m: map<int, Header>, base: int, sz: map<int, nat>)
    requires Sized(mem, base, sz) && forall a :: a in mem ==> a in m && m[a].size == mem[a].size
    ensures Sized(m, base, sz)
  {
  }

  lemma HopAt(mem: map<int, Header>, ring: seq<int>, i: nat)
    requires Linked(mem, ring) && i < |ring|
    ensures ring[i] in mem && mem[ring[i]].next == ring[Succ(ring, i)] && mem[ring[i]].next in mem
    ensures mem[ring[i]].prev == ring[Pred(ring, i)] && mem[ring[i]].prev in mem
  {
    assert Hop(mem, ring, i) && Hop(mem, ring, Pred(ring, i));
  }

  lemma Distinct(base: int, ring: seq<int>, i: nat, j: nat)
    requires Order(base, ring) && i < |ring| && j < |ring|
    ensures ring[i] == ring[j] <==> i == j
  {
  }

  // ------------------------------------------------------------ cyclic order

  /** The list wraps around in address order exactly once. */
  lemma OneWrap(base: int, ring: seq<int>) returns (w: nat)
    requires Order(base, ring)
    ensures w < |ring|
    ensures forall i :: 0 <= i < |ring| ==> (ring[i] >= ring[Succ(ring, i)] <==> i == w)
  {
    w := if base < 0 then |ring| - 1 else 0;
    assert END <= ARENA;
  }

  /** Where a block that is not on the list belongs. */
  ghost predicate Place(ring: seq<int>, i: nat, bp: int) {
    && i < |ring|
    && (i == 0 || ring[i] < bp)
    && (i + 1 == |ring| || bp < ring[i + 1])
  }

  lemma {:induction false} PlaceExists(base: int, ring: seq<int>, bp: int, n: nat) returns (i: nat)
    requires Order(base, ring) && bp !in ring && n < |ring|
    requires n + 1 == |ring| || bp < ring[n + 1]
    ensures Place(ring, i, bp)
    decreases n
  {
    if n == 0 || ring[n] < bp {
      i := n;
    } else {
      i := PlaceExists(base, ring, bp, n - 1);
    }
  }

  /** The conditions of the search loop of test_free: p < bp < next, or the wrap with bp on
      the outer side of it. */
  predicate Between(p: int, next: int, bp: int) {
    bp > p && bp < next
  }

  predicate AtWrap(p: int, next: int, bp: int) {
    p >= next && (bp > p || bp < next)
  }

  /** The loop stops exactly at the place of the block. */
  lemma StopsIff(base: int, ring: seq<int>, i: nat, bp: int)
    requires Order(base, ring) && 0 <= bp < END && bp !in ring && i < |ring|
    ensures Place(ring, i, bp) <==>
      Between(ring[i], ring[Succ(ring, i)], bp) || AtWrap(ring[i], ring[Succ(ring, i)], bp)
  {
    assert END <= ARENA;
  }

  // ------------------------------------------------------------ list surgery

  function Inserted(ring: seq<int>, i: nat, b: int): (r: seq<int>)
    requires i < |ring|
  {
    ring[..i + 1] + [b] + ring[i + 1..]
  }

  function Removed(ring: seq<int>, i: nat): (r: seq<int>)
    requires i < |ring|
  {
    ring[..i] + ring[i + 1..]
  }

  /** A new member after the one at i. */
  lemma LinkIn(mem: map<int, Header>, base: int, ring: seq<int>, i: nat, b: int, m: map<int, Header>)
    requires Order(base, ring) && Linked(mem, ring) && i < |ring| && b !in ring
    requires forall x :: x in mem ==> x in m
    requires b in m && m[b].next == ring[Succ(ring, i)] && m[b].prev == ring[i]
    requires forall k :: 0 <= k < |ring| && k != i && ring[k] in mem ==> m[ring[k]].next == mem[ring[k]].next
    requires forall k :: 0 <= k < |ring| && k != Succ(ring, i) && ring[k] in mem ==>
      m[ring[k]].prev == mem[ring[k]].prev
    requires ring[i] in m && m[ring[i]].next == b
    requires ring[Succ(ring, i)] in m && m[ring[Succ(ring, i)]].prev == b
    ensures Linked(m, Inserted(ring, i, b))
  {
    var r := Inserted(ring, i, b);
    forall k | 0 <= k < |r| ensures Hop(m, r, k) {
      if k < i {
        assert Hop(mem, ring, k);
      } else if k > i + 1 {
        assert Hop(mem, ring, k - 1);
      }
    }
  }

  /** The member at i leaves. */
  lemma LinkOut(mem: map<int, Header>, base: int, ring: seq<int>, i: nat, m: map<int, Header>)
    requires Order(base, ring) && Linked(mem, ring) && 0 < i < |ring|
    requires forall x :: x in mem ==> x in m
    requires forall k :: 0 <= k < |ring| && k != i && k != i - 1 && ring[k] in mem ==>
      m[ring[k]].next == mem[ring[k]].next
    requires forall k :: 0 <= k < |ring| && k != i && k != Succ(ring, i) && ring[k] in mem ==>
      m[ring[k]].prev == mem[ring[k]].prev
    requires ring[i - 1] in m && m[ring[i - 1]].next == ring[Succ(ring, i)]
    requires ring[Succ(ring, i)] in m && m[ring[Succ(ring, i)]].prev == ring[i - 1]
    ensures Linked(m, Removed(ring, i))
  {
    var r := Removed(ring, i);
    forall k | 0 <= k < |r| ensures Hop(m, r, k) {
      if k < i - 1 {
        assert Hop(mem, ring, k);
      } else if k >= i {
        assert Hop(mem, ring, k + 1);
      } else {
        assert Hop(mem, ring, i);
      }
    }
  }

  /** The two writes that take the member at k out. */
  lemma UnlinkOk(mem: map<int, Header>, base: int, ring: seq<int>, k: nat, m: map<int, Header>)
    requires Order(base, ring) && Linked(mem, ring) && 0 < k < |ring|
    requires ring[k - 1] in mem && ring[Succ(ring, k)] in mem
    requires var a, n := ring[k - 1], ring[Succ(ring, k)];
      var m1 := mem[a := mem[a].(next := n)]; m == m1[n := m1[n].(prev := a)]
    ensures Linked(m, Removed(ring, k))
  {
    LinkOut(mem, base, ring, k, m);
  }

  /** The writes of test_free to the links when the block goes alone. */
  lemma LinkAloneOk(mem: map<int, Header>, base: int, ring: seq<int>, i: nat, b: int, m: map<int, Header>)
    requires Order(base, ring) && Linked(mem, ring) && i < |ring| && b !in ring && b in mem
    requires ring[i] in mem && ring[Succ(ring, i)] in mem
    requires var p, n := ring[i], ring[Succ(ring, i)];
      var m1 := mem[b := mem[b].(next := n, prev := p)];
      var m2 := m1[n := m1[n].(prev := b)];
      m == m2[p := m2[p].(next := b)]
    ensures Linked(m, Inserted(ring, i, b))
  {
    LinkIn(mem, base, ring, i, b, m);
  }

  /** ... when it takes the place of the block above it ... */
  lemma LinkUpperOk(mem: map<int, Header>, base: int, ring: seq<int>, i: nat, b: int, s: nat, m: map<int, Header>)
    requires Order(base, ring) && Linked(mem, ring) && i + 1 < |ring| && b !in ring && b in mem
    requires ring[i] in mem && ring[Succ(ring, i + 1)] in mem
    requires var p, n := ring[i], ring[Succ(ring, i + 1)];
      var m1 := mem[b := Header(n, p, s)];
      var m2 := m1[n := m1[n].(prev := b)];
      m == m2[p := m2[p].(next := b)]
    ensures Linked(m, ring[i + 1 := b])
  {
    var r := ring[i + 1 := b];
    forall k | 0 <= k < |r| ensures Hop(m, r, k) {
      assert Hop(mem, ring, k);
    }
  }

  /** ... and when the block above goes. */
  lemma LinkBothOk(mem: map<int, Header>, base: int, ring: seq<int>, k: nat, s: nat, m: map<int, Header>)
    requires Order(base, ring) && Linked(mem, ring) && 0 < k < |ring|
    requires ring[k - 1] in mem && ring[Succ(ring, k)] in mem
    requires var a, n := ring[k - 1], ring[Succ(ring, k)];
      var m1 := mem[a := mem[a].(size := s)];
      var m2 := m1[n := m1[n].(prev := a)];
      m == m2[a := m2[a].(next := n)]
    ensures Linked(m, Removed(ring, k))
  {
    LinkOut(mem, base, ring, k, m);
  }

  lemma OrderIn(base: int, ring: seq<int>, i: nat, b: int)
    requires Order(base, ring) && Place(ring, i, b) && 0 <= b < END
    ensures Order(base, Inserted(ring, i, b))
    ensures forall x :: x in Inserted(ring, i, b) <==> x in ring || x == b
  {
    hide Tiles;
    var r := Inserted(ring, i, b);
    forall x | x in ring ensures x in r {
      var k :| 0 <= k < |ring| && ring[k] == x;
      assert x == r[if k <= i then k else k + 1];
    }
    assert r[i + 1] == b;
  }

  lemma OrderOut(base: int, ring: seq<int>, i: nat)
    requires Order(base, ring) && 0 < i < |ring|
    ensures Order(base, Removed(ring, i))
    ensures forall x :: x in Removed(ring, i) <==> x in ring && x != ring[i]
  {
    var r := Removed(ring, i);
    forall x | x in ring && x != ring[i] ensures x in r {
      var k :| 0 <= k < |ring| && ring[k] == x;
      assert x == r[if k < i then k else k - 1];
    }
  }

  // ------------------------------------------------------------ allocation on blocks

  lemma TakeWhole(base: int, sz: map<int, nat>, ring: seq<int>, i: nat)
    requires Blocks(base, sz, ring) && 0 < i < |ring|
    ensures Blocks(base, sz, Removed(ring, i))
    ensures ring[i] in sz && ring[i] !in Live(sz, ring)
    ensures Live(sz, Removed(ring, i)) == Live(sz, ring)[ring[i] := sz[ring[i]]]
  {
    hide Order, Tiles;
    OrderOut(base, ring, i);
    var r := Removed(ring, i);
    forall k | 0 < k < |r| ensures r[k] in sz && r[k] + sz[r[k]] !in r {
      assert r[k] == ring[if k < i then k else k + 1];
    }
  }

  lemma TakeTail(base: int, sz: map<int, nat>, ring: seq<int>, i: nat, n: nat, u: map<int, nat>)
    requires Blocks(base, sz, ring) && 0 < i < |ring| && 0 < n < sz[ring[i]]
    requires u == sz[ring[i] := sz[ring[i]] - n][ring[i] + sz[ring[i]] - n := n]
    ensures var t := ring[i] + sz[ring[i]] - n;
      && Blocks(base, u, ring) && t !in sz && t !in ring && t !in Live(sz, ring)
      && Live(u, ring) == Live(sz, ring)[t := n]
  {
    var p := ring[i];
    var t := p + sz[p] - n;
    assert Meets(sz, p);
    Split(sz, p, n, u);
    if t in ring && t != base {
      OnRing(base, ring, t);
    }
    forall k | 0 < k < |ring| ensures ring[k] in u && ring[k] + u[ring[k]] !in ring {
    }
  }

  // ------------------------------------------------------------ release on blocks

  /** The block above is free exactly when it is the next member. */
  lemma UpperIff(base: int, sz: map<int, nat>, ring: seq<int>, i: nat, bp: int)
    requires Blocks(base, sz, ring) && bp in sz && bp !in ring && Place(ring, i, bp)
    ensures bp + sz[bp] in ring <==> i + 1 < |ring| && ring[i + 1] == bp + sz[bp]
    ensures bp + sz[bp] in ring <==> ring[Succ(ring, i)] == bp + sz[bp]
    ensures 0 <= bp < bp + sz[bp] <= END && bp + sz[bp] != base
  {
    var e := bp + sz[bp];
    assert Meets(sz, bp);
    assert END < ARENA;
    if e in ring {
      OnRing(base, ring, e);
      var k :| 0 < k < |ring| && ring[k] == e;
      if k > i + 1 {
        TilesOf(sz, bp, ring[i + 1]);
      }
    }
  }

  /** The block below is free exactly when it is the member before. */
  lemma LowerIs(base: int, sz: map<int, nat>, ring: seq<int>, i: nat, bp: int, k: nat)
    requires Blocks(base, sz, ring) && bp in sz && bp !in ring && Place(ring, i, bp) && 0 < k < |ring|
    ensures ring[k] + sz[ring[k]] == bp ==> k == i
  {
    if ring[k] + sz[ring[k]] == bp && k < i {
      TilesOf(sz, ring[k], ring[i]);
    }
    assert Meets(sz, ring[k]);
  }

  /** Exactly bp stops being allocated. */
  lemma LiveLess(sz: map<int, nat>, ring: seq<int>, u: map<int, nat>, r: seq<int>, bp: int)
    requires forall x :: x in u && x !in r <==> x in sz && x !in ring && x != bp
    requires forall x :: x in u && x !in r ==> u[x] == sz[x]
    ensures Live(u, r) == Live(sz, ring) - {bp}
  {
    var m, k := Live(u, r), Live(sz, ring) - {bp};
    forall x ensures (x in m <==> x in k) && (x in m ==> m[x] == k[x]) {
    }
    assert m == k;
  }

  lemma GiveAlone(base: int, sz: map<int, nat>, ring: seq<int>, i: nat, bp: int)
    requires Blocks(base, sz, ring) && bp in sz && bp !in ring && Place(ring, i, bp)
    requires bp + sz[bp] !in ring && (i > 0 ==> ring[i] + sz[ring[i]] != bp)
    ensures Blocks(base, sz, Inserted(ring, i, bp))
    ensures Live(sz, Inserted(ring, i, bp)) == Live(sz, ring) - {bp}
    ensures ring[i] in Inserted(ring, i, bp)
  {
    assert Meets(sz, bp);
    OrderIn(base, ring, i, bp);
    var r := Inserted(ring, i, bp);
    LiveLess(sz, ring, sz, r, bp);
    forall k | 0 < k < |ring| ensures ring[k] + sz[ring[k]] != bp {
      LowerIs(base, sz, ring, i, bp, k);
    }
    hide Order, Tiles;
    ApartIn(base, sz, ring, i, bp, r);
  }

  lemma ApartIn(base: int, sz: map<int, nat>, ring: seq<int>, i: nat, bp: int, r: seq<int>)
    requires Apart(sz, ring) && bp in sz && i < |ring| && r == Inserted(ring, i, bp)
    requires forall x :: x in r <==> x in ring || x == bp
    requires sz[bp] > 0 && bp + sz[bp] !in ring
    requires forall k :: 0 < k < |ring| ==> ring[k] + sz[ring[k]] != bp
    ensures Apart(sz, r)
  {
    hide Order, Tiles;
    forall k | 0 < k < |r| ensures r[k] in sz && r[k] + sz[r[k]] !in r {
      if k != i + 1 {
        assert r[k] == ring[if k <= i then k else k - 1];
      }
    }
  }

  lemma GiveLower(base: int, sz: map<int, nat>, ring: seq<int>, i: nat, bp: int, u: map<int, nat>)
    requires Blocks(base, sz, ring) && bp in sz && bp !in ring && Place(ring, i, bp)
    requires bp + sz[bp] !in ring && i > 0 && ring[i] + sz[ring[i]] == bp
    requires u == (sz - {bp})[ring[i] := sz[ring[i]] + sz[bp]]
    ensures Blocks(base, u, ring) && Live(u, ring) == Live(sz, ring) - {bp}
  {
    Join(sz, ring[i], bp, u);
    forall k | 0 < k < |ring| ensures ring[k] in u && ring[k] + u[ring[k]] !in ring {
    }
  }

  /** A block that takes the place of its upper neighbour keeps the order. */
  lemma OrderSwap(base: int, sz: map<int, nat>, ring: seq<int>, i: nat, bp: int)
    requires Tiles(sz) && Order(base, ring) && bp in sz && Place(ring, i, bp)
    requires i + 1 < |ring| && ring[i + 1] == bp + sz[bp] && ring[i + 1] in sz
    ensures Order(base, ring[i + 1 := bp])
    ensures forall j, k :: 0 <= j < k < |ring| ==> ring[j] != ring[k]
  {
    assert Meets(sz, bp) && Meets(sz, ring[i + 1]);
  }

  lemma GiveUpper(base: int, sz: map<int, nat>, ring: seq<int>, i: nat, bp: int, u: map<int, nat>)
    requires Blocks(base, sz, ring) && bp in sz && bp !in ring && Place(ring, i, bp)
    requires i + 1 < |ring| && ring[i + 1] == bp + sz[bp] && (i > 0 ==> ring[i] + sz[ring[i]] != bp)
    requires u == (sz - {ring[i + 1]})[bp := sz[bp] + sz[ring[i + 1]]]
    ensures Blocks(base, u, ring[i + 1 := bp]) && Live(u, ring[i + 1 := bp]) == Live(sz, ring) - {bp}
  {
    hide Order, Tiles, Place, Live;
    var q, r := ring[i + 1], ring[i + 1 := bp];
    Join(sz, bp, q, u);
    OrderSwap(base, sz, ring, i, bp);
    SwappedMembers(ring, i + 1, bp, r);
    LiveLess(sz, ring, u, r, bp);
    forall k | 0 < k < |ring| ensures ring[k] + sz[ring[k]] != bp {
      LowerIs(base, sz, ring, i, bp, k);
    }
    ApartSwap(sz, ring, i + 1, bp, u, r);
  }

  lemma ApartSwap(sz: map<int, nat>, ring: seq<int>, i: nat, bp: int, u: map<int, nat>, r: seq<int>)
    requires Apart(sz, ring) && bp in sz && bp !in ring && 0 < i < |ring| && r == ring[i := bp]
    requires forall j, k :: 0 <= j < k < |ring| ==> ring[j] != ring[k]
    requires u == (sz - {ring[i]})[bp := sz[bp] + sz[ring[i]]] && ring[i] == bp + sz[bp] && sz[bp] > 0
    requires forall x :: x in r <==> x == bp || (x in ring && x != ring[i])
    requires forall k :: 0 < k < |ring| ==> ring[k] + sz[ring[k]] != bp
    ensures Apart(u, r)
  {
    assert ring[i] + sz[ring[i]] !in ring;
    forall k | 0 < k < |r| ensures r[k] in u && r[k] + u[r[k]] !in r {
      assert ring[k] + sz[ring[k]] !in ring;
    }
  }

  lemma SwappedMembers(ring: seq<int>, i: nat, b: int, r: seq<int>)
    requires i < |ring| && r == ring[i := b] && b !in ring
    requires forall j, k :: 0 <= j < k < |ring| ==> ring[j] != ring[k]
    ensures forall x :: x in r <==> x == b || (x in ring && x != ring[i])
  {
    forall x | x in ring && x != ring[i] ensures x in r {
      var k :| 0 <= k < |ring| && ring[k] == x;
      assert r[k] == x;
    }
    assert r[i] == b;
  }

  lemma GiveBoth(base: int, sz: map<int, nat>, ring: seq<int>, i: nat, bp: int, u: map<int, nat>)
    requires Blocks(base, sz, ring) && bp in sz && bp !in ring && Place(ring, i, bp)
    requires 0 < i && i + 1 < |ring| && ring[i + 1] == bp + sz[bp] && ring[i] + sz[ring[i]] == bp
    requires u == (sz - {bp, ring[i + 1]})[ring[i] := sz[ring[i]] + sz[bp] + sz[ring[i + 1]]]
    ensures Blocks(base, u, Removed(ring, i + 1)) && Live(u, Removed(ring, i + 1)) == Live(sz, ring) - {bp}
  {
    var p, q, r := ring[i], ring[i + 1], Removed(ring, i + 1);
    assert Meets(sz, bp) && Meets(sz, p) && Meets(sz, q);
    var v := (sz - {bp})[p := sz[p] + sz[bp]];
    Join(sz, p, bp, v);
    Join(v, p, q, u);
    OrderOut(base, ring, i + 1);
    LiveLess(sz, ring, u, r, bp);
    hide Order, Tiles;
    ApartBoth(sz, ring, i, u, r);
  }

  lemma ApartBoth(sz: map<int, nat>, ring: seq<int>, i: nat, u: map<int, nat>, r: seq<int>)
    requires Apart(sz, ring) && 0 < i && i + 1 < |ring| && r == Removed(ring, i + 1)
    requires forall j, k :: 0 <= j < k < |ring| ==> ring[j] != ring[k]
    requires forall x :: x in r ==> x in ring
    requires forall k :: 0 < k < |ring| && k != i + 1 ==> ring[k] in u
    requires forall k :: 0 < k < |ring| && k != i && k != i + 1 ==> u[ring[k]] == sz[ring[k]]
    requires ring[i] + u[ring[i]] == ring[i + 1] + sz[ring[i + 1]]
    ensures Apart(u, r)
  {
    assert ring[i + 1] + sz[ring[i + 1]] !in ring;
    forall k | 0 < k < |r| ensures r[k] in u && r[k] + u[r[k]] !in r {
      var j := if k < i + 1 then k else k + 1;
      assert r[k] == ring[j];
      assert ring[j] + sz[ring[j]] !in ring;
    }
  }

  // ------------------------------------------------------------ first fit

  /** Units for nbytes bytes and the header. */
  function Units(nbytes: nat): (n: nat)
    ensures n > 0 && 32 * (n - 1) >= nbytes && (n == 1 || 32 * (n - 2) < nbytes)
  {
    (nbytes + HEADER_BYTES - 1) / HEADER_BYTES + 1
  }

  /** How many steps along the list lead from f to k, at least one. */
  function Steps(ring: seq<int>, f: nat, k: nat): (n: nat)
    requires f < |ring| && k < |ring|
    ensures 1 <= n <= |ring|
  {
    if k > f then k - f else k - f + |ring|
  }

  function SizeOf(sz: map<int, nat>, ring: seq<int>, k: nat): (n: nat)
    requires k < |ring|
  {
    if k > 0 && ring[k] in sz then sz[ring[k]] else 0
  }

  /** The members after f and before k, going round, have fewer than n units. */
  ghost predicate Smaller(sz: map<int, nat>, ring: seq<int>, f: nat, k: nat, n: nat)
    requires f < |ring| && k < |ring|
  {
    forall j :: 0 <= j < |ring| && Steps(ring, f, j) < Steps(ring, f, k) ==> SizeOf(sz, ring, j) < n
  }

  lemma FirstStep(sz: map<int, nat>, ring: seq<int>, f: nat, n: nat)
    requires f < |ring|
    ensures Smaller(sz, ring, f, Succ(ring, f), n)
  {
  }

  lemma NextStep(sz: map<int, nat>, ring: seq<int>, f: nat, k: nat, n: nat)
    requires f < |ring| && k < |ring| && k != f && Smaller(sz, ring, f, k, n) && SizeOf(sz, ring, k) < n
    ensures Smaller(sz, ring, f, Succ(ring, k), n) && Steps(ring, f, Succ(ring, k)) == Steps(ring, f, k) + 1
  {
  }

  /** The first member after f, going round, that has n units. */
  ghost predicate FirstFit(sz: map<int, nat>, ring: seq<int>, f: nat, k: nat, n: nat) {
    && f < |ring| && 0 < k < |ring| && ring[k] in sz && sz[ring[k]] >= n
    && Smaller(sz, ring, f, k, n)
  }

  /** The blocks between f and k, going round, are too small. */
  lemma FirstSkips(sz: map<int, nat>, ring: seq<int>, f: nat, k: nat, n: nat)
    requires FirstFit(sz, ring, f, k, n) && forall j :: 0 < j < |ring| ==> ring[j] in sz
    ensures forall j :: 0 < j < |ring| && (if f < k then f < j < k else f < j || j < k) ==> sz[ring[j]] < n
  {
    forall j | 0 < j < |ring| && (if f < k then f < j < k else f < j || j < k) ensures sz[ring[j]] < n {
      assert Steps(ring, f, j) < Steps(ring, f, k) ==> SizeOf(sz, ring, j) < n;
    }
  }

  // ------------------------------------------------------------ the heap

  class Heap {
    /** Where the sentinel lies: outside the array, on either side. */
    const base: int
    var mem: map<int, Header>
    /** freep; the list does not exist before the first allocation. */
    var ready: bool
    var freep: int
    /** All blocks, and the list. */
    ghost var sz: map<int, nat>
    ghost var ring: seq<int>

    ghost predicate Valid()
      reads this
    {
      && (base < 0 || base >= ARENA) && base in mem && mem[base].size == 0
      && (ready ==> Sound(mem, base, sz, ring) && freep in ring)
      && (!ready ==> sz == map[0 := END] && ring == [base, 0])
    }

    /** The blocks allocated and not yet released. */
    ghost function Allocated(): map<int, nat>
      reads this
    {
      Live(sz, ring)
    }

    constructor (at: int)
      requires at < 0 || at >= ARENA
      ensures Valid() && !ready && Allocated() == map[] && base == at && sz == map[0 := 639]
    {
      base := at;
      mem := map[at := Header(0, 0, 0)];
      ready, freep := false, 0;
      sz, ring := map[0 := END], [at, 0];
    }

    lemma ReadyBlocks()
      requires Valid()
      ensures Blocks(base, sz, ring)
    {
      if !ready {
        assert Meets(sz, 0);
      }
    }

    /** The first call sets the list up: one block of the whole arena. */
    method Begin()
      requires Valid()
      modifies this
      ensures Valid() && ready && sz == old(sz) && ring == old(ring)
      ensures old(ready) ==> mem == old(mem)
      ensures freep == if old(ready) then old(freep) else base
    {
      ReadyBlocks();
      if !ready {
        var head := mem[base];
        mem := mem[0 := Header(base, base, END)];
        mem := mem[base := Header(0, 0, head.size)];
        freep, ready := base, true;
        forall i | 0 <= i < |ring| ensures Hop(mem, ring, i) {
        }
      }
    }

    /** check_list: the answer is false where the source panics. */
    method CheckList() returns (ok: bool)
      requires Valid() && ready
      ensures ok
    {
      ghost var f: nat :| f < |ring| && ring[f] == freep;
      HopAt(mem, ring, f);
      ghost var i: nat, left := Succ(ring, f), |ring| - 1;
      var prevp, p := freep, mem[freep].next;
      ok := true;
      while p != freep
        invariant 0 <= i < |ring| && p == ring[i] && prevp == ring[Pred(ring, i)] && ok
        invariant 0 <= left && left == if i <= f then f - i else f + |ring| - i
        decreases left
      {
        HopAt(mem, ring, i);
        ok := ok && prevp == mem[p].prev;
        i, left := Succ(ring, i), left - 1;
        prevp, p := p, mem[p].next;
      }
    }

    /** test_alloc of nbytes bytes: succeeds exactly when that many units lie unused side by
        side, takes the tail of the first block after freep that is big enough, and
        allocates nothing else. */
    method Alloc(nbytes: nat) returns (ok: bool, ap: int, ghost f: nat, ghost k: nat)
      requires Valid() && nbytes < 256
      modifies this
      ensures Valid() && ready
      ensures ok <==> exists a :: Unused(old(Allocated()), a, Units(nbytes))
      ensures !ok ==> sz == old(sz) && ring == old(ring) && freep == (if old(ready) then old(freep) else base)
      ensures ok ==> f < |old(ring)| && old(ring)[f] == (if old(ready) then old(freep) else base)
      ensures ok ==> FirstFit(old(sz), old(ring), f, k, Units(nbytes))
      ensures ok ==> ap - 1 == old(ring)[k] + old(sz)[old(ring)[k]] - Units(nbytes)
      ensures ok ==> ap - 1 !in old(Allocated()) && Allocated() == old(Allocated())[ap - 1 := Units(nbytes)]
      ensures ok ==> freep == old(ring)[k - 1]
      ensures ok ==> forall j :: 0 < j < |old(ring)| && (if f < k then f < j < k else f < j || j < k) ==>
        old(ring)[j] in old(sz) && old(sz)[old(ring)[j]] < Units(nbytes)
    {
      hide Tiles, Apart, Order, Linked;
      var nunits := (nbytes + HEADER_BYTES - 1) / HEADER_BYTES + 1;
      Begin();
      var linked := CheckList();
      RoomIff(base, sz, ring, nunits);
      ghost var room := exists a :: Unused(old(Allocated()), a, Units(nbytes));
      var p;
      ok, p, f, k := Search(nunits);
      assert ok <==> room;
      ap := p + 1;
      if ok {
        forall j | 0 < j < |ring| ensures ring[j] in sz {
          HeaderSize(j);
        }
        FirstSkips(sz, ring, f, k, nunits);
        HeaderSize(k);
        if mem[p].size == nunits {
          TakeExact(p, k);
        } else {
          p := TakeTailEnd(p, k, nunits);
          ap := p + 1;
        }
      }
    }

    /** The loop of test_alloc, up to the first block that is big enough or back to freep. */
    method Search(nunits: nat) returns (found: bool, p: int, ghost f: nat, ghost k: nat)
      requires Valid() && ready && nunits > 0
      ensures f < |ring| && ring[f] == freep
      ensures found <==> exists i :: 0 < i < |ring| && sz[ring[i]] >= nunits
      ensures found ==> FirstFit(sz, ring, f, k, nunits) && p == ring[k]
    {
      hide Tiles, Linked, Order, Apart, Smaller, Steps, Sized;
      f :| f < |ring| && ring[f] == freep;
      HopAt(mem, ring, f);
      FirstStep(sz, ring, f, nunits);
      k := Succ(ring, f);
      p := mem[freep].next;
      while true
        invariant k < |ring| && p == ring[k]
        invariant Smaller(sz, ring, f, k, nunits)
        decreases |ring| - Steps(ring, f, k)
      {
        HopAt(mem, ring, k);
        HeaderSize(k);
        if mem[p].size >= nunits {
          return true, p, f, k;
        }
        Distinct(base, ring, k, f);
        if p == freep {
          NothingFits(nunits, f);
          return false, p, f, k;
        }
        NextStep(sz, ring, f, k, nunits);
        p, k := mem[p].next, Succ(ring, k);
      }
    }

    lemma HeaderSize(k: nat)
      requires Sound(mem, base, sz, ring) && k < |ring|
      ensures ring[k] in mem && mem[ring[k]].size == SizeOf(sz, ring, k)
      ensures k > 0 ==> ring[k] in sz
    {
    }

    lemma NothingFits(n: nat, f: nat)
      requires Valid() && n > 0 && f < |ring|
      requires Smaller(sz, ring, f, f, n) && SizeOf(sz, ring, f) < n
      ensures forall i :: 0 < i < |ring| ==> sz[ring[i]] < n
    {
      forall i | 0 < i < |ring| ensures sz[ring[i]] < n {
        assert SizeOf(sz, ring, i) < n;
      }
    }

    /** The block fits exactly and leaves the list. */
    method TakeExact(p: int, ghost k: nat)
      requires Valid() && ready && 0 < k < |ring| && ring[k] == p
      modifies this`mem, this`freep, this`ring
      ensures Valid() && ring == Removed(old(ring), k) && freep == old(ring)[k - 1]
      ensures p in sz && p !in old(Allocated()) && Allocated() == old(Allocated())[p := sz[p]]
    {
      hide Linked, Tiles, Apart, Order;
      ghost var m := mem;
      HopAt(mem, ring, k);
      freep := mem[p].prev;
      mem := mem[mem[p].prev := mem[mem[p].prev].(next := mem[p].next)];
      mem := mem[mem[p].next := mem[mem[p].next].(prev := mem[p].prev)];
      TakeWhole(base, sz, ring, k);
      UnlinkOk(m, base, ring, k, mem);
      ring := Removed(ring, k);
    }

    /** The block is bigger and gives its tail. */
    method TakeTailEnd(p: int, ghost k: nat, nunits: nat) returns (t: int)
      requires Valid() && ready && 0 < k < |ring| && ring[k] == p && 0 < nunits < sz[p]
      modifies this`mem, this`freep, this`sz
      ensures Valid() && t == p + old(sz)[p] - nunits && freep == ring[k - 1]
      ensures t !in old(Allocated()) && Allocated() == old(Allocated())[t := nunits]
    {
      hide Tiles, Order, Apart, Live, Linked;
      ghost var m := mem;
      HopAt(mem, ring, k);
      HeaderSize(k);
      RingBase(base, ring);
      freep := mem[p].prev;
      mem := mem[p := mem[p].(size := mem[p].size - nunits)];
      t := p + mem[p].size;
      var stale := if t in mem then mem[t] else Header(0, 0, 0);
      mem := mem[t := stale.(size := nunits)];
      ghost var u := sz[p := sz[p] - nunits][t := nunits];
      TakeTail(base, sz, ring, k, nunits, u);
      sz := u;
      LinkedFrame(m, mem, ring);
    }

    /** What a release leaves: everything in order but for freep. */
    ghost predicate Given(live: map<int, nat>, bp: int, p: int)
      reads this
    {
      Sound(mem, base, sz, ring) && p in ring && Live(sz, ring) == live - {bp}
    }

    /** The search loop of test_free. */
    method FindPlace(bp: int) returns (p: int, ghost i: nat)
      requires Valid() && ready && bp in sz && bp !in ring
      ensures i < |ring| && p == ring[i] && Place(ring, i, bp)
      ensures exists j :: 0 <= j < |ring| && p == ring[j] && Place(ring, j, bp)
    {
      hide Order, Sized;
      assert Meets(sz, bp);
      hide Tiles, Apart, Linked, Place, Between, AtWrap;
      p := freep;
      i :| i < |ring| && ring[i] == freep;
      ghost var j := PlaceExists(base, ring, bp, |ring| - 1);
      HopAt(mem, ring, i);
      StopsIff(base, ring, i, bp);
      while !Between(p, mem[p].next, bp)
        invariant i < |ring| && p == ring[i] && p in mem && mem[p].next == ring[Succ(ring, i)]
        invariant Place(ring, i, bp) <==> Between(p, mem[p].next, bp) || AtWrap(p, mem[p].next, bp)
        decreases if i <= j then j - i else j - i + |ring|
      {
        if AtWrap(p, mem[p].next, bp) {
          break;
        }
        p, i := mem[p].next, Succ(ring, i);
        HopAt(mem, ring, i);
        StopsIff(base, ring, i, bp);
      }
    }

    /** Join to both. */
    method JoinBoth(p: int, bp: int, ghost i: nat, ghost live: map<int, nat>)
      requires Sound(mem, base, sz, ring) && live == Live(sz, ring) && bp in sz && bp !in ring
      requires 0 < i && i + 1 < |ring| && p == ring[i] && Place(ring, i, bp)
      requires ring[i + 1] == bp + sz[bp] && p + sz[p] == bp
      modifies this`mem, this`sz, this`ring
      ensures Given(live, bp, p)
    {
      hide Tiles, Apart, Order, Linked, Place;
      ghost var m, q := mem, ring[i + 1];
      HeaderSize(i);
      HeaderSize(i + 1);
      HopAt(mem, ring, i);
      HopAt(mem, ring, i + 1);
      mem := mem[p := mem[p].(size := mem[p].size + (mem[bp].size + mem[mem[p].next].size))];
      var above := mem[mem[p].next].next;
      mem := mem[above := mem[above].(prev := p)];
      mem := mem[p := mem[p].(next := above)];
      ghost var u := (sz - {bp, q})[p := sz[p] + sz[bp] + sz[q]];
      LinkBothOk(m, base, ring, i + 1, mem[p].size, mem);
      GiveBoth(base, sz, ring, i, bp, u);
      sz, ring := u, Removed(ring, i + 1);
      assert ring[i] == p;
    }

    /** Join to the upper neighbour. */
    method JoinUpper(p: int, bp: int, ghost i: nat, ghost live: map<int, nat>)
      requires Sound(mem, base, sz, ring) && live == Live(sz, ring) && bp in sz && bp !in ring
      requires i + 1 < |ring| && p == ring[i] && Place(ring, i, bp)
      requires ring[i + 1] == bp + sz[bp] && (i > 0 ==> p + sz[p] != bp)
      modifies this`mem, this`sz, this`ring
      ensures Given(live, bp, p)
    {
      hide Tiles, Apart, Order, Linked, Place, Live;
      ghost var m, q := mem, ring[i + 1];
      HeaderSize(i);
      HeaderSize(i + 1);
      HopAt(mem, ring, i);
      HopAt(mem, ring, i + 1);
      var above := mem[p].next;
      mem := mem[bp := Header(mem[above].next, mem[above].prev, mem[bp].size + mem[above].size)];
      var last := mem[above].next;
      mem := mem[last := mem[last].(prev := bp)];
      mem := mem[p := mem[p].(next := bp)];
      ghost var u := (sz - {q})[bp := sz[bp] + sz[q]];
      LinkUpperOk(m, base, ring, i, bp, mem[bp].size, mem);
      GiveUpper(base, sz, ring, i, bp, u);
      sz, ring := u, ring[i + 1 := bp];
      assert ring[i] == p;
    }

    /** Join to the lower neighbour. */
    method JoinLower(p: int, bp: int, ghost i: nat, ghost live: map<int, nat>)
      requires Sound(mem, base, sz, ring) && live == Live(sz, ring) && bp in sz && bp !in ring
      requires 0 < i < |ring| && p == ring[i] && Place(ring, i, bp)
      requires bp + sz[bp] !in ring && p + sz[p] == bp
      modifies this`mem, this`sz
      ensures Given(live, bp, p)
    {
      hide Tiles, Apart, Order, Place;
      ghost var m := mem;
      HeaderSize(i);
      mem := mem[p := mem[p].(size := mem[p].size + mem[bp].size)];
      ghost var u := (sz - {bp})[p := sz[p] + sz[bp]];
      GiveLower(base, sz, ring, i, bp, u);
      sz := u;
      forall k | 0 <= k < |ring| ensures Hop(mem, ring, k) {
        assert Hop(m, ring, k);
      }
    }

    /** No free neighbour. */
    method LinkAlone(p: int, bp: int, ghost i: nat, ghost live: map<int, nat>)
      requires Sound(mem, base, sz, ring) && live == Live(sz, ring) && bp in sz && bp !in ring
      requires i < |ring| && p == ring[i] && Place(ring, i, bp)
      requires bp + sz[bp] !in ring && (i > 0 ==> p + sz[p] != bp)
      modifies this`mem, this`ring
      ensures Given(live, bp, p)
    {
      hide Tiles, Apart, Order, Linked, Place, Sized, Live, Inserted;
      ghost var m := mem;
      HopAt(mem, ring, i);
      SizeAt(mem, base, sz, bp);
      mem := mem[bp := mem[bp].(next := mem[p].next)];
      mem := mem[bp := mem[bp].(prev := p)];
      mem := mem[mem[p].next := mem[mem[p].next].(prev := bp)];
      mem := mem[p := mem[p].(next := bp)];
      LinkAloneOk(m, base, ring, i, bp, mem);
      GiveAlone(base, sz, ring, i, bp);
      SameSizes(m, mem, base, sz);
      ring := Inserted(ring, i, bp);
    }

    /** test_free of an allocated block: it is allocated no longer, and the blocks left are
        coalesced again. */
    method Free(ap: int, ghost live: map<int, nat>) returns (ghost i: nat)
      requires Valid() && ready && live == Allocated() && ap - 1 in live
      modifies this
      ensures Valid() && ready && Allocated() == live - {ap - 1}
      ensures Place(old(ring), i, ap - 1) && freep == old(ring)[i]
    {
      hide Tiles, Apart, Order, Linked;
      var bp := ap - 1;
      var p;
      p, i := FindPlace(bp);
      HopAt(mem, ring, i);
      HeaderSize(i);
      UpperIff(base, sz, ring, i, bp);
      var n := mem[p].next;
      if bp + mem[bp].size == n && p + mem[p].size == bp {
        JoinBoth(p, bp, i, live);
      } else if bp + mem[bp].size == n {
        JoinUpper(p, bp, i, live);
      } else if p + mem[p].size == bp {
        JoinLower(p, bp, i, live);
      } else {
        LinkAlone(p, bp, i, live);
      }
      freep := p;
      var ok := CheckList();
    }

    /** Headers are determined by the blocks and the list. */
    static lemma SameHeaders(base: int, sz: map<int, nat>, ring: seq<int>, m: map<int, Header>, m': map<int, Header>,
                             k: nat)
      requires Sound(m, base, sz, ring) && Sound(m', base, sz, ring) && k < |ring|
      ensures ring[k] in m && ring[k] in m' && m[ring[k]] == m'[ring[k]]
    {
      hide Tiles;
      HopAt(m, ring, k);
      HopAt(m', ring, k);
    }

    /** Releasing what was just allocated restores the blocks, the free list and every
        header on it, whether the block fitted exactly or was cut off a bigger one. */
    method AllocThenFree(nbytes: nat) returns (ok: bool)
      requires Valid() && ready && nbytes < 256
      modifies this
      ensures Valid() && ready && sz == old(sz) && ring == old(ring)
      ensures forall k :: 0 <= k < |ring| ==> ring[k] in mem && ring[k] in old(mem) && mem[ring[k]] == old(mem)[ring[k]]
    {
      hide Tiles, Order, Apart, Linked;
      ghost var m, live := mem, Allocated();
      var ap;
      ghost var f, k;
      ok, ap, f, k := Alloc(nbytes);
      if ok {
        ghost var i := Free(ap, Allocated());
        assert live[ap - 1 := Units(nbytes)] - {ap - 1} == live;
      }
      Canonical(base, sz, ring, old(sz), old(ring));
      forall k | 0 <= k < |ring| ensures ring[k] in mem && ring[k] in m && mem[ring[k]] == m[ring[k]] {
        SameHeaders(base, sz, ring, mem, m, k);
      }
    }
  }
}
