/**
 How attach_region cuts a region into blocks: the largest aligned block that fits, again
 and again.
 */
module BuddyGreedy {
  import opened Arith
  import opened BuddyTree
  import opened BuddyOrder

  /** A block of class i may start at s in a region that ends at e. */
  predicate FitsAt(s: nat, e: nat, i: nat) {
    Aligned(s, i) && s + Pow2(i) <= e
  }

  /** The first class the downward search accepts. */
  function Biggest(s: nat, e: nat, i: nat): (k: nat)
    requires s < e
    ensures k <= i && FitsAt(s, e, k)
    ensures forall j :: k < j <= i ==> !FitsAt(s, e, j)
  {
    if FitsAt(s, e, i) then i else FitsSmallest(s, e); Biggest(s, e, i - 1)
  }

  lemma FitsSmallest(s: nat, e: nat)
    requires s < e
    ensures FitsAt(s, e, 0)
  {
    assert Pow2(0) == 1;
  }

  function Blocks(s: nat, e: nat, ty: State): (bs: seq<Block>)
    decreases e - s
  {
    if s < e then
      var k := Biggest(s, e, MAX_CLASS);
      [Block(k, s, ty)] + Blocks(s + Pow2(k), e, ty)
    else []
  }

  /** The blocks lie end to end from s to e, each one aligned to its own size. */
  ghost predicate Tiles(bs: seq<Block>, s: nat, e: nat, ty: State) {
    if bs == [] then s == e
    else
      && bs[0].addr == s && bs[0].ty == ty && bs[0].cls <= MAX_CLASS && Aligned(s, bs[0].cls)
      && s + Pow2(bs[0].cls) <= e && Tiles(bs[1..], s + Pow2(bs[0].cls), e, ty)
  }

  lemma {:induction false} BlocksTile(s: nat, e: nat, ty: State)
    requires s <= e
    ensures Tiles(Blocks(s, e, ty), s, e, ty)
    decreases e - s
  {
    if s < e {
      BlocksTile(s + Pow2(Biggest(s, e, MAX_CLASS)), e, ty);
    }
  }

  lemma {:induction false} TileInside(bs: seq<Block>, s: nat, e: nat, ty: State, k: nat)
    requires Tiles(bs, s, e, ty) && k < |bs|
    ensures s <= bs[k].addr && bs[k].addr + Pow2(bs[k].cls) <= e
    ensures bs[k].ty == ty && bs[k].cls <= MAX_CLASS && Aligned(bs[k].addr, bs[k].cls)
    decreases |bs|
  {
    hide Aligned;
    if k > 0 {
      TileInside(bs[1..], s + Pow2(bs[0].cls), e, ty, k - 1);
    }
  }

  /** A page is in the region if and only if a block covers it ... */
  lemma {:induction false} TileCovers(bs: seq<Block>, s: nat, e: nat, ty: State, x: nat)
    requires Tiles(bs, s, e, ty)
    ensures s <= x < e <==> exists k :: 0 <= k < |bs| && Covers(bs[k], x)
    decreases |bs|
  {
    hide Aligned;
    if bs != [] {
      var m := s + Pow2(bs[0].cls);
      TileCovers(bs[1..], m, e, ty, x);
      if s <= x < m {
        assert Covers(bs[0], x);
      } else if k :| 0 <= k < |bs[1..]| && Covers(bs[1..][k], x) {
        assert Covers(bs[k + 1], x);
      }
      if k :| 0 <= k < |bs| && Covers(bs[k], x) {
        TileInside(bs, s, e, ty, k);
      }
    }
  }

  /** ... and no two blocks overlap. */
  lemma {:induction false} TileApart(bs: seq<Block>, s: nat, e: nat, ty: State, j: nat, k: nat)
    requires Tiles(bs, s, e, ty) && j < k < |bs|
    ensures Apart(bs[j], bs[k])
    decreases |bs|
  {
    hide Aligned;
    if j > 0 {
      TileApart(bs[1..], s + Pow2(bs[0].cls), e, ty, j - 1, k - 1);
    } else {
      TileInside(bs[1..], s + Pow2(bs[0].cls), e, ty, k - 1);
    }
  }

  // ------------------------------------------------------------ classes

  /** The first m classes rise. */
  predicate RisingTo(bs: seq<Block>, m: nat) {
    forall j, k :: 0 <= j < k < m && k < |bs| ==> bs[j].cls < bs[k].cls
  }

  /** From the m-th on the classes fall. */
  predicate FallingFrom(bs: seq<Block>, m: nat) {
    forall j, k :: m <= j < k < |bs| ==> bs[j].cls > bs[k].cls
  }

  predicate Below(bs: seq<Block>, i: nat) {
    forall k :: 0 <= k < |bs| ==> bs[k].cls < i
  }

  lemma EvenOdd(h: nat, q: int, r: int)
    ensures q == 2 * r ==> h * q == (2 * h) * r
    ensures q == 2 * r + 1 ==> h * q + h == (2 * h) * (r + 1)
    ensures h * q + h == h * (q + 1)
  {
  }

  lemma StepAligned(s: nat, k: nat)
    requires Aligned(s, k)
    ensures Aligned(s + Pow2(k), k)
    ensures !Aligned(s, k + 1) ==> Aligned(s + Pow2(k), k + 1)
  {
    var q := AlignedQuotient(s, k);
    hide Aligned;
    EvenOdd(Pow2(k), q, q / 2);
    AlignedMul(q / 2, k + 1);
    AlignedMul(q / 2 + 1, k + 1);
    AlignedMul(q + 1, k);
  }

  /** What is known where the search stops at class k. */
  lemma Choice(s: nat, e: nat, k: nat)
    requires s < e && k == Biggest(s, e, MAX_CLASS)
    ensures Aligned(s, k) && Aligned(s + Pow2(k), k) && Pow2(k + 1) == 2 * Pow2(k)
    ensures k < MAX_CLASS && Aligned(s, k + 1) ==> e < s + Pow2(k + 1)
    ensures !Aligned(s, k + 1) ==> Aligned(s + Pow2(k), k + 1)
  {
    StepAligned(s, k);
    assert k < MAX_CLASS ==> !FitsAt(s, e, k + 1);
  }

  lemma Shifted(b: Block, cs: seq<Block>)
    ensures ([b] + cs)[1..] == cs
    ensures forall j :: 0 < j < |[b] + cs| ==> ([b] + cs)[j] == cs[j - 1]
  {
  }

  lemma PrependFalls(b: Block, cs: seq<Block>, bs: seq<Block>, i: nat)
    requires FallingFrom(cs, 0) && Below(cs, b.cls) && b.cls < i && bs == [b] + cs
    ensures FallingFrom(bs, 0) && Below(bs, i)
  {
    Shifted(b, cs);
  }

  lemma NoneFall(bs: seq<Block>, i: nat)
    requires bs == []
    ensures FallingFrom(bs, 0) && Below(bs, i)
  {
  }

  lemma EndsHere(s: nat, e: nat, ty: State)
    requires s >= e
    ensures Blocks(s, e, ty) == []
  {
  }

  /** Once less than the alignment of the start is left, the classes only fall. */
  lemma {:induction false} Tail(s: nat, e: nat, ty: State, i: nat)
    requires Aligned(s, i) && e < s + Pow2(i) && i <= MAX_CLASS
    ensures FallingFrom(Blocks(s, e, ty), 0) && Below(Blocks(s, e, ty), i)
    decreases e - s
  {
    hide Aligned, Biggest, Pow2, Blocks, FallingFrom, Below, FitsAt;
    if s < e {
      var k := Biggest(s, e, MAX_CLASS);
      Choice(s, e, k);
      NextBlock(s, e, ty, k);
      if k >= i {
        Pow2Mono(i, k);
      }
      AlignedDown(s, i, k + 1);
      Tail(s + Pow2(k), e, ty, k);
      PrependFalls(Block(k, s, ty), Blocks(s + Pow2(k), e, ty), Blocks(s, e, ty), i);
    } else {
      assert Blocks(s, e, ty) == [] by {
        EndsHere(s, e, ty);
      }
      NoneFall(Blocks(s, e, ty), i);
    }
  }

  /** The classes of the blocks of a region strictly rise and then strictly fall. */
  lemma {:induction false} RiseAndFall(s: nat, e: nat, ty: State) returns (bs: seq<Block>, m: nat)
    requires s <= e <= Pow2(MAX_CLASS)
    ensures bs == Blocks(s, e, ty) && m <= |bs| && RisingTo(bs, m) && FallingFrom(bs, m)
    decreases e - s
  {
    hide Aligned, Biggest, Pow2, Blocks, RisingTo, FallingFrom, Below, FitsAt;
    bs, m := Blocks(s, e, ty), 0;
    if s < e {
      var k := Biggest(s, e, MAX_CLASS);
      Choice(s, e, k);
      NextBlock(s, e, ty, k);
      var b, e' := Block(k, s, ty), s + Pow2(k);
      if k == MAX_CLASS {
        NoBlocks(e, ty);
        PrependTo(b, [], bs);
        m := 1;
      } else if Aligned(s, k + 1) {
        Tail(s, e, ty, k + 1);
        NoRise(bs);
      } else if e < e' + Pow2(k + 1) {
        Tail(e', e, ty, k + 1);
        PrependTo(b, Blocks(e', e, ty), bs);
        m := 1;
      } else {
        var cs, m' := RiseAndFall(e', e, ty);
        NextIsBigger(e', e, ty, k);
        Prepend(b, cs, m', bs);
        m := m' + 1;
      }
    } else {
      NoBlocks(e, ty);
      NoRise(bs);
    }
  }

  lemma NoRise(bs: seq<Block>)
    ensures RisingTo(bs, 0) && (bs == [] ==> FallingFrom(bs, 0))
  {
  }

  lemma PrependTo(b: Block, cs: seq<Block>, bs: seq<Block>)
    requires (cs == [] || FallingFrom(cs, 0)) && bs == [b] + cs
    ensures RisingTo(bs, 1) && FallingFrom(bs, 1)
  {
    Shifted(b, cs);
  }

  lemma Prepend(b: Block, cs: seq<Block>, m: nat, bs: seq<Block>)
    requires RisingTo(cs, m) && FallingFrom(cs, m) && |cs| > 0 && b.cls < cs[0].cls && bs == [b] + cs
    ensures RisingTo(bs, m + 1) && FallingFrom(bs, m + 1)
  {
    Shifted(b, cs);
  }

  lemma NextIsBigger(s: nat, e: nat, ty: State, k: nat)
    requires Aligned(s, k + 1) && s + Pow2(k + 1) <= e && k < MAX_CLASS
    ensures s < e && Blocks(s, e, ty) != [] && Blocks(s, e, ty)[0].cls > k
  {
    assert FitsAt(s, e, k + 1);
  }

  lemma {:induction false} RisingShort(bs: seq<Block>, m: nat)
    requires RisingTo(bs, m) && 0 < m <= |bs|
    ensures m <= bs[m - 1].cls + 1
    decreases m
  {
    if m > 1 {
      RisingShort(bs, m - 1);
    }
  }

  lemma {:induction false} FallingShort(bs: seq<Block>, m: nat)
    requires FallingFrom(bs, m) && m < |bs|
    ensures |bs| - m <= bs[m].cls + 1
    decreases |bs| - m
  {
    if m + 1 < |bs| {
      FallingShort(bs, m + 1);
    }
  }

  /** At most 98 lookups for any region, and no class three times. */
  lemma FewBlocks(s: nat, e: nat, ty: State)
    requires s <= e <= Pow2(MAX_CLASS)
    ensures |Blocks(s, e, ty)| <= 2 * (MAX_CLASS + 1)
    ensures var bs := Blocks(s, e, ty);
      forall i, j, k :: 0 <= i < j < k < |bs| ==> !(bs[i].cls == bs[j].cls == bs[k].cls)
  {
    var bs, m := RiseAndFall(s, e, ty);
    hide Blocks;
    BlocksTile(s, e, ty);
    if m > 0 {
      RisingShort(bs, m);
      TileInside(bs, s, e, ty, m - 1);
    }
    if m < |bs| {
      FallingShort(bs, m);
      TileInside(bs, s, e, ty, m);
    }
  }

  /** Short of the whole address space every block is small enough to have a free list. */
  lemma BlocksPlaced(s: nat, e: nat, ty: State, k: nat)
    requires s <= e <= Pow2(MAX_CLASS) && ty != Partial && e - s < Pow2(MAX_CLASS) && k < |Blocks(s, e, ty)|
    ensures Placed(Blocks(s, e, ty)[k])
  {
    BlocksTile(s, e, ty);
    hide Blocks, Aligned;
    TileInside(Blocks(s, e, ty), s, e, ty, k);
  }

  /** The first of the blocks that are left, and the others. */
  lemma NextBlock(s: nat, e: nat, ty: State, i: nat)
    requires s < e && i == Biggest(s, e, MAX_CLASS)
    ensures s + Pow2(i) <= e && Aligned(s, i) && i <= MAX_CLASS
    ensures Blocks(s, e, ty) == [Block(i, s, ty)] + Blocks(s + Pow2(i), e, ty)
    ensures Blocks(s, e, ty)[1..] == Blocks(s + Pow2(i), e, ty)
  {
  }

  lemma NoBlocks(s: nat, ty: State)
    ensures Blocks(s, s, ty) == []
  {
  }
}
