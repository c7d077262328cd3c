/**
 The blocks of the arena of kern/alloc.c as values: what it means that they tile it and
 that the list of free blocks is in order, and why that list is determined by the
 allocated blocks alone.
 */
module HeapBlocks {

  const HEADER_BYTES: nat := 32
  const SPACE_BYTES: nat := 20480
  /** Units of one header that test_alloc gives out: the size of the first free block. */
  const END: nat := (SPACE_BYTES - HEADER_BYTES) / HEADER_BYTES
  /** Units of the whole array. */
  const ARENA: nat := SPACE_BYTES / HEADER_BYTES

  /** A block ends where another one starts, or at the end. */
  predicate Meets(sz: map<int, nat>, b: int)
    requires b in sz
  {
    0 <= b && 0 < sz[b] && b + sz[b] <= END && (b + sz[b] == END || b + sz[b] in sz)
  }

  predicate Below(sz: map<int, nat>, b: int, c: int)
    requires b in sz
  {
    b + sz[b] <= c
  }

  /** Blocks by first unit, with their sizes in units: they cover [0, END) without overlap
      or gap. */
  ghost predicate Tiles(sz: map<int, nat>) {
    && 0 in sz
    && (forall b {:trigger Meets(sz, b)} :: b in sz ==> Meets(sz, b))
    && (forall b, c {:trigger Below(sz, b, c)} :: b in sz && c in sz && b < c ==> Below(sz, b, c))
  }

  /** The free list: the sentinel and then the free blocks in ascending order. */
  ghost predicate Order(base: int, ring: seq<int>) {
    && |ring| > 0 && ring[0] == base && (base < 0 || base >= ARENA)
    && (forall i :: 0 < i < |ring| ==> 0 <= ring[i] < END)
    && (forall i, j :: 0 < i < j < |ring| ==> ring[i] < ring[j])
  }

  /** Free blocks are blocks, and no two of them touch. */
  ghost predicate Apart(sz: map<int, nat>, ring: seq<int>) {
    && (forall i :: 0 < i < |ring| ==> ring[i] in sz)
    && (forall i :: 0 < i < |ring| ==> ring[i] + sz[ring[i]] !in ring)
  }

  ghost predicate Blocks(base: int, sz: map<int, nat>, ring: seq<int>) {
    Tiles(sz) && Order(base, ring) && Apart(sz, ring)
  }

  /** The allocated blocks. */
  ghost function Live(sz: map<int, nat>, ring: seq<int>): (live: map<int, nat>) {
    map b | b in sz && b !in ring :: sz[b]
  }

  // ------------------------------------------------------------ tiling

  lemma TilesOf(sz: map<int, nat>, b: int, c: int)
    requires Tiles(sz) && b in sz && c in sz && b < c
    ensures b + sz[b] <= c
  {
    assert Below(sz, b, c);
  }

  lemma Join(sz: map<int, nat>, p: int, q: int, u: map<int, nat>)
    requires Tiles(sz) && p in sz && q in sz && p + sz[p] == q
    requires u == (sz - {q})[p := sz[p] + sz[q]]
    ensures Tiles(u)
  {
    assert Meets(sz, p) && Meets(sz, q);
    forall b | b in u ensures Meets(u, b) {
      assert Meets(sz, b);
      if b < p {
        TilesOf(sz, b, p);
      } else if p < b {
        TilesOf(sz, p, b);
      }
    }
    forall b, c | b in u && c in u && b < c ensures Below(u, b, c) {
      TilesOf(sz, b, c);
      if b == p {
        TilesOf(sz, q, c);
      }
    }
  }

  lemma Split(sz: map<int, nat>, p: int, n: nat, u: map<int, nat>)
    requires Tiles(sz) && p in sz && 0 < n < sz[p]
    requires u == sz[p := sz[p] - n][p + sz[p] - n := n]
    ensures Tiles(u) && p + sz[p] - n !in sz
  {
    var t := p + sz[p] - n;
    assert Meets(sz, p);
    if t in sz {
      TilesOf(sz, p, t);
    }
    forall b | b in u ensures Meets(u, b) {
      assert b == t || Meets(sz, b);
    }
    forall b, c | b in u && c in u && b < c ensures Below(u, b, c) {
      if b != t && c != t {
        TilesOf(sz, b, c);
      } else if b == t {
        TilesOf(sz, p, c);
      } else if b != p {
        SplitBelow(sz, b, p, t);
      }
    }
  }

  lemma SplitBelow(sz: map<int, nat>, b: int, p: int, t: int)
    requires Tiles(sz) && b in sz && p in sz && b < t < p + sz[p] && p < t && b != p
    ensures b + sz[b] <= p
  {
    if p < b {
      TilesOf(sz, p, b);
    } else {
      TilesOf(sz, b, p);
    }
  }

  lemma Touching(sz: map<int, nat>, b: int, c: int, u: int)
    requires Tiles(sz) && b in sz && c in sz && b <= u < b + sz[b] && c <= u < c + sz[c]
    ensures b == c
  {
    if b < c {
      TilesOf(sz, b, c);
    } else if c < b {
      TilesOf(sz, c, b);
    }
  }

  /** Every unit of the arena lies in exactly one block. */
  lemma {:induction false} BlockOf(sz: map<int, nat>, u: int, from: int) returns (b: int)
    requires Tiles(sz) && from in sz && from <= u < END
    ensures b in sz && b <= u < b + sz[b]
    ensures forall c :: c in sz && c <= u < c + sz[c] ==> c == b
    decreases END - from
  {
    assert Meets(sz, from);
    if u < from + sz[from] {
      b := from;
      forall c | c in sz && c <= u < c + sz[c] ensures c == b {
        Touching(sz, b, c, u);
      }
    } else {
      b := BlockOf(sz, u, from + sz[from]);
    }
  }

  // ------------------------------------------------------------ the free list is canonical

  lemma OnRing(base: int, ring: seq<int>, b: int)
    requires Order(base, ring) && b in ring && b != base
    ensures exists i :: 0 < i < |ring| && ring[i] == b
  {
  }

  /** Two arenas with the same allocated blocks have the same blocks from any common
      boundary on. */
  lemma {:induction false} SameFrom(base: int, s: map<int, nat>, r: seq<int>, s': map<int, nat>, r': seq<int>,
                                    from: int)
    requires Blocks(base, s, r) && Blocks(base, s', r') && Live(s, r) == Live(s', r')
    requires from in s && from in s'
    ensures forall b :: b >= from ==> (b in s <==> b in s') && (b in s ==> s[b] == s'[b])
    ensures forall b :: b >= from ==> (b in r && b != base <==> b in r' && b != base)
    decreases END - from
  {
    assert Meets(s, from) && Meets(s', from);
    if from !in r {
      assert from in Live(s, r);
      assert from in Live(s', r');
      assert s[from] == Live(s, r)[from];
      assert s'[from] == Live(s', r')[from];
    } else {
      assert from !in Live(s, r);
      assert from in r';
      SameEnd(base, s, r, s', r', from);
    }
    var e := from + s[from];
    if e != END {
      SameFrom(base, s, r, s', r', e);
    }
    forall b | b >= from
      ensures (b in s <==> b in s') && (b in s ==> s[b] == s'[b])
      ensures b in r && b != base <==> b in r' && b != base
    {
      if b < e {
        if b in s && b != from {
          TilesOf(s, from, b);
        }
        if b in s' && b != from {
          TilesOf(s', from, b);
        }
        if b in r && b != base {
          OnRing(base, r, b);
        }
        if b in r' && b != base {
          OnRing(base, r', b);
        }
      } else if e == END {
        NothingBeyond(base, s, r, b);
        NothingBeyond(base, s', r', b);
      }
    }
  }

  lemma NothingBeyond(base: int, s: map<int, nat>, r: seq<int>, b: int)
    requires Blocks(base, s, r) && b >= END
    ensures b !in s && (b in r ==> b == base)
  {
    assert b in s ==> Meets(s, b);
  }

  /** A free block ends where the run of unallocated units ends. */
  lemma SameEnd(base: int, s: map<int, nat>, r: seq<int>, s': map<int, nat>, r': seq<int>, b: int)
    requires Blocks(base, s, r) && Blocks(base, s', r') && Live(s, r) == Live(s', r')
    requires b in s && b in s' && b in r && b in r'
    ensures s[b] == s'[b]
  {
    assert Meets(s, b);
    assert Meets(s', b);
    OnRing(base, r, b);
    OnRing(base, r', b);
    if s[b] < s'[b] {
      EndIsLive(s, r, s', r', b);
    } else if s'[b] < s[b] {
      EndIsLive(s', r', s, r, b);
    }
  }

  lemma EndIsLive(s: map<int, nat>, r: seq<int>, s': map<int, nat>, r': seq<int>, b: int)
    requires Tiles(s) && Tiles(s') && Live(s, r) == Live(s', r') && b in s && b in s'
    requires b + s[b] !in r && b + s[b] < END
    ensures s'[b] <= s[b]
  {
    var e := b + s[b];
    assert Meets(s, b);
    assert e in Live(s, r);
    assert e in Live(s', r');
    TilesOf(s', b, e);
  }

  lemma {:induction false} SameAscending(base: int, r: seq<int>, r': seq<int>, n: nat)
    requires Order(base, r) && Order(base, r') && (forall b :: b in r <==> b in r')
    requires 0 < n <= |r| && n <= |r'| && r[..n] == r'[..n]
    ensures r == r'
    decreases |r| - n
  {
    if n < |r| && n < |r'| {
      NextSmallest(base, r, r', n);
      NextSmallest(base, r', r, n);
      SameAscending(base, r, r', n + 1);
    } else if n < |r| {
      NextSmallest(base, r, r', n);
    } else if n < |r'| {
      NextSmallest(base, r', r, n);
    }
  }

  lemma NextSmallest(base: int, r: seq<int>, r': seq<int>, n: nat)
    requires Order(base, r) && Order(base, r') && (forall b :: b in r <==> b in r')
    requires 0 < n < |r| && n <= |r'| && r[..n] == r'[..n]
    ensures n < |r'| && r'[n] <= r[n]
  {
    var b := r[n];
    assert b in r';
    var j :| 0 <= j < |r'| && r'[j] == b;
    assert forall k :: 0 <= k < n ==> r'[k] == r'[..n][k] == r[k];
  }

  /** The free list is determined by the allocated blocks: whatever calls led there, the
      same allocated blocks mean the same free blocks in the same order. */
  lemma Canonical(base: int, s: map<int, nat>, r: seq<int>, s': map<int, nat>, r': seq<int>)
    requires Blocks(base, s, r) && Blocks(base, s', r') && Live(s, r) == Live(s', r')
    ensures s == s' && r == r'
  {
    SameFrom(base, s, r, s', r', 0);
    forall b ensures b in r <==> b in r' {
      assert base in r && base in r';
    }
    forall b ensures b in s <==> b in s' {
      assert (b in s ==> Meets(s, b)) && (b in s' ==> Meets(s', b));
    }
    assert s.Keys == s'.Keys;
    forall b | b in s ensures s[b] == s'[b] {
      assert Meets(s, b);
    }
    assert s == s';
    assert r[..1] == r'[..1];
    SameAscending(base, r, r', 1);
  }

  // ------------------------------------------------------------ room

  ghost predicate Unused(live: map<int, nat>, a: int, n: int) {
    0 <= a && a + n <= END && forall b :: b in live ==> b + live[b] <= a || a + n <= b
  }

  lemma LiveAway(sz: map<int, nat>, ring: seq<int>, a: int, n: int, b: int)
    requires Unused(Live(sz, ring), a, n) && b in sz && b !in ring
    ensures b + sz[b] <= a || a + n <= b
  {
    assert b in Live(sz, ring) && Live(sz, ring)[b] == sz[b];
  }

  /** Room is never lost to fragmentation between free blocks: a run of unused units lies
      within one free block. */
  lemma RunInBlock(base: int, sz: map<int, nat>, ring: seq<int>, a: int, n: nat) returns (b: int)
    requires Blocks(base, sz, ring) && n > 0 && Unused(Live(sz, ring), a, n)
    ensures b in sz && b in ring && b != base && b <= a && a + n <= b + sz[b]
  {
    b := BlockOf(sz, a, 0);
    assert Meets(sz, b);
    if b !in ring {
      LiveAway(sz, ring, a, n, b);
    }
    OnRing(base, ring, b);
    var e := b + sz[b];
    if e < a + n {
      LiveAway(sz, ring, a, n, e);
    }
  }

  lemma FreeUnused(base: int, sz: map<int, nat>, ring: seq<int>, i: int, n: nat)
    requires Blocks(base, sz, ring) && 0 < i < |ring| && n <= sz[ring[i]]
    ensures Unused(Live(sz, ring), ring[i], n)
  {
    var live, a := Live(sz, ring), ring[i];
    assert Meets(sz, a);
    forall b | b in live ensures b + live[b] <= a || a + n <= b {
      if b < a {
        TilesOf(sz, b, a);
      } else if a < b {
        TilesOf(sz, a, b);
      }
    }
  }

  /** A block of n units can be allocated somewhere exactly when some free block has n
      units. */
  lemma RoomIff(base: int, sz: map<int, nat>, ring: seq<int>, n: nat)
    requires Blocks(base, sz, ring) && n > 0
    ensures (exists a :: Unused(Live(sz, ring), a, n)) <==> (exists i :: 0 < i < |ring| && sz[ring[i]] >= n)
  {
    if a :| Unused(Live(sz, ring), a, n) {
      var b := RunInBlock(base, sz, ring, a, n);
      OnRing(base, ring, b);
      var i :| 0 < i < |ring| && ring[i] == b;
      assert sz[ring[i]] >= n;
    }
    if i :| 0 < i < |ring| && sz[ring[i]] >= n {
      assert Meets(sz, ring[i]);
      assert Meets(sz, ring[i]);
      FreeUnused(base, sz, ring, i, n);
    }
  }
}
