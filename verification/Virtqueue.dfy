/**
 The split virtqueue of kern/virtio-gpu.c (section 2.7 of VIRTIO 1.2): descriptors handed
 out from a free list threaded through the descriptor table, chains published in the
 available ring, completions read from the used ring, all indices running modulo 2^16.
 */
module Virtqueue {
  import opened Arith

  const SIZE: nat := 64
  const MOD16: nat := 0x1_0000
  const MOD32: nat := 0x1_0000_0000
  const F_NEXT: nat := 1
  const F_WRITE: nat := 2

  datatype Desc = Desc(addr: nat, len: nat, flags: nat, next: nat)

  /** Who has a descriptor: the free list, the driver, or the device as part of the chain
      that starts at `head`. */
  datatype Owner = Free | Loose | InFlight(head: nat)

  predicate HasNext(d: Desc) {
    d.flags % 2 == 1
  }

  // The flags by their bits, as section 2.7.5 of VIRTIO 1.2 gives them: bit 0, the chain goes
  // on; bit 1, the device may write the buffer; bit 2, the buffer is a table of descriptors.

  predicate Continues(flags: nat) {
    flags % 2 == 1
  }

  predicate DeviceWrites(flags: nat) {
    flags / 2 % 2 == 1
  }

  predicate IsTable(flags: nat) {
    flags / 4 % 2 == 1
  }

  lemma FlagBits()
    ensures Continues(F_NEXT) && !DeviceWrites(F_NEXT) && !IsTable(F_NEXT)
    ensures !Continues(F_WRITE) && DeviceWrites(F_WRITE) && !IsTable(F_WRITE)
    ensures !Continues(0) && !DeviceWrites(0) && !IsTable(0)
  {
  }

  /** A buffer as the device is to use it. */
  datatype Buffer = Buffer(addr: nat, len: nat, writable: bool)

  /** What the device finds when it follows the chain from descriptor d. */
  predicate Offers(ds: seq<Desc>, d: nat, bufs: seq<Buffer>)
    decreases |bufs|
  {
    && bufs != [] && d < |ds| && ds[d].addr == bufs[0].addr && ds[d].len == bufs[0].len
    && (DeviceWrites(ds[d].flags) <==> bufs[0].writable) && !IsTable(ds[d].flags)
    && (if |bufs| == 1 then !Continues(ds[d].flags)
        else Continues(ds[d].flags) && Offers(ds, ds[d].next, bufs[1..]))
  }

  /** A request the device only reads, and room for its response. */
  function Exchange(toSend: nat, sendSize: nat, toRecieve: nat, recieveSize: nat): (bufs: seq<Buffer>) {
    [Buffer(toSend, sendSize, false), Buffer(toRecieve, recieveSize, true)]
  }

  lemma ExchangeOffered(ds: seq<Desc>, toSend: nat, sendSize: nat, toRecieve: nat, recieveSize: nat)
    requires |ds| == SIZE && ds[0].addr == toSend && ds[0].len == sendSize && ds[0].flags == 1 && ds[0].next == 1
    requires ds[1].addr == toRecieve && ds[1].len == recieveSize && ds[1].flags == 2
    ensures Offers(ds, 0, Exchange(toSend, sendSize, toRecieve, recieveSize))
  {
    assert Exchange(toSend, sendSize, toRecieve, recieveSize)[1..] == [Buffer(toRecieve, recieveSize, true)];
  }

  predicate Distinct(s: seq<nat>) {
    forall i, j :: 0 <= i < j < |s| ==> s[i] != s[j]
  }

  predicate Indices(s: seq<nat>) {
    forall i :: 0 <= i < |s| ==> s[i] < SIZE
  }

  /** The next links run through s. */
  predicate Threaded(ds: seq<Desc>, s: seq<nat>)
    requires |ds| == SIZE && Indices(s)
  {
    forall i :: 0 <= i < |s| - 1 ==> ds[s[i]].next == s[i + 1]
  }

  /** A chain as the device reads it: NEXT is set on all but the last. */
  predicate IsChain(ds: seq<Desc>, c: seq<nat>)
    requires |ds| == SIZE
  {
    && |c| > 0 && Indices(c) && Distinct(c) && Threaded(ds, c)
    && (forall i :: 0 <= i < |c| ==> (HasNext(ds[c[i]]) <==> i < |c| - 1))
  }

  ghost predicate ChainsOk(ds: seq<Desc>, chains: map<nat, seq<nat>>)
    requires |ds| == SIZE
  {
    forall h :: h in chains ==> IsChain(ds, chains[h]) && chains[h][0] == h
  }

  ghost predicate FreeOk(ds: seq<Desc>, first: nat, free: seq<nat>)
    requires |ds| == SIZE
  {
    Indices(free) && Distinct(free) && Threaded(ds, free) && (free != [] ==> first == free[0])
  }

  ghost predicate Owned(own: seq<Owner>, c: seq<nat>, h: nat) {
    forall d: nat :: d in c ==> d < |own| && own[d] == InFlight(h)
  }

  /** Every descriptor has one owner, and the lists agree. */
  ghost predicate Parted(own: seq<Owner>, free: seq<nat>, chains: map<nat, seq<nat>>) {
    && |own| == SIZE
    && (forall d: nat :: d in free ==> d < SIZE && own[d] == Free)
    && (forall d :: 0 <= d < SIZE && own[d] == Free ==> d in free)
    && (forall h :: h in chains ==> Owned(own, chains[h], h))
    && (forall d :: 0 <= d < SIZE && own[d].InFlight? ==> own[d].head in chains && d in chains[own[d].head])
  }

  lemma OneOwner(own: seq<Owner>, free: seq<nat>, chains: map<nat, seq<nat>>, d: nat)
    requires Parted(own, free, chains) && d < SIZE
    ensures d in free <==> own[d] == Free
    ensures !own[d].InFlight? ==> forall h :: h in chains ==> d !in chains[h]
    ensures own[d].InFlight? ==> own[d].head in chains && d in chains[own[d].head]
    ensures forall h :: h in chains && d in chains[h] ==> own[d] == InFlight(h)
  {
  }

  /** n links from p. */
  function Follow(ds: seq<Desc>, p: nat, n: nat): (s: seq<nat>)
    decreases n
  {
    if n == 0 then [] else [p] + if p < |ds| then Follow(ds, ds[p].next, n - 1) else []
  }

  lemma {:induction false} FollowFree(ds: seq<Desc>, first: nat, free: seq<nat>)
    requires |ds| == SIZE && FreeOk(ds, first, free)
    ensures Follow(ds, first, |free|) == free
    decreases |free|
  {
    if free != [] {
      var rest := free[1..];
      assert rest != [] ==> ds[free[0]].next == rest[0];
      FollowFree(ds, ds[first].next, rest);
      assert free == [free[0]] + rest;
    }
  }

  /** What recycle_used walks from s[0] to the end. */
  predicate Trail(ds: seq<Desc>, s: seq<nat>) {
    && |s| > 0 && (forall i :: 0 <= i < |s| ==> s[i] < |ds|)
    && (forall i :: 0 <= i < |s| ==> (HasNext(ds[s[i]]) <==> i < |s| - 1))
    && (forall i :: 0 <= i < |s| - 1 ==> ds[s[i]].next == s[i + 1])
  }

  lemma {:induction false} TrailUnique(ds: seq<Desc>, s: seq<nat>, t: seq<nat>)
    requires Trail(ds, s) && Trail(ds, t) && s[0] == t[0]
    ensures s == t
    decreases |s|
  {
    if |s| > 1 {
      TrailUnique(ds, s[1..], t[1..]);
      assert s == [s[0]] + s[1..] && t == [t[0]] + t[1..];
    }
  }

  /** A walk that ends passes each descriptor once. */
  lemma TrailShort(ds: seq<Desc>, s: seq<nat>)
    requires Trail(ds, s)
    ensures |s| <= |ds|
  {
    forall i, j | 0 <= i < j < |s| ensures s[i] != s[j] {
      if s[i] == s[j] {
        TrailUnique(ds, s[i..], s[j..]);
      }
    }
    Pigeons(s, |ds|);
  }

  /** The table with the head and the length of its free list. */
  datatype Table = Table(ds: seq<Desc>, first: nat, count: nat)

  /** One turn of the loop of recycle_used: what hangs on descriptor id, whoever has it, is
      put in front of the free list and counted. */
  ghost predicate Spliced(r: Table, id: nat, q: Table) {
    exists s :: Trail(r.ds, s) && s[0] == id && q == SplicedAt(r, s)
  }

  lemma SpliceTrail(r: Table, id: nat, q: Table) returns (s: seq<nat>)
    requires Spliced(r, id, q)
    ensures Trail(r.ds, s) && |s| > 0 && s[0] == id && q == SplicedAt(r, s)
  {
    s :| Trail(r.ds, s) && s[0] == id && q == SplicedAt(r, s);
  }

  function SplicedAt(r: Table, s: seq<nat>): (q: Table)
    requires Trail(r.ds, s)
  {
    var end := s[|s| - 1];
    Table(r.ds[end := r.ds[end].(next := r.first)], s[0], r.count + |s|)
  }

  /** Turns one after the other, entry by entry of the used ring. */
  ghost predicate Turns(ring: seq<nat>, tail: nat, rs: seq<Table>) {
    && |ring| == SIZE && |rs| > 0
    && forall k :: 0 <= k < |rs| - 1 ==> Spliced(rs[k], ring[Slot(tail, k)] % MOD16, rs[k + 1])
  }

  lemma {:induction false} TurnsCount(ring: seq<nat>, tail: nat, rs: seq<Table>, n: nat)
    requires Turns(ring, tail, rs) && n < |rs| && |rs[0].ds| == SIZE
    ensures |rs[n].ds| == SIZE && rs[0].count + n <= rs[n].count <= rs[0].count + SIZE * n
    decreases n
  {
    if n > 0 {
      TurnsCount(ring, tail, rs, n - 1);
      var r, id := rs[n - 1], ring[Slot(tail, n - 1)] % MOD16;
      assert Spliced(r, id, rs[n - 1 + 1]);
      var s :| Trail(r.ds, s) && s[0] == id && rs[n] == SplicedAt(r, s);
      TrailShort(r.ds, s);
    }
  }

  /** Called with nothing to recycle, recycle_used, if its walks all end, leaves a count of
      free descriptors that is tens of thousands too high, and has not wrapped around. */
  lemma EmptyBatch(ring: seq<nat>, tail: nat, rs: seq<Table>)
    requires Turns(ring, tail, rs) && Stops(tail, Low16(tail), |rs| - 1)
    requires |rs[0].ds| == SIZE && rs[0].count <= SIZE
    ensures |rs| - 1 == 65536 && rs[0].count + 65536 <= rs[65536].count < 0x1_0000_0000
  {
    StopsAfter(tail, 0, |rs| - 1);
    TurnsCount(ring, tail, rs, MOD16);
  }

  /** The tables of an empty batch on the queue setup_queue leaves, with a used ring of
      zeros: descriptor 0 points to itself from the first turn on, and is counted again in
      every turn. */
  function ZeroTables(ds: seq<Desc>): (rs: seq<Table>)
    requires |ds| == SIZE
  {
    seq(MOD16 + 1, k => if k <= 0 then Table(ds, 0, SIZE) else Table(ds[0 := ds[0].(next := 0)], 0, SIZE + k))
  }

  /** So all walks can end. */
  lemma EmptyBatchEnds(ds: seq<Desc>, ring: seq<nat>)
    requires |ds| == SIZE && !HasNext(ds[0]) && |ring| == SIZE && forall i :: 0 <= i < SIZE ==> ring[i] == 0
    ensures var rs := ZeroTables(ds);
      Turns(ring, 0, rs) && Stops(0, Low16(0), |rs| - 1) && rs[0] == Table(ds, 0, SIZE) &&
        rs[MOD16].count == SIZE + MOD16
  {
    hide Low16;
    var rs := ZeroTables(ds);
    StopsAfter(0, 0, MOD16);
    forall k | 0 <= k < |rs| - 1 ensures Spliced(rs[k], ring[Slot(0, k)] % MOD16, rs[k + 1]) {
      var s := [0];
      assert Trail(rs[k].ds, s);
      assert rs[k + 1].ds == rs[k].ds[0 := rs[k].ds[0].(next := 0)];
      assert rs[k + 1] == SplicedAt(rs[k], s);
    }
  }

  /** A chain released onto the free list. */
  lemma Prepend(ds: seq<Desc>, first: nat, free: seq<nat>, c: seq<nat>, es: seq<Desc>)
    requires |ds| == SIZE && FreeOk(ds, first, free) && IsChain(ds, c)
    requires forall i, j :: 0 <= i < |c| && 0 <= j < |free| ==> c[i] != free[j]
    requires es == ds[c[|c| - 1] := ds[c[|c| - 1]].(next := first)]
    ensures FreeOk(es, c[0], c + free)
  {
    var s := c + free;
    forall i | 0 <= i < |s| - 1 ensures es[s[i]].next == s[i + 1] {
      if i < |c| - 1 {
        assert c[i] != c[|c| - 1];
      } else if i >= |c| {
        assert ds[free[i - |c|]].next == free[i - |c| + 1];
      }
    }
  }

  /** The chains of the completed heads, in the order in which they end up on the free
      list: the last one completed comes first. */
  function Returned(chains: map<nat, seq<nat>>, done: seq<nat>): (s: seq<nat>)
  {
    if done == [] then []
    else Returned(chains, done[1..]) + if done[0] in chains then chains[done[0]] else []
  }

  lemma {:induction false} ReturnedLast(chains: map<nat, seq<nat>>, done: seq<nat>, h: nat)
    ensures Returned(chains, done + [h]) == (if h in chains then chains[h] else []) + Returned(chains, done)
    decreases |done|
  {
    if done == [] {
      assert (done + [h])[1..] == [];
    } else {
      assert (done + [h])[1..] == done[1..] + [h];
      ReturnedLast(chains, done[1..], h);
    }
  }

  lemma NoneReturned(chains: map<nat, seq<nat>>, first: seq<nat>)
    ensures first == Returned(chains, []) + first && chains == chains - Members([])
  {
  }

  // ------------------------------------------------------------ available ring

  /** Where the run of chained descriptors that reaches n starts. */
  function RunStart(ds: seq<Desc>, n: nat): (s: nat)
    requires n < |ds|
    ensures s <= n
  {
    if n == 0 || !HasNext(ds[n - 1]) then n else RunStart(ds, n - 1)
  }

  /** The heads queue_avail publishes for the first n descriptors: it takes neighbours in
      the table for neighbours in a chain. */
  function Heads(ds: seq<Desc>, n: nat): (s: seq<nat>)
    requires n <= |ds|
    ensures |s| <= n && forall i :: 0 <= i < |s| ==> s[i] < n
  {
    if n == 0 then []
    else Heads(ds, n - 1) + if HasNext(ds[n - 1]) then [] else [RunStart(ds, n - 1)]
  }

  /** The run that starts at h ends at e. */
  predicate RunEnds(ds: seq<Desc>, h: nat, e: nat) {
    h <= e < |ds| && !HasNext(ds[e]) && forall k :: h <= k < e ==> HasNext(ds[k])
  }

  /** h starts a run that ends before n. */
  ghost predicate IsHead(ds: seq<Desc>, n: nat, h: nat)
    requires n <= |ds|
  {
    h < n && (h == 0 || !HasNext(ds[h - 1])) && exists e: nat :: e < n && RunEnds(ds, h, e)
  }

  lemma {:induction false} RunStartIs(ds: seq<Desc>, n: nat, h: nat)
    requires h <= n < |ds|
    ensures RunStart(ds, n) == h <==> (h == 0 || !HasNext(ds[h - 1])) && forall k :: h <= k < n ==> HasNext(ds[k])
    decreases n
  {
    if n > 0 && HasNext(ds[n - 1]) && h < n {
      RunStartIs(ds, n - 1, h);
    }
  }

  /** queue_avail publishes every chain of neighbours exactly once, and nothing else. */
  lemma {:induction false} HeadsExact(ds: seq<Desc>, n: nat)
    requires n <= |ds|
    ensures forall h: nat :: h in Heads(ds, n) <==> IsHead(ds, n, h)
    ensures Distinct(Heads(ds, n))
    decreases n
  {
    if n > 0 {
      HeadsExact(ds, n - 1);
      forall h: nat ensures h in Heads(ds, n) <==> IsHead(ds, n, h) {
        HeadsStep(ds, n - 1, h);
      }
      if !HasNext(ds[n - 1]) {
        var s := RunStart(ds, n - 1);
        RunStartIs(ds, n - 1, s);
        assert !IsHead(ds, n - 1, s);
      }
    }
  }

  lemma HeadsStep(ds: seq<Desc>, n: nat, h: nat)
    requires n < |ds| && (h in Heads(ds, n) <==> IsHead(ds, n, h))
    ensures h in Heads(ds, n + 1) <==> IsHead(ds, n + 1, h)
  {
    assert IsHead(ds, n, h) ==> IsHead(ds, n + 1, h);
    if HasNext(ds[n]) {
      assert !RunEnds(ds, h, n);
    } else {
      if h <= n {
        RunStartIs(ds, n, h);
      }
      assert RunStart(ds, n) == h <==> (h <= n && (h == 0 || !HasNext(ds[h - 1])) && RunEnds(ds, h, n));
    }
  }

  // ------------------------------------------------------------ the queue

  /** The last count entries before index idx of a ring. */
  ghost predicate Entries(ring: seq<nat>, idx: nat, s: seq<nat>)
    requires |ring| == SIZE
  {
    |s| <= SIZE && forall k :: 0 <= k < |s| ==> ring[Slot(idx, k)] % MOD16 == s[k]
  }

  lemma FreeHead(ds: seq<Desc>, first: nat, free: seq<nat>)
    requires |ds| == SIZE && FreeOk(ds, first, free) && free != []
    ensures first == free[0] < SIZE
  {
  }

  lemma AllocOk(ds: seq<Desc>, own: seq<Owner>, free: seq<nat>, chains: map<nat, seq<nat>>, es: seq<Desc>)
    requires |ds| == |es| == SIZE && free != [] && FreeOk(ds, free[0], free) && ChainsOk(ds, chains)
    requires Parted(own, free, chains)
    requires forall d :: 0 <= d < SIZE && d != free[0] ==> es[d] == ds[d]
    ensures FreeOk(es, ds[free[0]].next, free[1..]) && ChainsOk(es, chains)
    ensures Parted(own[free[0] := Loose], free[1..], chains)
  {
    var d := free[0];
    assert d in free;
    forall h | h in chains ensures IsChain(es, chains[h]) {
      assert d !in chains[h];
      ChainFrame(ds, es, chains[h]);
    }
    forall x: nat | x in free && x != d ensures x in free[1..] {
      var i :| 0 <= i < |free| && free[i] == x;
      assert free[1..][i - 1] == x;
    }
  }

  lemma ChainFrame(ds: seq<Desc>, es: seq<Desc>, c: seq<nat>)
    requires |ds| == |es| == SIZE && IsChain(ds, c)
    requires forall d :: d in c ==> es[d] == ds[d]
    ensures IsChain(es, c)
  {
    forall i | 0 <= i < |c| ensures es[c[i]] == ds[c[i]] {
      assert c[i] in c;
    }
  }

  function Low16(n: nat): (r: nat)
    ensures r < MOD16
  {
    n % MOD16
  }

  function Slot(idx: nat, k: nat): (j: nat)
    ensures j < SIZE
  {
    (idx + k) % SIZE
  }

  /** Indices count modulo 2^16, and rings have 64 slots. */
  lemma Places(idx: nat, k: nat)
    ensures Low16(idx) < 0x1_0000 && (idx - Low16(idx)) % 0x1_0000 == 0
    ensures Slot(idx, k) < 64 && (idx + k - Slot(idx, k)) % 64 == 0
  {
  }

  /** The available ring with these heads written from index idx on. */
  function Published(ring: seq<nat>, idx: nat, hs: seq<nat>): (r: seq<nat>)
    requires |ring| == SIZE
    ensures |r| == SIZE
  {
    if hs == [] then ring
    else Published(ring, idx, hs[..|hs| - 1])[Slot(idx, |hs| - 1) := hs[|hs| - 1]]
  }

  lemma PublishedNone(ring: seq<nat>, idx: nat)
    requires |ring| == SIZE
    ensures Published(ring, idx, []) == ring
  {
  }

  lemma PublishedOne(ring: seq<nat>, idx: nat, hs: seq<nat>, h: nat)
    requires |ring| == SIZE
    ensures Published(ring, idx, hs + [h]) == Published(ring, idx, hs)[(idx + |hs|) % SIZE := h]
  {
    assert (hs + [h])[..|hs|] == hs;
  }

  /** Up to 64 heads do not overwrite each other, and other slots are left alone. */
  lemma {:induction false} PublishedFacts(ring: seq<nat>, idx: nat, hs: seq<nat>)
    requires |ring| == SIZE && |hs| <= SIZE
    ensures forall k :: 0 <= k < |hs| ==> Published(ring, idx, hs)[Slot(idx, k)] == hs[k]
    ensures forall j :: 0 <= j < SIZE && Turned(idx, j) >= |hs| ==> Published(ring, idx, hs)[j] == ring[j]
    decreases |hs|
  {
    hide Slot, Turned;
    if hs != [] {
      PublishedFacts(ring, idx, hs[..|hs| - 1]);
      SlotsApart(idx, |hs| - 1);
      TurnedSlot(idx, |hs| - 1);
    }
  }

  /** How many entries after index idx slot j comes up. */
  function Turned(idx: nat, j: nat): (k: nat)
    requires j < SIZE
    ensures k < SIZE
  {
    (j + SIZE - idx % SIZE) % SIZE
  }

  lemma TurnedSlot(idx: nat, n: nat)
    requires n < SIZE
    ensures Turned(idx, Slot(idx, n)) == n && Slot(idx, n) == (idx + n) % SIZE
  {
  }

  /** Fewer than 64 entries later the ring is on another slot. */
  lemma SlotsApart(idx: nat, n: nat)
    requires n < SIZE
    ensures forall k :: 0 <= k < n ==> Slot(idx, k) != Slot(idx, n)
  {
  }

  /** The descriptors of c change hands. */
  function Handed(own: seq<Owner>, c: seq<nat>, o: Owner): (r: seq<Owner>)
    ensures |r| == |own| && forall d :: 0 <= d < |own| ==> r[d] == if d in c then o else own[d]
  {
    seq(|own|, d requires 0 <= d < |own| => if d in c then o else own[d])
  }

  lemma HeadOwned(ds: seq<Desc>, own: seq<Owner>, free: seq<nat>, chains: map<nat, seq<nat>>, h: nat)
    requires |ds| == SIZE && ChainsOk(ds, chains) && Parted(own, free, chains) && h in chains
    ensures h < SIZE && own[h] == InFlight(h)
  {
    assert chains[h][0] in chains[h];
  }

  lemma ChainOwned(own: seq<Owner>, free: seq<nat>, chains: map<nat, seq<nat>>, h: nat, d: nat)
    requires Parted(own, free, chains) && h in chains && d in chains[h]
    ensures d < SIZE && own[d] == InFlight(h)
  {
    assert Owned(own, chains[h], h);
  }

  lemma LaunchOk(ds: seq<Desc>, own: seq<Owner>, free: seq<nat>, chains: map<nat, seq<nat>>, c: seq<nat>)
    requires |ds| == SIZE && ChainsOk(ds, chains)
    requires Parted(own, free, chains) && |c| > 0 && Indices(c) && forall i :: 0 <= i < |c| ==> own[c[i]] == Loose
    ensures c[0] !in chains
    ensures Parted(Handed(own, c, InFlight(c[0])), free, chains[c[0] := c])
  {
    var head := c[0];
    if head in chains {
      HeadOwned(ds, own, free, chains, head);
    }
    forall d: nat | d in c ensures d < SIZE && own[d] == Loose {
    }
  }

  lemma FreeChainOk(ds: seq<Desc>, own: seq<Owner>, first: nat, free: seq<nat>, chains: map<nat, seq<nat>>, id: nat,
                    es: seq<Desc>)
    requires |ds| == SIZE && FreeOk(ds, first, free) && ChainsOk(ds, chains) && Parted(own, free, chains)
    requires id in chains
    requires var c := chains[id]; IsChain(ds, c) && es == ds[c[|c| - 1] := ds[c[|c| - 1]].(next := first)]
    ensures var c := chains[id];
      && FreeOk(es, id, c + free) && ChainsOk(es, chains - {id})
      && Parted(Handed(own, c, Free), c + free, chains - {id})
  {
    var c := chains[id];
    assert forall i :: 0 <= i < |c| ==> c[i] in c && own[c[i]] == InFlight(id);
    assert forall i :: 0 <= i < |free| ==> free[i] in free && own[free[i]] == Free;
    Prepend(ds, first, free, c, es);
    forall h | h in chains && h != id ensures IsChain(es, chains[h]) {
      assert c[|c| - 1] !in chains[h];
      ChainFrame(ds, es, chains[h]);
    }
    GivenBack(own, free, chains, id, Handed(own, c, Free), c + free, chains - {id});
  }

  lemma GivenBack(own: seq<Owner>, free: seq<nat>, chains: map<nat, seq<nat>>, id: nat, o: seq<Owner>,
                  more: seq<nat>, rest: map<nat, seq<nat>>)
    requires Parted(own, free, chains) && id in chains
    requires o == Handed(own, chains[id], Free) && more == chains[id] + free && rest == chains - {id}
    ensures Parted(o, more, rest)
  {
    var c := chains[id];
    forall d: nat | d in c ensures d < SIZE && own[d] == InFlight(id) && o[d] == Free {
      ChainOwned(own, free, chains, id, d);
    }
    forall h | h in rest ensures Owned(o, rest[h], h) {
      forall d: nat | d in rest[h] ensures d < SIZE && o[d] == InFlight(h) {
        ChainOwned(own, free, chains, h, d);
      }
    }
  }

  lemma EntryAdded(ring: seq<nat>, idx: nat, done: seq<nat>, head: nat, ring1: seq<nat>)
    requires |ring| == SIZE && Entries(ring, idx, done) && |done| < SIZE && head < MOD16
    requires ring1 == ring[Slot(idx, |done|) := head]
    ensures Entries(ring1, idx, done + [head])
  {
    SlotsApart(idx, |done|);
  }

  /** The index modulo 2^16 picks the same slot as the whole index. */
  lemma SameSlot(idx: nat, n: nat)
    ensures Low16(idx + n) % SIZE == Slot(idx, n)
    ensures Low16(Low16(idx + n) + 1) == Low16(idx + n + 1)
  {
    var x := idx + n;
    var q, r := x / MOD16, x % MOD16;
    assert x == SIZE * (1024 * q + r / SIZE) + r % SIZE;
    DivModUnique(x, SIZE, 1024 * q + r / SIZE, r % SIZE);
    if r + 1 < MOD16 {
      DivModUnique(x + 1, MOD16, q, r + 1);
    } else {
      DivModUnique(x + 1, MOD16, q + 1, 0);
    }
  }

  lemma {:induction false} Pigeons(s: seq<nat>, n: nat)
    requires Distinct(s) && forall i :: 0 <= i < |s| ==> s[i] < n
    ensures |s| <= n
    decreases n
  {
    assert s != [] ==> 0 <= s[0] < n;
    if i :| 0 <= i < |s| && s[i] == n - 1 {
      Pigeons(s[..i] + s[i + 1..], n - 1);
    } else if n > 0 {
      Pigeons(s, n - 1);
    }
  }

  /** The used ring has a slot for every chain in flight. */
  lemma RoomForOne(own: seq<Owner>, free: seq<nat>, chains: map<nat, seq<nat>>, done: seq<nat>, head: nat,
                   ds: seq<Desc>)
    requires |ds| == SIZE && ChainsOk(ds, chains) && Parted(own, free, chains)
    requires Distinct(done) && (forall i :: 0 <= i < |done| ==> done[i] in chains)
    requires head in chains && head !in done
    ensures |done| < SIZE && head < SIZE
  {
    var s: seq<nat> := done + [head];
    forall i | 0 <= i < |s| ensures s[i] < SIZE {
      HeadOwned(ds, own, free, chains, s[i]);
    }
    Pigeons(s, SIZE);
  }

  function Members(s: seq<nat>): (r: set<nat>) {
    set h | h in s
  }

  /** The test at the end of the loop of recycle_used compares 16 bits. */
  lemma Low16Period(tail: nat, k: nat)
    ensures Low16(tail + k) == Low16(tail) <==> k % MOD16 == 0
  {
    var q, r := tail / MOD16, tail % MOD16;
    assert tail + k == MOD16 * q + (r + k);
    if k % MOD16 == 0 {
      DivModUnique(tail + k, MOD16, q + k / MOD16, r);
    } else if Low16(tail + k) == r {
      var p := (tail + k) / MOD16;
      DivModUnique(k, MOD16, p - q, 0);
    }
  }

  /** The test at the end of the loop of recycle_used, after k turns. */
  predicate Met(tail: nat, doneIdx: nat, k: nat) {
    Low16(tail + k) == doneIdx
  }

  /** The loop starts at tail and stops after n turns. */
  predicate Stops(tail: nat, doneIdx: nat, n: nat) {
    n > 0 && Met(tail, doneIdx, n) && forall k :: 0 < k < n ==> !Met(tail, doneIdx, k)
  }

  /** With d entries to recycle the loop makes d turns, but with none it makes 65536. */
  lemma StopsAfter(tail: nat, d: nat, n: nat)
    requires d < MOD16
    ensures Stops(tail, Low16(tail + d), n) <==> n == if d == 0 then 65536 else d
  {
    hide Low16;
    var m, idx := if d == 0 then MOD16 else d, Low16(tail + d);
    forall k | 0 < k <= MOD16 ensures Met(tail, idx, k) <==> k == m {
      if k >= d {
        Low16Period(tail + d, k - d);
      } else {
        Low16Period(tail + k, d - k);
      }
    }
    assert Met(tail, idx, m);
  }

  /** The test after k turns. */
  lemma LoopTest(tail: nat, d: nat, k: nat)
    requires d < MOD16 && 0 < k <= if d == 0 then MOD16 else d
    ensures Low16(tail + k) == Low16(tail + d) <==> k == if d == 0 then MOD16 else d
  {
    hide Low16;
    var m := if d == 0 then MOD16 else d;
    StopsAfter(tail, d, m);
    assert Met(tail, Low16(tail + d), k) <==> Low16(tail + k) == Low16(tail + d);
  }

  lemma TailStored(tail: nat)
    ensures Low16(tail % MOD32) == Low16(tail) && tail % MOD32 < MOD32
  {
  }

  function Range(a: nat, b: nat): (s: seq<nat>)
    requires a <= b
    ensures |s| == b - a && forall i :: 0 <= i < b - a ==> s[i] == a + i
  {
    seq(b - a, i => a + i)
  }

  lemma TwoTaken(d0: int, d1: int, rest: seq<nat>)
    requires d0 >= 0 && d1 >= 0 && Range(0, SIZE) == [d0] + ([d1] + rest)
    ensures d0 == 0 && d1 == 1 && rest == Range(2, SIZE)
  {
    var s := Range(0, SIZE);
    assert s[0] == d0 && s[1] == d1;
    assert rest == s[2..];
  }

  lemma FreeFrame(ds: seq<Desc>, es: seq<Desc>, first: nat, free: seq<nat>)
    requires |ds| == |es| == SIZE && FreeOk(ds, first, free) && free == Range(2, SIZE)
    requires forall d :: 2 <= d < SIZE ==> es[d] == ds[d]
    ensures FreeOk(es, first, free)
  {
  }

  lemma TwoHeads(ds: seq<Desc>)
    requires |ds| == SIZE && HasNext(ds[0]) && !HasNext(ds[1])
    ensures Heads(ds, 2) == [0]
  {
    assert Heads(ds, 0) == [] && Heads(ds, 1) == [];
    assert RunStart(ds, 0) == 0;
  }

  lemma TwoChain(ds: seq<Desc>)
    requires |ds| == SIZE && HasNext(ds[0]) && !HasNext(ds[1]) && ds[0].next == 1
    ensures IsChain(ds, [0, 1])
  {
  }

  class Queue {
    const desc: array<Desc>
    const availRing: array<nat>
    const usedRing: array<nat>
    var freeCount: nat
    var firstFree: nat
    var availIdx: nat
    var usedEvent: nat
    var usedIdx: nat
    var usedTail: nat
    /** The ISR status register. */
    var isrNotify: bool
    var isrConfig: bool
    /** The device's place in the available ring. */
    var seen: nat

    ghost var own: seq<Owner>
    ghost var free: seq<nat>
    ghost var chains: map<nat, seq<nat>>
    /** Completed and not yet recycled. */
    ghost var done: seq<nat>

    /** The descriptor table and its owners. */
    ghost predicate TableOk()
      reads `freeCount, `firstFree, `own, `free, `chains, desc
    {
      && |own| == SIZE && desc.Length == SIZE && freeCount == |free| && FreeOk(desc[..], firstFree, free)
      && ChainsOk(desc[..], chains) && Parted(own, free, chains)
    }

    ghost predicate Valid()
      reads this, desc, availRing, usedRing
    {
      && TableOk() && desc.Length == SIZE && availRing.Length == SIZE && usedRing.Length == SIZE
      && availRing != usedRing
      && availIdx < MOD16 && usedIdx < MOD16 && usedTail < MOD32 && seen < MOD16
      && usedIdx == Low16(usedTail + |done|)
      && Entries(usedRing[..], usedTail, done)
      && Distinct(done) && forall i :: 0 <= i < |done| ==> done[i] in chains
    }

    /** setup_queue on zeroed memory. */
    constructor ()
      ensures Valid() && Idle() && availIdx == 0 && desc.Length == availRing.Length == usedRing.Length == 64
      ensures fresh(desc) && fresh(availRing) && fresh(usedRing)
    {
      desc := new Desc[SIZE](i => Desc(0, 0, 0, 0));
      availRing := new nat[SIZE](i => 0);
      usedRing := new nat[SIZE](i => 0);
      freeCount, firstFree := SIZE, 0;
      availIdx, usedEvent, usedIdx, usedTail, seen := 0, 0, 0, 0, 0;
      isrNotify, isrConfig := false, false;
      own := seq(SIZE, i => Free);
      free, chains, done := Range(0, SIZE), map[], [];
      new;
      firstFree := ThreadAll(desc, firstFree);
      forall d | 0 <= d < SIZE ensures d in free {
        assert free[d] == d;
      }
    }

    /** The loop of setup_queue. */
    static method ThreadAll(desc: array<Desc>, start: nat) returns (first: nat)
      requires desc.Length == SIZE
      modifies desc
      ensures first == 0 && forall k :: 0 <= k < SIZE - 1 ==> desc[k].next == k + 1
    {
      first := start;
      var i := SIZE;
      while i > 0
        invariant 0 <= i <= SIZE && (i < SIZE ==> first == i)
        invariant forall k :: i <= k < SIZE - 1 ==> desc[k].next == k + 1
      {
        desc[i - 1] := desc[i - 1].(next := first);
        first := i - 1;
        i := i - 1;
      }
    }

    /** Nothing in flight, and the free list is 0, 1, ..., 63. */
    ghost predicate Idle()
      reads this, desc, availRing, usedRing
    {
      && Valid() && free == Range(0, SIZE) && done == [] && chains == map[]
      && availIdx == usedIdx == Low16(usedTail) == seen
    }

    /** The first desc_free_count links from desc_first_free are distinct, hold exactly the
        descriptors nobody uses, and every other descriptor is with the driver or in exactly
        one chain in flight. */
    lemma Conserved(d: nat)
      requires Valid() && d < SIZE
      ensures var s := Follow(desc[..], firstFree, freeCount);
        && Distinct(s) && (d in s <==> own[d] == Free)
      ensures !own[d].InFlight? ==> forall h :: h in chains ==> d !in chains[h]
      ensures own[d].InFlight? ==> own[d].head in chains && d in chains[own[d].head]
      ensures forall g, h :: g in chains && h in chains && d in chains[g] && d in chains[h] ==> g == h
    {
      hide Parted, Threaded, ChainsOk, IsChain, Entries, Follow;
      FollowFree(desc[..], firstFree, free);
      OneOwner(own, free, chains, d);
    }

    /** alloc_desc: the first free descriptor, or none (-1 for the null pointer). */
    method AllocDesc(writable: bool) returns (d: int)
      requires Valid()
      modifies this`freeCount, this`firstFree, this`own, this`free, desc
      ensures Valid()
      ensures old(freeCount) == 0 ==> d == -1 && free == old(free) && own == old(own) && desc[..] == old(desc[..])
      ensures old(freeCount) > 0 ==> d >= 0 && old(free) == [d] + free && own == old(own)[d := Loose]
      ensures old(freeCount) > 0 ==>
        desc[..] == old(desc[..])[d := old(desc[..])[d].(flags := if writable then 2 else 0, next := 0xFFFF)]
      ensures old(freeCount) > 0 ==> d < desc.Length && (DeviceWrites(desc[d].flags) <==> writable)
      ensures old(freeCount) > 0 ==> !Continues(desc[d].flags) && !IsTable(desc[d].flags)
    {
      hide Entries, ChainsOk, FreeOk, Parted, Distinct, Low16, DeviceWrites, Continues, IsTable, Threaded, Range;
      FlagBits();
      if freeCount == 0 {
        return -1;
      }
      FreeHead(desc[..], firstFree, free);
      ghost var ds := desc[..];
      freeCount := freeCount - 1;
      d := firstFree;
      firstFree := desc[d].next;
      desc[d] := desc[d].(flags := 0);
      desc[d] := desc[d].(next := MOD16 - 1);
      if writable {
        desc[d] := desc[d].(flags := desc[d].flags + F_WRITE);
      }
      AllocOk(ds, own, free, chains, desc[..]);
      own, free := own[d := Loose], free[1..];
    }

    /** queue_avail: publishes the chains among the first count descriptors, chains being
        runs of neighbours. */
    method QueueAvail(count: nat)
      requires Valid() && count <= SIZE
      modifies this`availIdx, this`usedEvent, availRing
      ensures Valid()
      ensures var s := Heads(desc[..], count);
        && availIdx == (old(availIdx) + |s|) % 0x1_0000 && usedEvent == (availIdx + 0xFFFF) % 0x1_0000
        && (forall k :: 0 <= k < |s| ==> availRing[Slot(old(availIdx), k)] == s[k])
      ensures forall j :: 0 <= j < SIZE && Turned(old(availIdx), j) >= |Heads(desc[..], count)| ==>
        availRing[j] == old(availRing[j])
    {
      hide Parted, FreeOk, ChainsOk, Slot, Turned, Low16, Heads, Published;
      var head := WriteHeads(desc, availRing, availIdx, count);
      PublishedFacts(old(availRing[..]), old(availIdx), Heads(desc[..], count));
      EventIs(head);
      usedEvent := Low16(head + MOD16 - 1);
      availIdx := Low16(head);
    }

    static lemma EventIs(head: nat)
      ensures Low16(head) == head % 0x1_0000 && Low16(head + MOD16 - 1) == (Low16(head) + 0xFFFF) % 0x1_0000
    {
    }

    /** The loop of queue_avail. */
    static method WriteHeads(desc: array<Desc>, ring: array<nat>, idx: nat, count: nat) returns (head: nat)
      requires desc.Length == ring.Length == SIZE && count <= SIZE
      modifies ring
      ensures head == idx + |Heads(desc[..], count)|
      ensures ring[..] == Published(old(ring[..]), idx, Heads(desc[..], count))
    {
      hide Slot, Published;
      ghost var ds, was := desc[..], ring[..];
      PublishedNone(was, idx);
      var chainStart, skip, i := 0, false, 0;
      head := idx;
      while i < count
        invariant i <= count && desc[..] == ds && head == idx + |Heads(ds, i)|
        invariant skip <==> i > 0 && HasNext(ds[i - 1])
        invariant skip ==> chainStart == RunStart(ds, i - 1)
        invariant ring[..] == Published(was, idx, Heads(ds, i))
      {
        if !skip {
          chainStart := i;
        }
        skip := HasNext(desc[i]);
        assert chainStart == RunStart(ds, i);
        assert Heads(ds, i + 1) == if skip then Heads(ds, i) else Heads(ds, i) + [chainStart];
        if !skip {
          PublishedOne(was, idx, Heads(ds, i), chainStart);
          ring[head % SIZE] := chainStart;
          head := head + 1;
        }
        i := i + 1;
      }
    }

    /** What the driver has linked up becomes the device's when it is published. */
    ghost method Launch(c: seq<nat>)
      requires Valid() && IsChain(desc[..], c) && forall i :: 0 <= i < |c| ==> own[c[i]] == Loose
      modifies this`own, this`chains
      ensures Valid() && chains == old(chains)[c[0] := c] && c[0] !in old(chains)
      ensures own == Handed(old(own), c, InFlight(c[0]))
    {
      LaunchOk(desc[..], own, free, chains, c);
      own := Handed(own, c, InFlight(c[0]));
      chains := chains[c[0] := c];
    }

    /** The device completes a chain (section 2.7.8 of VIRTIO 1.2): one entry at the end of
        the used ring, the index moved on. */
    method Complete(head: nat)
      requires Valid() && head in chains && head !in done
      modifies this`usedIdx, this`done, usedRing
      ensures Valid() && done == old(done) + [head] && usedIdx == (old(usedIdx) + 1) % MOD16
    {
      RoomForOne(own, free, chains, done, head, desc[..]);
      SlotsApart(usedTail, |done|);
      SameSlot(usedTail, |done|);
      ghost var ring := usedRing[..];
      usedRing[usedIdx % SIZE] := head;
      usedIdx := (usedIdx + 1) % MOD16;
      EntryAdded(ring, usedTail, done, head, usedRing[..]);
      done := done + [head];
    }

    /** Nothing but next links has changed. */
    twostate predicate OnlyLinks()
      requires desc.Length == SIZE
      reads desc
    {
      forall d :: 0 <= d < SIZE ==> desc[d] == old(desc[d]).(next := desc[d].next)
    }

    ghost function Now(): (r: Table)
      reads `firstFree, `freeCount, desc
    {
      Table(desc[..], firstFree, freeCount)
    }

    /** The walk to the end of what hangs on descriptor id, and its splice onto the free list,
        whoever has those descriptors. A chain in flight is then free. */
    method FreeChain(id: nat, ghost s: seq<nat>)
      requires desc.Length == SIZE && Trail(desc[..], s) && s[0] == id
      modifies this`freeCount, this`firstFree, this`own, this`free, this`chains, desc
      ensures OnlyLinks() && Now() == SplicedAt(old(Now()), s) && Spliced(old(Now()), id, Now())
      ensures old(TableOk() && id in chains) ==>
        TableOk() && free == old(chains)[id] + old(free) && chains == old(chains) - {id}
    {
      ghost var flying, ds, first := TableOk() && id in chains, desc[..], firstFree;
      if flying {
        assert IsChain(desc[..], chains[id]);
        TrailUnique(ds, s, chains[id]);
      }
      var freed, end := 1, id;
      ghost var j := 0;
      while HasNext(desc[end])
        invariant 0 <= j < |s| && end == s[j] && freed == j + 1
        decreases |s| - j
      {
        assert desc[..][s[j]] == desc[s[j]];
        end := desc[end].next;
        freed, j := freed + 1, j + 1;
      }
      assert desc[..][s[j]] == desc[s[j]];
      desc[end] := desc[end].(next := firstFree);
      firstFree := id;
      freeCount := freeCount + freed;
      assert Now() == SplicedAt(old(Now()), s);
      if flying {
        FreeChainOk(ds, own, first, free, chains, id, desc[..]);
        own, free, chains := Handed(own, s, Free), s + free, chains - {id};
      }
    }

    /** The turns of an empty batch: stale entries, whose walks all end. */
    ghost predicate Ending(rs: seq<Table>)
      reads this, desc, usedRing
    {
      |rs| == MOD16 + 1 && Turns(usedRing[..], usedTail, rs) && rs[0] == Now()
    }

    /** recycle_used: every completed chain goes to the free list, the last one first. The
        loop has its test at the end. With nothing to recycle it makes 65536 turns over stale
        entries, which must have walks that end; the queue is in no order then. */
    method RecycleUsed(ghost rs: seq<Table>)
      requires Valid() && (done == [] ==> Ending(rs))
      modifies this`freeCount, this`firstFree, this`usedTail, this`own, this`free, this`chains, this`done, desc
      ensures done == [] && Low16(usedTail) == usedIdx && OnlyLinks()
      ensures old(done) != [] ==> usedTail == (old(usedTail) + |old(done)|) % 0x1_0000_0000
      ensures old(done) != [] ==> Valid() && free == Returned(old(chains), old(done)) + old(free)
      ensures old(done) != [] ==> chains == old(chains) - Members(old(done))
      ensures old(done) == [] ==> Now() == rs[MOD16] && freeCount >= old(freeCount) + 65536
    {
      hide TableOk, Low16, Slot, Turns, Returned, Members, Spliced, Trail;
      ghost var all, first, ds := chains, free, done;
      ghost var m := if ds == [] then MOD16 else |ds|;
      FewFree();
      var tail, doneIdx := usedTail, usedIdx;
      ghost var k := 0;
      NoneReturned(all, first);
      assert ds[..0] == [];
      while true
        invariant 0 <= k < m && tail == usedTail + k && usedTail == old(usedTail) && OnlyLinks()
        invariant ds != [] ==> TableOk() && free == Returned(all, ds[..k]) + first && chains == all - Members(ds[..k])
        invariant ds == [] ==> Now() == rs[k]
        decreases m - k
      {
        RecycleOne(tail, all, first, ds, rs, k);
        tail, k := tail + 1, k + 1;
        LoopTest(usedTail, |ds|, k);
        if Low16(tail) == doneIdx {
          break;
        }
      }
      assert ds[..|ds|] == ds;
      if ds == [] {
        StaleCount(rs);
      }
      TailStored(tail);
      usedTail := tail % MOD32;
      done := [];
      assert usedTail + |done| == usedTail;
    }

    /** One turn: what hangs on the descriptor of one used entry. */
    method RecycleOne(tail: nat, ghost all: map<nat, seq<nat>>, ghost first: seq<nat>, ghost ds: seq<nat>,
                      ghost rs: seq<Table>, ghost k: nat)
      requires desc.Length == SIZE && usedRing.Length == SIZE && tail == usedTail + k
      requires ds != [] ==> TableOk() && Entries(usedRing[..], usedTail, ds)
      requires ds != [] ==> k < |ds| && Distinct(ds) && forall i :: 0 <= i < |ds| ==> ds[i] in all
      requires ds != [] ==> free == Returned(all, ds[..k]) + first && chains == all - Members(ds[..k])
      requires ds == [] ==> Turns(usedRing[..], usedTail, rs) && k < |rs| - 1 && Now() == rs[k]
      modifies this`freeCount, this`firstFree, this`own, this`free, this`chains, desc
      ensures desc.Length == SIZE && OnlyLinks()
      ensures ds != [] ==>
        TableOk() && free == Returned(all, ds[..k + 1]) + first && chains == all - Members(ds[..k + 1])
      ensures ds == [] ==> Now() == rs[k + 1]
    {
      hide TableOk, Trail;
      var id := usedRing[tail % SIZE] % MOD16;
      assert usedRing[..][Slot(usedTail, k)] == usedRing[tail % SIZE];
      ghost var s;
      if ds == [] {
        assert Spliced(rs[k], id, rs[k + 1]);
        s := SpliceTrail(rs[k], id, rs[k + 1]);
      } else {
        assert id == ds[k] && id !in ds[..k];
        InFlightTrail(id);
        s := chains[id];
      }
      FreeChain(id, s);
      if ds != [] {
        ReturnedLast(all, ds[..k], id);
        assert ds[..k + 1] == ds[..k] + [id];
      }
    }

    lemma InFlightTrail(id: nat)
      requires TableOk() && id in chains
      ensures Trail(desc[..], chains[id]) && chains[id][0] == id
    {
      assert IsChain(desc[..], chains[id]);
    }

    lemma FewFree()
      requires TableOk()
      ensures freeCount <= SIZE
    {
      Pigeons(free, SIZE);
    }

    lemma StaleCount(rs: seq<Table>)
      requires Turns(usedRing[..], usedTail, rs) && |rs| == MOD16 + 1 && |rs[0].ds| == SIZE && rs[0].count <= SIZE
      ensures rs[0].count + MOD16 <= rs[MOD16].count
    {
      StopsAfter(usedTail, 0, MOD16);
      EmptyBatch(usedRing[..], usedTail, rs);
    }

    /** irq_handler: reading the register clears it; a configuration change takes
        precedence and leaves the used ring alone. */
    method IrqHandler(ghost rs: seq<Table>)
      requires Valid() && (!isrConfig && isrNotify && done == [] ==> Ending(rs))
      modifies this`isrNotify, this`isrConfig
      modifies this`freeCount, this`firstFree, this`usedTail, this`own, this`free, this`chains, this`done, desc
      ensures OnlyLinks() && !isrConfig && !isrNotify
      ensures old(!isrConfig && isrNotify) ==> done == [] && Low16(usedTail) == usedIdx
      ensures old(!isrConfig && isrNotify && done != []) ==>
        Valid() && free == Returned(old(chains), old(done)) + old(free) && chains == old(chains) - Members(old(done))
      ensures old(!isrConfig && isrNotify && done == []) ==> Now() == rs[MOD16]
      ensures old(isrConfig || !isrNotify) ==>
        Valid() && done == old(done) && free == old(free) && chains == old(chains)
    {
      hide TableOk;
      var config, notify := isrConfig, isrNotify;
      isrConfig, isrNotify := false, false;
      if !config && notify {
        RecycleUsed(rs);
      }
    }

    /** What the device does with the one chain it was told of: it takes the head from the
        available ring, completes the chain, and raises the queue interrupt without a
        configuration change, all before the driver sees the response. */
    method Respond(ghost toSend: nat, ghost sendSize: nat, ghost toRecieve: nat, ghost recieveSize: nat)
      requires Valid() && availIdx == Low16(seen + 1) && done == [] && availRing[seen % SIZE] in chains
      requires Offers(desc[..], availRing[seen % SIZE], Exchange(toSend, sendSize, toRecieve, recieveSize))
      modifies this`seen, this`usedIdx, this`done, this`isrNotify, this`isrConfig, usedRing
      ensures Valid() && seen == availIdx && done == [availRing[old(seen) % SIZE]]
      ensures usedIdx == Low16(old(usedIdx) + 1) && isrNotify && !isrConfig
    {
      var head := availRing[seen % SIZE];
      Complete(head);
      seen := Low16(seen + 1);
      isrNotify, isrConfig := true, false;
    }

    /** The request in the two descriptors the queue hands out, linked to each other. */
    method Prepare(toSend: nat, sendSize: nat, toRecieve: nat, recieveSize: nat)
      requires Idle()
      modifies this`freeCount, this`firstFree, this`own, this`free, desc
      ensures Valid() && free == Range(2, SIZE) && own[0] == own[1] == Loose
      ensures desc[0] == Desc(toSend, sendSize % 0x1_0000_0000, 1, 1)
      ensures desc[1] == Desc(toRecieve, recieveSize % 0x1_0000_0000, 2, 0xFFFF)
    {
      hide Parted, Entries, Low16, Distinct;
      var d0 := AllocDesc(false);
      var d1 := AllocDesc(true);
      TwoTaken(d0, d1, free);
      ghost var ds := desc[..];
      assert ds[d1].flags == F_WRITE && ds[d1].next == MOD16 - 1;
      desc[d0] := desc[d0].(addr := toSend);
      desc[d0] := desc[d0].(len := sendSize % MOD32);
      desc[d0] := desc[d0].(flags := F_NEXT);
      desc[d0] := desc[d0].(next := 1);
      desc[d1] := desc[d1].(addr := toRecieve);
      desc[d1] := desc[d1].(len := recieveSize % MOD32);
      FreeFrame(ds, desc[..], firstFree, free);
    }

    /** send_and_recieve: it names descriptors 0 and 1, and these are the two it was given; a
        descriptor has 32 bits for a length. Afterwards the queue is as before but for the
        indices, which have all moved on by one. */
    method SendAndRecieve(toSend: nat, sendSize: nat, toRecieve: nat, recieveSize: nat)
      requires Idle()
      modifies this, desc, availRing, usedRing
      ensures Idle() && availIdx == Low16(old(availIdx) + 1)
      ensures Offers(desc[..], 0, Exchange(toSend, sendSize % 0x1_0000_0000, toRecieve, recieveSize % 0x1_0000_0000))
    {
      hide TableOk, FreeOk, Entries, Low16, Heads;
      ghost var s, r := sendSize % 0x1_0000_0000, recieveSize % 0x1_0000_0000;
      Prepare(toSend, sendSize, toRecieve, recieveSize);
      Publish();
      ExchangeOffered(desc[..], toSend, s, toRecieve, r);
      Respond(toSend, s, toRecieve, r);
      IrqHandler([]);
      assert Returned(map[0 := [0, 1]], [0][1..]) == [];
      assert free == Range(0, SIZE);
      assert chains == map[];
      FirstLink();
      ExchangeOffered(desc[..], toSend, s, toRecieve, r);
    }

    lemma FirstLink()
      requires TableOk() && desc.Length == SIZE && free == Range(0, SIZE)
      ensures desc[0].next == 1
    {
      assert Threaded(desc[..], free);
      assert desc[..][free[0]].next == free[1];
    }

    method Publish()
      requires Valid() && chains == map[] && own[0] == own[1] == Loose && done == []
      requires desc[0].flags == F_NEXT && desc[0].next == 1 && desc[1].flags == F_WRITE
      modifies this`own, this`chains, this`availIdx, this`usedEvent, availRing
      ensures Valid() && chains == map[0 := [0, 1]]
      ensures availIdx == Low16(old(availIdx) + 1) && availRing[old(availIdx) % SIZE] == 0
    {
      hide Parted, FreeOk, ChainsOk, Entries, Low16, IsChain, Heads;
      TwoHeads(desc[..]);
      TwoChain(desc[..]);
      Launch([0, 1]);
      QueueAvail(2);
      EventIs(old(availIdx) + 1);
      assert availRing[Slot(old(availIdx), 0)] == 0;
    }

    /** Any number of requests, one after the other, leave the queue idle: the indices count
        them modulo 2^16. */
    method SendAll(requests: seq<(nat, nat, nat, nat)>)
      requires Idle()
      modifies this, desc, availRing, usedRing
      ensures Idle() && availIdx == (old(availIdx) + |requests|) % 0x1_0000
    {
      hide Valid;
      var i := 0;
      while i < |requests|
        invariant 0 <= i <= |requests| && Idle() && availIdx == Low16(old(availIdx) + i)
      {
        var r := requests[i];
        SendAndRecieve(r.0, r.1, r.2, r.3);
        SameSlot(old(availIdx), i);
        i := i + 1;
      }
    }
  }
}
