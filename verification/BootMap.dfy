/**
 The early-boot page tables: the tables kern/bootstrap.S builds, map_addr_early_boot and
 alloc_pd_early_boot of kern/init.c on them, and the walk the processor makes.
 */
module BootMap {
  import opened Arith

  const PAGE: nat := 0x1000
  const HUGE: nat := 0x20_0000
  const ENTRIES: nat := 512
  /** Huge pages one PML4 entry spans. */
  const SPAN: nat := 0x4_0000
  const MOD64: nat := 0x1_0000_0000_0000_0000
  const HALF64: nat := 0x8000_0000_0000_0000
  /** PTE_P | PTE_W and PTE_P | PTE_W | PTE_PS. */
  const TABLE_FLAGS: nat := 0x3
  const HUGE_FLAGS: nat := 0x83

  /** PTE_ADDR: the no-execute bit and the low twelve bits cleared. */
  function Addr(e: nat): (a: nat) {
    e % HALF64 / PAGE * PAGE
  }

  /** An entry holds the address of a page in its bits 12 to 62, whatever the no-execute bit 63
      and the flags are. */
  lemma AddrIs(noExecute: bool, f: nat, flags: nat)
    requires f < 0x8_0000_0000_0000 && flags < 0x1000
    ensures Addr((if noExecute then 0x8000_0000_0000_0000 else 0) + f * 0x1000 + flags) == f * 0x1000
  {
    var e := f * 0x1000 + flags;
    DivModUnique(e + if noExecute then HALF64 else 0, HALF64, if noExecute then 1 else 0, e);
    DivModUnique(e, PAGE, f, flags);
  }

  function RoundDown(a: nat): (r: nat) {
    a / HUGE * HUGE
  }

  function RoundUp(a: nat): (r: nat) {
    (a + HUGE - 1) / HUGE * HUGE
  }

  /** Indices, from the number of a huge page. */
  function Pml4Index(n: nat): (i: nat)
    ensures i < ENTRIES
  {
    n / SPAN % ENTRIES
  }

  function PdpIndex(n: nat): (i: nat)
    ensures i < ENTRIES
  {
    n / 512 % ENTRIES
  }

  function PdIndex(n: nat): (i: nat)
    ensures i < ENTRIES
  {
    n % ENTRIES
  }

  /** What a table page is used as. */
  datatype Kind = Root | Pdp(slot: nat) | Pd(slot: nat, index: nat) | Spare

  datatype Translation = Unmapped | To(pa: nat, writable: bool, user: bool) | Deeper(entry: nat)

  /** Bit 0 of an entry, present; bit 1, writable; bit 2, for user mode as well; and bit 7, a
      page and no table. */
  predicate Present(e: nat) {
    e % 2 == 1
  }

  predicate MayWrite(e: nat) {
    e / 2 % 2 == 1
  }

  predicate ForUser(e: nat) {
    e / 4 % 2 == 1
  }

  predicate IsPage(e: nat) {
    e / 128 % 2 == 1
  }

  /** What a page-directory entry makes of an address. */
  function Through(e: nat, v: nat, writable: bool, user: bool): (t: Translation) {
    if !Present(e) then Unmapped
    else if IsPage(e) then To(Addr(e) / HUGE * HUGE + v % HUGE, writable && MayWrite(e), user && ForUser(e))
    else Deeper(e)
  }

  lemma TableEntry(a: nat)
    requires a % PAGE == 0 && a < HALF64
    ensures Addr(a + 0x3) == a && Opens(a + 0x3)
  {
    hide Addr, Opens;
    var f := a / PAGE;
    assert a == f * 0x1000;
    AddrIs(false, f, 0x3);
    TableBits(f);
  }

  lemma TableBits(f: nat)
    ensures Opens(f * 0x1000 + 3)
  {
    var e := f * 0x1000 + 3;
    DivModUnique(e, 2, f * 2048 + 1, 1);
    DivModUnique(f * 2048 + 1, 2, f * 1024, 1);
    DivModUnique(e, 4, f * 1024, 3);
    DivModUnique(f * 1024, 2, f * 512, 0);
    DivModUnique(e, 128, f * 32, 3);
    DivModUnique(f * 32, 2, f * 16, 0);
  }

  /** An entry for a table, in which writing is allowed. */
  predicate Opens(e: nat) {
    Present(e) && MayWrite(e) && !ForUser(e) && !IsPage(e)
  }

  lemma HugeEntry(f: nat, v: nat)
    requires f * HUGE < HALF64
    ensures Through(f * HUGE + 0x83, v, true, false) == To(f * HUGE + v % HUGE, true, false)
  {
    var e := f * HUGE + HUGE_FLAGS;
    assert f < HALF64 / HUGE;
    DivModUnique(e, HALF64, 0, e);
    assert Addr(e) == f * HUGE by {
      DivModUnique(e, PAGE, f * 512, HUGE_FLAGS);
    }
    DivModUnique(e, 128, f * 16384 + 1, 3);
    DivModUnique(f * 16384 + 1, 2, f * 8192, 1);
    DivModUnique(e, 2, f * 1048576 + 65, 1);
    DivModUnique(f * 1048576 + 65, 2, f * 524288 + 32, 1);
    DivModUnique(f * HUGE, HUGE, f, 0);
  }

  /** A page and its indices: the low 18 bits of the number give the place in its slot. */
  lemma PlaceInSlot(n: nat)
    ensures PdpIndex(n) == n % SPAN / 512 && PdIndex(n) == n % SPAN % 512
  {
    var q, r := n / SPAN, n % SPAN;
    assert n == 512 * (512 * q + r / 512) + r % 512;
    DivModUnique(n, 512, 512 * q + r / 512, r % 512);
    DivModUnique(n / 512, 512, q, r / 512);
  }

  /** Physical memory that holds tables, by page address, and what each page is used as. */
  datatype Store = Store(mem: map<nat, seq<nat>>, kind: map<nat, Kind>, root: nat)

  /** One entry of one table is written. */
  function Put(mem: map<nat, seq<nat>>, a: nat, j: nat, e: nat): (r: map<nat, seq<nat>>)
    requires a in mem && j < |mem[a]|
  {
    var t: seq<nat> := mem[a][j := e];
    mem[a := t]
  }

  ghost predicate TablesOk(s: Store) {
    && s.mem.Keys == s.kind.Keys && s.root in s.mem && s.kind[s.root] == Root
    && (forall a :: a in s.mem ==> |s.mem[a]| == ENTRIES && a % PAGE == 0 && 0 < a < HALF64)
  }

  /** An entry is empty or leads to a table used for exactly this place. */
  predicate EntryOk(s: Store, e: nat, k: Kind) {
    e == 0 || (Opens(e) && Addr(e) in s.mem && Addr(e) in s.kind && s.kind[Addr(e)] == k)
  }

  ghost predicate Links(s: Store, i: nat)
    requires TablesOk(s) && i < ENTRIES
  {
    EntryOk(s, s.mem[s.root][i], Pdp(i))
  }

  ghost predicate SubLinks(s: Store, i: nat, j: nat)
    requires TablesOk(s) && i < ENTRIES && j < ENTRIES
  {
    Links(s, i) && (s.mem[s.root][i] != 0 ==> EntryOk(s, s.mem[Addr(s.mem[s.root][i])][j], Pd(i, j)))
  }

  /** No table has two uses: no two slots share a directory. */
  ghost predicate Linked(s: Store) {
    TablesOk(s) && forall i, j :: 0 <= i < ENTRIES && 0 <= j < ENTRIES ==> SubLinks(s, i, j)
  }

  /** The page-directory-pointer entry for place j of slot i, 0 if there is none. */
  ghost function SubEntry(s: Store, i: nat, j: nat): (e: nat)
    requires Linked(s) && i < ENTRIES && j < ENTRIES
  {
    assert SubLinks(s, i, j);
    if s.mem[s.root][i] == 0 then 0 else s.mem[Addr(s.mem[s.root][i])][j]
  }

  /** The directory entry for place m of slot i, 0 where a table on the way is missing. */
  ghost function Cell(s: Store, i: nat, m: nat): (e: nat)
    requires Linked(s) && i < ENTRIES && m < SPAN
  {
    assert SubLinks(s, i, m / 512);
    var e := SubEntry(s, i, m / 512);
    if e == 0 then 0 else s.mem[Addr(e)][m % 512]
  }

  /** The processor's walk, as far as the page directory: 512 entries in each table, of 512
      GiB, 1 GiB and 2 MiB each. */
  ghost function Translate(s: Store, v: nat): (t: Translation)
    requires Linked(s)
  {
    var e := s.mem[s.root][v / 0x80_0000_0000 % 512];
    assert SubLinks(s, v / 0x80_0000_0000 % 512, v / 0x4000_0000 % 512);
    if !Present(e) then Unmapped
    else
      var f := s.mem[Addr(e)][v / 0x4000_0000 % 512];
      if !Present(f) then Unmapped
      else if IsPage(f) then Deeper(f)
      else Through(s.mem[Addr(f)][v / 0x20_0000 % 512], v, MayWrite(e) && MayWrite(f), ForUser(e) && ForUser(f))
  }

  lemma TranslateIs(s: Store, v: nat)
    requires Linked(s)
    ensures Translate(s, v) == Through(Cell(s, Pml4Index(v / HUGE), v / HUGE % SPAN), v, true, false)
  {
    var n := v / HUGE;
    PlaceInSlot(n);
    IndexIs(v);
    assert SubLinks(s, Pml4Index(n), PdpIndex(n));
    assert !Present(0);
  }

  lemma IndexIs(v: nat)
    ensures Pml4Index(v / HUGE) == v / 0x80_0000_0000 % 512
    ensures PdpIndex(v / HUGE) == v / 0x4000_0000 % 512 && PdIndex(v / HUGE) == v / 0x20_0000 % 512
  {
    DivDiv(v, HUGE, SPAN);
    DivDiv(v, HUGE, 512);
  }

  lemma DivDiv(v: nat, a: nat, b: nat)
    requires a > 0 && b > 0
    ensures a * b > 0 && v / a / b == v / (a * b)
  {
    var q, r := v / a / b, v / a % b;
    assert v == a * (b * q + r) + v % a;
    assert a * r + v % a < a * b by {
      assert r + 1 <= b;
      assert a * (r + 1) <= a * b;
    }
    assert v == (a * b) * q + (a * r + v % a);
    DivModUnique(v, a * b, q, a * r + v % a);
  }

  predicate Blank(s: Store, a: nat) {
    a in s.mem && a in s.kind && s.kind[a] == Spare && forall k :: 0 <= k < |s.mem[a]| ==> s.mem[a][k] == 0
  }

  /** A spare page becomes the directory of an empty entry. */
  lemma NewDirectory(s: Store, i: nat, j: nat, pd: nat, t: Store)
    requires Linked(s) && i < ENTRIES && j < ENTRIES && s.mem[s.root][i] != 0 && SubEntry(s, i, j) == 0 && Blank(s, pd)
    requires var pdp := Addr(s.mem[s.root][i]);
      && pdp in s.mem && j < |s.mem[pdp]|
      && t == Store(Put(s.mem, pdp, j, pd + TABLE_FLAGS), s.kind[pd := Pd(i, j)], s.root)
    ensures Linked(t) && t.mem[t.root] == s.mem[s.root] && SubEntry(t, i, j) == pd + TABLE_FLAGS
    ensures Addr(pd + TABLE_FLAGS) == pd
    ensures forall k, m :: 0 <= k < ENTRIES && 0 <= m < ENTRIES && (k, m) != (i, j) ==>
      SubEntry(t, k, m) == SubEntry(s, k, m)
    ensures forall a :: a != pd && Blank(s, a) ==> Blank(t, a)
  {
    TableEntry(pd);
    assert SubLinks(s, i, j);
    var pdp := Addr(s.mem[s.root][i]);
    forall k, m | 0 <= k < ENTRIES && 0 <= m < ENTRIES ensures SubLinks(t, k, m) {
      assert SubLinks(s, k, m);
    }
    forall k, m | 0 <= k < ENTRIES && 0 <= m < ENTRIES && (k, m) != (i, j)
      ensures SubEntry(t, k, m) == SubEntry(s, k, m)
    {
      assert SubLinks(s, k, m) && SubLinks(t, k, m);
    }
  }

  lemma NewCells(s: Store, i: nat, j: nat, pd: nat, t: Store, k: nat, m: nat)
    requires Linked(s) && i < ENTRIES && j < ENTRIES && s.mem[s.root][i] != 0 && SubEntry(s, i, j) == 0 && Blank(s, pd)
    requires var pdp := Addr(s.mem[s.root][i]);
      && pdp in s.mem && j < |s.mem[pdp]|
      && t == Store(Put(s.mem, pdp, j, pd + TABLE_FLAGS), s.kind[pd := Pd(i, j)], s.root)
    requires k < ENTRIES && m < SPAN
    ensures Linked(t) && Cell(t, k, m) == Cell(s, k, m)
  {
    NewDirectory(s, i, j, pd, t);
    assert SubLinks(s, i, j) && SubLinks(s, k, m / 512) && SubLinks(t, k, m / 512);
  }

  /** A directory entry is written. */
  lemma NewEntry(s: Store, i: nat, m: nat, e: nat, t: Store)
    requires Linked(s) && i < ENTRIES && m < SPAN && SubEntry(s, i, m / 512) != 0
    requires var pd := Addr(SubEntry(s, i, m / 512));
      pd in s.mem && m % 512 < |s.mem[pd]| && t == Store(Put(s.mem, pd, m % 512, e), s.kind, s.root)
    ensures Linked(t) && t.mem[t.root] == s.mem[s.root]
    ensures forall k, j :: 0 <= k < ENTRIES && 0 <= j < ENTRIES ==> SubEntry(t, k, j) == SubEntry(s, k, j)
    ensures forall a :: Blank(s, a) ==> Blank(t, a)
  {
    assert SubLinks(s, i, m / 512);
    forall k, j | 0 <= k < ENTRIES && 0 <= j < ENTRIES ensures SubLinks(t, k, j) {
      assert SubLinks(s, k, j);
    }
    forall k, j | 0 <= k < ENTRIES && 0 <= j < ENTRIES ensures SubEntry(t, k, j) == SubEntry(s, k, j) {
      assert SubLinks(s, k, j) && SubLinks(t, k, j);
    }
  }

  lemma EntryCells(s: Store, i: nat, m: nat, e: nat, t: Store, k: nat, n: nat)
    requires Linked(s) && i < ENTRIES && m < SPAN && SubEntry(s, i, m / 512) != 0
    requires var pd := Addr(SubEntry(s, i, m / 512));
      pd in s.mem && m % 512 < |s.mem[pd]| && t == Store(Put(s.mem, pd, m % 512, e), s.kind, s.root)
    requires k < ENTRIES && n < SPAN
    ensures Linked(t) && Cell(t, k, n) == if k == i && n == m then e else Cell(s, k, n)
  {
    NewEntry(s, i, m, e, t);
    assert SubLinks(s, i, m / 512) && SubLinks(s, k, n / 512) && SubLinks(t, k, n / 512);
  }

  // ------------------------------------------------------------ a range of pages

  /** How many pages after page n place m of a slot comes up, counting round the slot. */
  function Turn(m: nat, n: nat): (d: nat)
    requires m < SPAN
    ensures d < SPAN
  {
    (m + SPAN - n % SPAN) % SPAN
  }

  lemma TurnIs(m: nat, n: nat, k: nat)
    requires m < SPAN && n <= k < n + SPAN
    ensures k % SPAN == m <==> k - n == Turn(m, n)
  {
    var q, r, d := n / SPAN, n % SPAN, k - n;
    assert k == SPAN * q + (r + d);
    if r + d < SPAN {
      DivModUnique(k, SPAN, q, r + d);
    } else {
      DivModUnique(k, SPAN, q + 1, r + d - SPAN);
    }
    if m >= r {
      DivModUnique(m + SPAN - r, SPAN, 1, m - r);
    } else {
      DivModUnique(m + SPAN - r, SPAN, 0, m + SPAN - r);
    }
  }

  /** The cells after count pages from page n have been mapped to frames from f on, all
      through slot i. */
  ghost predicate Mapped(s: Store, t: Store, i: nat, n: nat, f: nat, count: nat)
    requires Linked(s) && Linked(t)
  {
    forall k, m :: 0 <= k < ENTRIES && 0 <= m < SPAN ==>
      Cell(t, k, m) == if k == i && Turn(m, n) < count then (f + Turn(m, n)) * HUGE + HUGE_FLAGS else Cell(s, k, m)
  }

  lemma MappedOne(s: Store, t: Store, u: Store, i: nat, n: nat, f: nat, count: nat)
    requires Linked(s) && Linked(t) && Linked(u) && i < ENTRIES && count < SPAN && Mapped(s, t, i, n, f, count)
    requires forall k, m :: 0 <= k < ENTRIES && 0 <= m < SPAN ==>
      Cell(u, k, m) == if k == i && m == (n + count) % SPAN then (f + count) * HUGE + HUGE_FLAGS else Cell(t, k, m)
    ensures Mapped(s, u, i, n, f, count + 1)
  {
    forall k, m | 0 <= k < ENTRIES && 0 <= m < SPAN
      ensures Cell(u, k, m) ==
        if k == i && Turn(m, n) < count + 1 then (f + Turn(m, n)) * HUGE + HUGE_FLAGS else Cell(s, k, m)
    {
      TurnIs(m, n, n + count);
    }
  }

  /** Directories a range of pages can need: one for each gigabyte it touches. */
  function Gigabytes(n: nat, end: nat): (g: nat) {
    if n < end then (end - 1) / 512 - n / 512 + 1 else 0
  }

  /** What a mapping means for the processor: exactly the pages of the range that lie in the
      first page's slot translate as asked, and all else is as it was. */
  lemma Translated(s: Store, t: Store, va: nat, pa: nat, end: nat, v: nat)
    requires Linked(s) && Linked(t) && va / HUGE <= end <= va / HUGE + SPAN
    requires (pa / HUGE + (end - va / HUGE)) * HUGE <= HALF64
    requires Mapped(s, t, Pml4Index(va / HUGE), va / HUGE, pa / HUGE, end - va / HUGE)
    ensures RoundDown(va) <= v < end * HUGE && Pml4Index(v / HUGE) == Pml4Index(va / HUGE) ==>
      Translate(t, v) == To(RoundDown(pa) + (v - RoundDown(va)), true, false)
    ensures Pml4Index(v / HUGE) != Pml4Index(va / HUGE) ==> Translate(t, v) == Translate(s, v)
    ensures Turn(v / HUGE % SPAN, va / HUGE) >= end - va / HUGE ==> Translate(t, v) == Translate(s, v)
  {
    hide Translate;
    var n, k := va / HUGE, v / HUGE;
    TranslateIs(s, v);
    TranslateIs(t, v);
    if RoundDown(va) <= v < end * HUGE && Pml4Index(k) == Pml4Index(n) {
      assert n <= k < end;
      TurnIs(k % SPAN, n, k);
      var frame := pa / HUGE + (k - n);
      MulBelow(frame, pa / HUGE + (end - n));
      HugeEntry(frame, v);
      assert frame * HUGE + v % HUGE == RoundDown(pa) + (v - RoundDown(va));
    }
  }

  /** Inside one slot: the pages of the range translate as asked, and every other address is
      as it was. */
  lemma OneSlotExact(s: Store, t: Store, va: nat, pa: nat, end: nat, v: nat)
    requires Linked(s) && Linked(t) && va / HUGE < end && va / HUGE / SPAN == (end - 1) / SPAN < ENTRIES
    requires (pa / HUGE + (end - va / HUGE)) * HUGE <= HALF64
    requires Mapped(s, t, Pml4Index(va / HUGE), va / HUGE, pa / HUGE, end - va / HUGE)
    requires v / HUGE / SPAN < ENTRIES
    ensures Translate(t, v) ==
      if RoundDown(va) <= v < end * HUGE then To(RoundDown(pa) + (v - RoundDown(va)), true, false) else Translate(s, v)
  {
    hide Mapped, Translate, Turn, RoundDown, Pml4Index, Linked;
    var n, k := va / HUGE, v / HUGE;
    Translated(s, t, va, pa, end, v);
    InRange(va, end, v);
    SlotOf(n);
    SlotOf(k);
    if n <= k < end {
      SameSlot(n, k, end - 1);
    } else if Pml4Index(k) == Pml4Index(n) {
      OutsideTurn(n, k, end);
    }
  }

  lemma InRange(va: nat, end: nat, v: nat)
    ensures RoundDown(va) <= v < end * HUGE <==> va / HUGE <= v / HUGE < end
  {
  }

  lemma SlotOf(n: nat)
    requires n / SPAN < ENTRIES
    ensures Pml4Index(n) == n / SPAN
  {
  }

  lemma SameSlot(n: nat, k: nat, last: nat)
    requires n <= k <= last && n / SPAN == last / SPAN
    ensures k / SPAN == n / SPAN
  {
  }

  /** A place of the slot that the range does not reach. */
  lemma OutsideTurn(n: nat, k: nat, end: nat)
    requires n < end && n / SPAN == (end - 1) / SPAN == k / SPAN && !(n <= k < end)
    ensures Turn(k % SPAN, n) >= end - n
  {
    TurnIs(k % SPAN, n, if k < n then k + SPAN else k);
  }

  lemma MulBelow(a: nat, b: nat)
    requires a < b && b * HUGE <= HALF64
    ensures a * HUGE < HALF64
  {
  }

  // ------------------------------------------------------------ the tables at start

  /** PTE_P | PTE_W | PTE_MBZ. */
  const KERNEL_FLAGS: nat := 0x183

  function Zeroes(): (t: seq<nat>)
    ensures |t| == ENTRIES && forall k :: 0 <= k < ENTRIES ==> t[k] == 0
  {
    seq(ENTRIES, k => 0)
  }

  function FirstGigabyte(): (t: seq<nat>)
    ensures |t| == ENTRIES && forall k :: 0 <= k < ENTRIES ==> t[k] == k * HUGE + KERNEL_FLAGS
  {
    seq(ENTRIES, k requires 0 <= k => k * HUGE + KERNEL_FLAGS)
  }

  function With(t: seq<nat>, k: nat, e: nat): (u: seq<nat>)
    requires k < |t|
    ensures |u| == |t| && u[k] == e && forall j :: 0 <= j < |t| && j != k ==> u[j] == t[j]
  {
    t[k := e]
  }

  function BootMem(b: nat): (m: map<nat, seq<nat>>) {
    map[b := With(With(Zeroes(), 0, b + PAGE + TABLE_FLAGS), 1, b + 2 * PAGE + TABLE_FLAGS),
        b + PAGE := With(Zeroes(), 0, b + 3 * PAGE + TABLE_FLAGS),
        b + 2 * PAGE := With(Zeroes(), 1, b + 4 * PAGE + TABLE_FLAGS),
        b + 3 * PAGE := FirstGigabyte(), b + 4 * PAGE := FirstGigabyte(),
        b + 5 * PAGE := Zeroes(), b + 6 * PAGE := Zeroes(), b + 7 * PAGE := Zeroes(),
        b + 8 * PAGE := Zeroes(), b + 9 * PAGE := Zeroes(), b + 10 * PAGE := Zeroes()]
  }

  function BootKind(b: nat): (m: map<nat, Kind>) {
    map[b := Root, b + PAGE := Pdp(0), b + 2 * PAGE := Pdp(1), b + 3 * PAGE := Pd(0, 0), b + 4 * PAGE := Pd(1, 1),
        b + 5 * PAGE := Spare, b + 6 * PAGE := Spare, b + 7 * PAGE := Spare,
        b + 8 * PAGE := Spare, b + 9 * PAGE := Spare, b + 10 * PAGE := Spare]
  }

  function BootStore(b: nat): (s: Store) {
    Store(BootMem(b), BootKind(b), b)
  }

  /** The entries of the first three tables, and what the tables they lead to are for. */
  lemma BootEntries(b: nat)
    requires b > 0 && b % PAGE == 0 && b + 11 * PAGE < HALF64
    ensures var s := BootStore(b);
      && {b, b + PAGE, b + 2 * PAGE, b + 3 * PAGE, b + 4 * PAGE} <= s.mem.Keys
      && s.kind[b + PAGE] == Pdp(0) && s.kind[b + 2 * PAGE] == Pdp(1)
      && s.kind[b + 3 * PAGE] == Pd(0, 0) && s.kind[b + 4 * PAGE] == Pd(1, 1)
      && s.mem[b] == With(With(Zeroes(), 0, b + PAGE + TABLE_FLAGS), 1, b + 2 * PAGE + TABLE_FLAGS)
      && s.mem[b + PAGE] == With(Zeroes(), 0, b + 3 * PAGE + TABLE_FLAGS)
      && s.mem[b + 2 * PAGE] == With(Zeroes(), 1, b + 4 * PAGE + TABLE_FLAGS)
      && s.mem[b + 3 * PAGE] == FirstGigabyte() && s.mem[b + 4 * PAGE] == FirstGigabyte()
  {
  }

  lemma BootLinked(b: nat)
    requires b > 0 && b % PAGE == 0 && b + 11 * PAGE < HALF64
    ensures Linked(BootStore(b))
  {
    var s := BootStore(b);
    BootTables(b);
    BootEntries(b);
    TableEntry(b + PAGE);
    TableEntry(b + 2 * PAGE);
    TableEntry(b + 3 * PAGE);
    TableEntry(b + 4 * PAGE);
    hide Addr, Zeroes, FirstGigabyte, With, TablesOk, BootMem, BootKind;
    forall i, j | 0 <= i < ENTRIES && 0 <= j < ENTRIES ensures SubLinks(s, i, j) {
    }
  }

  lemma PageStep(b: nat, k: nat)
    requires b % PAGE == 0
    ensures (b + k * PAGE) % PAGE == 0
  {
    DivModUnique(b + k * PAGE, PAGE, b / PAGE + k, 0);
  }

  lemma BootTables(b: nat)
    requires b > 0 && b % PAGE == 0 && b + 11 * PAGE < HALF64
    ensures TablesOk(BootStore(b))
  {
    hide Zeroes, FirstGigabyte, With;
    var s := BootStore(b);
    assert s.mem.Keys == s.kind.Keys;
    forall k: nat ensures (b + k * PAGE) % PAGE == 0 {
      PageStep(b, k);
    }
    forall a | a in s.mem ensures |s.mem[a]| == ENTRIES && a % PAGE == 0 && 0 < a < HALF64 {
    }
  }

  lemma BootSpare(b: nat)
    requires b % PAGE == 0
    ensures forall a :: b + 5 * PAGE <= a < b + 11 * PAGE && a % PAGE == 0 ==> Blank(BootStore(b), a)
  {
    forall a | b + 5 * PAGE <= a < b + 11 * PAGE && a % PAGE == 0 ensures Blank(BootStore(b), a) {
      var k := (a - b) / PAGE;
      assert a == b + k * PAGE && 5 <= k < 11;
    }
  }

  lemma BootCells(b: nat)
    requires b > 0 && b % PAGE == 0 && b + 11 * PAGE < HALF64 && Linked(BootStore(b))
    ensures forall m :: 0 <= m < SPAN ==> Cell(BootStore(b), 0, m) == if m < 512 then m * HUGE + KERNEL_FLAGS else 0
    ensures forall m :: 0 <= m < SPAN ==>
      Cell(BootStore(b), 1, m) == if 512 <= m < 1024 then (m - 512) * HUGE + KERNEL_FLAGS else 0
  {
    forall m | 0 <= m < SPAN
      ensures Cell(BootStore(b), 0, m) == if m < 512 then m * HUGE + KERNEL_FLAGS else 0
      ensures Cell(BootStore(b), 1, m) == if 512 <= m < 1024 then (m - 512) * HUGE + KERNEL_FLAGS else 0
    {
      BootCell(b, m);
    }
  }

  lemma BootCell(b: nat, m: nat)
    requires b > 0 && b % PAGE == 0 && b + 11 * PAGE < HALF64 && Linked(BootStore(b)) && m < SPAN
    ensures Cell(BootStore(b), 0, m) == if m < 512 then m * HUGE + KERNEL_FLAGS else 0
    ensures Cell(BootStore(b), 1, m) == if 512 <= m < 1024 then (m - 512) * HUGE + KERNEL_FLAGS else 0
  {
    hide Linked, BootMem, BootKind, Zeroes, FirstGigabyte, With, Addr;
    BootEntries(b);
    TableEntry(b + PAGE);
    TableEntry(b + 2 * PAGE);
    TableEntry(b + 3 * PAGE);
    TableEntry(b + 4 * PAGE);
  }

  lemma KernelEntry(f: nat, v: nat)
    requires f < 512
    ensures Through(f * HUGE + 0x183, v, true, false) == To(f * HUGE + v % HUGE, true, false)
  {
    var e := f * HUGE + KERNEL_FLAGS;
    DivModUnique(e, HALF64, 0, e);
    assert Addr(e) == f * HUGE by {
      DivModUnique(e, PAGE, f * 512, KERNEL_FLAGS);
    }
    DivModUnique(e, 128, f * 16384 + 3, 3);
    DivModUnique(f * 16384 + 3, 2, f * 8192 + 1, 1);
    DivModUnique(e, 2, f * 1048576 + 193, 1);
    DivModUnique(f * 1048576 + 193, 2, f * 524288 + 96, 1);
    DivModUnique(f * HUGE, HUGE, f, 0);
  }

  /** At start the first gigabyte of physical memory, and nothing else, can be reached from the
      kernel's base, 513 GiB, on in its slot. */
  lemma BootReach(b: nat, a: nat)
    requires b > 0 && b % PAGE == 0 && b + 11 * PAGE < HALF64 && a < 0x7F_C000_0000
    ensures Linked(BootStore(b))
    ensures Translate(BootStore(b), 0x80_4000_0000 + a) == if a < 0x4000_0000 then To(a, true, false) else Unmapped
  {
    hide Linked, BootMem, BootKind, Zeroes, FirstGigabyte, With, Addr, Translate, Through;
    var v := 0x80_4000_0000 + a;
    BootLinked(b);
    TranslateIs(BootStore(b), v);
    var f := a / HUGE;
    DivModUnique(v, HUGE, SPAN + 512 + f, a % HUGE);
    DivModUnique(SPAN + 512 + f, SPAN, 1, 512 + f);
    BootCell(b, 512 + f);
    if a < 0x4000_0000 {
      KernelEntry(f, v);
    } else {
      NothingThere(v);
    }
  }

  lemma NothingThere(v: nat)
    ensures Through(0, v, true, false) == Unmapped
  {
  }

  class Tables {
    var mem: map<nat, seq<nat>>
    const root: nat
    const pdeEnd: nat
    var pdeFree: nat
    ghost var kind: map<nat, Kind>

    ghost function S(): Store
      reads `mem, `kind
    {
      Store(mem, kind, root)
    }

    ghost predicate Valid()
      reads this
    {
      && root in mem && |mem[root]| == ENTRIES && Linked(S()) && pdeFree % PAGE == 0 && pdeEnd % PAGE == 0
      && forall a :: pdeFree <= a < pdeEnd && a % PAGE == 0 ==> Blank(S(), a)
    }

    /** The tables bootstrap.S builds in eleven pages from b on: the first gigabyte at address
        0 and at the kernel's base, and six spare pages. */
    constructor (b: nat)
      requires b > 0 && b % PAGE == 0 && b + 11 * PAGE < HALF64
      ensures Valid() && pdeEnd - pdeFree == 6 * PAGE && S() == BootStore(b)
      ensures root == b && mem[root][0] != 0 && mem[root][1] != 0
      ensures forall m :: 0 <= m < SPAN ==> Cell(S(), 0, m) == if m < 512 then m * HUGE + 0x183 else 0
      ensures forall m :: 0 <= m < SPAN ==>
        Cell(S(), 1, m) == if 512 <= m < 1024 then (m - 512) * HUGE + 0x183 else 0
    {
      hide With, Zeroes, FirstGigabyte, TablesOk;
      root, pdeFree, pdeEnd := b, b + 5 * PAGE, b + 11 * PAGE;
      mem := BootMem(b);
      kind := BootKind(b);
      new;
      BootLinked(b);
      BootSpare(b);
      BootCells(b);
    }

    /** alloc_pd_early_boot: 0 when there is none left. */
    method AllocPd() returns (a: nat)
      requires Valid()
      modifies this`pdeFree
      ensures Valid() && (a == 0 <==> old(pdeFree) >= pdeEnd)
      ensures a != 0 ==> a == old(pdeFree) && pdeFree == a + PAGE && Blank(S(), a)
      ensures a == 0 ==> pdeFree == old(pdeFree)
    {
      if pdeFree >= pdeEnd {
        return 0;
      }
      a := pdeFree;
      assert Blank(S(), a);
      pdeFree := pdeFree + PAGE;
    }

    /** One turn of the loop of map_addr_early_boot, for page n. The answer is false where
        the source has no directory left and goes on with a null pointer. */
    method MapPage(pdp: nat, n: nat, frame: nat, ghost i: nat) returns (ok: bool)
      requires Valid() && i < ENTRIES && mem[root][i] != 0 && pdp == Addr(mem[root][i])
      modifies this
      ensures Valid() && mem[root] == old(mem[root])
      ensures !ok ==> old(pdeFree) >= pdeEnd && old(SubEntry(S(), i, PdpIndex(n))) == 0
      ensures ok ==> forall k, m :: 0 <= k < ENTRIES && 0 <= m < SPAN ==>
        Cell(S(), k, m) == if k == i && m == n % SPAN then frame * HUGE + 0x83 else old(Cell(S(), k, m))
      ensures ok ==> SubEntry(S(), i, PdpIndex(n)) != 0
      ensures pdeFree == old(pdeFree) || (pdeFree == old(pdeFree) + PAGE && old(SubEntry(S(), i, PdpIndex(n))) == 0)
    {
      ghost var s := S();
      PlaceInSlot(n);
      var j := PdpIndex(n);
      assert SubLinks(s, i, j);
      var pd := Addr(mem[pdp][j]);
      EmptyIff(s, i, j);
      if pd == 0 {
        pd := AllocPd();
        if pd == 0 {
          return false;
        }
        NewDirectory(s, i, j, pd, Store(Put(mem, pdp, j, pd + TABLE_FLAGS), kind[pd := Pd(i, j)], root));
        forall k, m | 0 <= k < ENTRIES && 0 <= m < SPAN
          ensures Cell(Store(Put(mem, pdp, j, pd + TABLE_FLAGS), kind[pd := Pd(i, j)], root), k, m) == Cell(s, k, m)
        {
          NewCells(s, i, j, pd, Store(Put(mem, pdp, j, pd + TABLE_FLAGS), kind[pd := Pd(i, j)], root), k, m);
        }
        mem := Put(mem, pdp, j, pd + TABLE_FLAGS);
        kind := kind[pd := Pd(i, j)];
      }
      ghost var t := S();
      assert SubLinks(t, i, j);
      var e := frame * HUGE + HUGE_FLAGS;
      NewEntry(t, i, n % SPAN, e, Store(Put(mem, pd, PdIndex(n), e), kind, root));
      forall k, m | 0 <= k < ENTRIES && 0 <= m < SPAN
        ensures Cell(Store(Put(mem, pd, PdIndex(n), e), kind, root), k, m) ==
          if k == i && m == n % SPAN then e else Cell(t, k, m)
      {
        EntryCells(t, i, n % SPAN, e, Store(Put(mem, pd, PdIndex(n), e), kind, root), k, m);
      }
      mem := Put(mem, pd, PdIndex(n), e);
      ok := true;
    }

    /** map_addr_early_boot: the pages that cover [va, va + sz) are mapped to those from pa
        on. Only running out of directories stops it, and one directory for each gigabyte
        touched is enough. The answer is wild where the slot has no table and the source goes
        on with the page at address 0 as one. */
    method MapAddr(va: nat, pa: nat, sz: nat) returns (ok: bool, wild: bool)
      requires Valid() && va + sz + HUGE <= MOD64 && RoundUp(va + sz) <= RoundDown(va) + SPAN * HUGE
      requires RoundDown(pa) + (RoundUp(va + sz) - RoundDown(va)) <= HALF64
      modifies this
      ensures wild <==> old(mem[root][Pml4Index(va / HUGE)]) == 0 && RoundDown(va) < RoundUp(va + sz)
      ensures wild ==> !ok && unchanged(this)
      ensures Valid() && mem[root] == old(mem[root])
      ensures ok ==>
        Mapped(old(S()), S(), Pml4Index(va / HUGE), va / HUGE, pa / HUGE, RoundUp(va + sz) / HUGE - va / HUGE)
      ensures !wild && old(pdeFree) + PAGE * Gigabytes(va / HUGE, RoundUp(va + sz) / HUGE) <= pdeEnd ==> ok
    {
      hide Linked, Mapped;
      var vstart, vend, pstart := RoundDown(va), RoundUp(va + sz), RoundDown(pa);
      var n, f := vstart / HUGE, pstart / HUGE;
      Rounded(va);
      Rounded(pa);
      ghost var s, n0, f0, i := S(), n, f, Pml4Index(va / HUGE);
      var pdp := Addr(mem[root][Pml4Index(n)]);
      NoneMapped(s, i, n0, f0);
      ok, wild := true, pdp == 0 && vstart < vend;
      RootEmptyIff(s, i);
      if wild {
        return false, true;
      }
      ghost var used := 0;
      while n * HUGE < vend
        invariant n0 <= n && (n - n0 <= vend / HUGE - n0 || n == n0) && f == f0 + (n - n0) && Valid()
        invariant mem[root] == old(mem[root]) && (n * HUGE < vend ==> pdp != 0)
        invariant Mapped(s, S(), i, n0, f0, n - n0) && pdeFree == old(pdeFree) + PAGE * used
        invariant used <= Gigabytes(n0, n) && (n > n0 ==> SubEntry(S(), i, PdpIndex(n - 1)) != 0)
        decreases vend - n * HUGE
      {
        ghost var t := S();
        Pages(n0, n, vend);
        ok := MapPage(pdp, n, f, i);
        MoreGigabytes(n0, n, vend / HUGE);
        if !ok {
          return;
        }
        MappedOne(s, t, S(), i, n0, f0, n - n0);
        if pdeFree != old(pdeFree) + PAGE * used {
          used := used + 1;
        }
        n, f := n + 1, f + 1;
      }
    }

    /** mmio_map_region: with a directory for each gigabyte touched and a table for the slot,
        the whole request is mapped to itself as far as it lies in the slot it starts in, and
        other slots translate as before; inside one slot nothing outside the huge pages the
        request touches changes. */
    method MmioMapRegion(pa: nat, size: nat) returns (addr: nat, ok: bool, wild: bool)
      requires Valid() && pa + size + 2 * HUGE <= HALF64 && size + 2 * HUGE <= SPAN * HUGE
      modifies this
      ensures Valid() && addr == pa
      ensures wild <==> old(mem[root][Pml4Index(pa / HUGE)]) == 0 && RoundDown(pa) < RoundUp(pa + size)
      ensures wild ==> !ok && unchanged(this)
      ensures !wild && old(pdeFree) + PAGE * Gigabytes(pa / HUGE, RoundUp(pa + size) / HUGE) <= pdeEnd ==> ok
      ensures ok ==> forall v: nat :: pa <= v < pa + size && Pml4Index(v / HUGE) == Pml4Index(pa / HUGE) ==>
        Translate(S(), v) == To(v, true, false)
      ensures ok ==> forall v: nat :: Pml4Index(v / HUGE) != Pml4Index(pa / HUGE) ==>
        Translate(S(), v) == old(Translate(S(), v))
      ensures ok && InOneSlot(pa, size) ==>
        forall v: nat :: v / HUGE / SPAN < ENTRIES && !(RoundDown(pa) <= v < RoundUp(pa + size)) ==>
          Translate(S(), v) == old(Translate(S(), v))
    {
      hide Linked, Mapped, Translate;
      var org := pa;
      var bytes := size + pa % HUGE + (HUGE - 1);
      var start := pa - pa % HUGE;
      bytes := bytes - bytes % HUGE;
      MmioRange(pa, size, start, bytes);
      ghost var s := S();
      ok, wild := MapAddr(start, start, bytes);
      if ok {
        ghost var end := RoundUp(start + bytes) / HUGE;
        forall v: nat
          ensures pa <= v < pa + size && Pml4Index(v / HUGE) == Pml4Index(pa / HUGE) ==>
            Translate(S(), v) == To(v, true, false)
        {
          Translated(s, S(), start, start, end, v);
        }
        forall v: nat ensures Pml4Index(v / HUGE) != Pml4Index(pa / HUGE) ==> Translate(S(), v) == Translate(s, v) {
          Translated(s, S(), start, start, end, v);
        }
        if InOneSlot(pa, size) {
          forall v: nat | v / HUGE / SPAN < ENTRIES && !(RoundDown(pa) <= v < RoundUp(pa + size))
            ensures Translate(S(), v) == Translate(s, v)
          {
            OneSlotExact(s, S(), start, start, end, v);
          }
        }
      }
      addr := org;
    }
  }

  /** The huge pages of a request are in one PML4 slot. */
  predicate InOneSlot(pa: nat, size: nat) {
    size > 0 && pa / HUGE / SPAN == (pa + size - 1) / HUGE / SPAN < ENTRIES
  }

  lemma MmioRange(pa: nat, size: nat, start: nat, bytes: nat)
    requires start == pa - pa % HUGE
    requires var b := size + pa % HUGE + (HUGE - 1); bytes == b - b % HUGE
    ensures start % HUGE == 0 && start / HUGE == pa / HUGE && RoundDown(start) == start
    ensures RoundUp(start + bytes) == start + bytes && pa + size <= start + bytes < pa + size + HUGE
    ensures (start + bytes) / HUGE * HUGE == start + bytes && start <= pa
    ensures start == RoundDown(pa) && start + bytes == RoundUp(pa + size)
    ensures size > 0 ==> pa / HUGE < (start + bytes) / HUGE && (start + bytes) / HUGE - 1 == (pa + size - 1) / HUGE
  {
    assert start == pa / HUGE * HUGE;
    var q := (size + pa % HUGE + (HUGE - 1)) / HUGE;
    assert bytes == q * HUGE;
    DivModUnique(start, HUGE, pa / HUGE, 0);
    DivModUnique(start + bytes, HUGE, pa / HUGE + q, 0);
    DivModUnique(start + bytes + HUGE - 1, HUGE, pa / HUGE + q, HUGE - 1);
    DivModUnique(pa + size + HUGE - 1, HUGE, pa / HUGE + q, (size + pa % HUGE + (HUGE - 1)) % HUGE);
    if size > 0 {
      DivModUnique(pa + size - 1, HUGE, pa / HUGE + q - 1, (size + pa % HUGE + (HUGE - 1)) % HUGE);
    }
  }

  lemma Rounded(a: nat)
    ensures RoundDown(a) / HUGE == a / HUGE && RoundDown(a) <= a
  {
    DivModUnique(RoundDown(a), HUGE, a / HUGE, 0);
  }

  lemma NoneMapped(s: Store, i: nat, n: nat, f: nat)
    requires Linked(s)
    ensures Mapped(s, s, i, n, f, 0)
  {
  }

  lemma Pages(n0: nat, n: nat, vend: nat)
    requires vend % HUGE == 0 && n * HUGE < vend && n0 <= n && vend <= n0 * HUGE + SPAN * HUGE
    ensures n < vend / HUGE && n - n0 < SPAN
  {
    var q := vend / HUGE;
    assert vend == q * HUGE;
  }

  /** A page in a gigabyte already touched needs no new directory. */
  lemma MoreGigabytes(n0: nat, n: nat, end: nat)
    requires n0 <= n < end
    ensures Gigabytes(n0, n) <= Gigabytes(n0, n + 1) <= Gigabytes(n0, end)
    ensures n > n0 && PdpIndex(n) != PdpIndex(n - 1) ==> Gigabytes(n0, n + 1) == Gigabytes(n0, n) + 1
    ensures n == n0 ==> Gigabytes(n0, n) == 0 && Gigabytes(n0, n + 1) == 1
  {
  }

  lemma RootEmptyIff(s: Store, i: nat)
    requires Linked(s) && i < ENTRIES
    ensures s.mem[s.root][i] == 0 <==> Addr(s.mem[s.root][i]) == 0
  {
    assert SubLinks(s, i, 0);
  }

  /** A table entry is empty exactly when the address in it is. */
  lemma EmptyIff(s: Store, i: nat, j: nat)
    requires Linked(s) && i < ENTRIES && j < ENTRIES
    ensures SubEntry(s, i, j) == 0 <==> Addr(SubEntry(s, i, j)) == 0
  {
    assert SubLinks(s, i, j);
  }
}
