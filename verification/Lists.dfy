/**
 The intrusive circular lists of kern/pmap.c, link by link: list_init, list_append and
 list_del over struct List, with the back link of the old first member that list_append
 leaves out supplied. The module ListsAsWritten has the function as it stands.
 */
module Lists {
  import opened BuddyTree

  function Without(s: seq<Ptr>, x: Ptr): (r: seq<Ptr>) {
    if s == [] then [] else if s[0] == x then s[1..] else [s[0]] + Without(s[1..], x)
  }

  predicate NoDup(s: seq<Ptr>) {
    forall i, j :: 0 <= i < j < |s| ==> s[i] != s[j]
  }

  lemma {:induction false} NoDupSize(s: seq<Ptr>)
    requires NoDup(s)
    ensures |set p | p in s| == |s|
    decreases s
  {
    if s == [] {
      assert (set p | p in s) == {};
    } else {
      NoDupSize(s[1..]);
      assert (set p | p in s) == {s[0]} + (set p | p in s[1..]);
    }
  }

  /** Taking out the member at index k. */
  lemma {:induction false} WithoutAt(s: seq<Ptr>, k: nat)
    requires k < |s| && NoDup(s)
    ensures Without(s, s[k]) == s[..k] + s[k + 1..]
    decreases |s|
  {
    if k > 0 {
      WithoutAt(s[1..], k - 1);
      assert s[1..][..k - 1] == s[1..k];
    }
  }

  /** prev and next of every struct List. */
  datatype Store = Store(next: map<Ptr, Ptr>, prev: map<Ptr, Ptr>)

  function After(h: Ptr, s: seq<Ptr>, i: nat): (p: Ptr) {
    if i < |s| then s[i] else h
  }

  function Before(h: Ptr, s: seq<Ptr>, i: nat): (p: Ptr)
    requires i <= |s|
  {
    if i > 0 then s[i - 1] else h
  }

  /** The four writes of list_append. */
  function AppendStore(m: Store, h: Ptr, x: Ptr): (r: Store)
    requires h in m.next
  {
    var f := m.next[h];
    Store(m.next[x := f][h := x], m.prev[x := h][f := x])
  }

  /** The writes of list_del, list_init included. */
  function DelStore(m: Store, x: Ptr): (r: Store)
    requires x in m.next && x in m.prev
  {
    var p, n := m.prev[x], m.next[x];
    Store(m.next[p := n][x := x], m.prev[n := p][x := x])
  }

  /** h and the members s form a ring: position 0 is after h, position |s| before it, and
      next and prev are inverse along it. */
  ghost predicate Ring(m: Store, h: Ptr, s: seq<Ptr>) {
    && NoDup(s) && h !in s
    && (forall i :: 0 <= i <= |s| ==> Before(h, s, i) in m.next && m.next[Before(h, s, i)] == After(h, s, i))
    && (forall i :: 0 <= i <= |s| ==> After(h, s, i) in m.prev && m.prev[After(h, s, i)] == Before(h, s, i))
  }

  lemma RingFrame(m: Store, m': Store, h: Ptr, s: seq<Ptr>)
    requires Ring(m, h, s)
    requires forall x :: (x == h || x in s) && x in m.next ==> x in m'.next && m'.next[x] == m.next[x]
    requires forall x :: (x == h || x in s) && x in m.prev ==> x in m'.prev && m'.prev[x] == m.prev[x]
    ensures Ring(m', h, s)
  {
    forall i | 0 <= i <= |s|
      ensures Before(h, s, i) in m'.next && m'.next[Before(h, s, i)] == After(h, s, i)
      ensures After(h, s, i) in m'.prev && m'.prev[After(h, s, i)] == Before(h, s, i)
    {
      assert Before(h, s, i) == h || Before(h, s, i) in s;
      assert After(h, s, i) == h || After(h, s, i) in s;
    }
  }

  lemma RingAppend(m: Store, h: Ptr, s: seq<Ptr>, x: Ptr)
    requires Ring(m, h, s) && x != h && x !in s && h in m.next
    ensures Ring(AppendStore(m, h, x), h, [x] + s)
  {
    assert Before(h, s, 0) == h;
    var f := m.next[h];
    assert f == After(h, s, 0);
    var m' := AppendStore(m, h, x);
    var t := [x] + s;
    forall i | 0 <= i <= |t|
      ensures Before(h, t, i) in m'.next && m'.next[Before(h, t, i)] == After(h, t, i)
      ensures After(h, t, i) in m'.prev && m'.prev[After(h, t, i)] == Before(h, t, i)
    {
      if i > 1 {
        assert Before(h, t, i) == Before(h, s, i - 1) && After(h, t, i) == After(h, s, i - 1);
        assert After(h, s, i - 1) != f;
      }
    }
  }

  lemma RingDel(m: Store, h: Ptr, s: seq<Ptr>, k: nat)
    requires Ring(m, h, s) && k < |s| && s[k] in m.next && s[k] in m.prev
    ensures Ring(DelStore(m, s[k]), h, s[..k] + s[k + 1..])
  {
    var x := s[k];
    assert After(h, s, k) == x && Before(h, s, k + 1) == x;
    var p, n := m.prev[x], m.next[x];
    assert p == Before(h, s, k) && n == After(h, s, k + 1);
    var m' := DelStore(m, x);
    var t := s[..k] + s[k + 1..];
    forall i | 0 <= i <= |t|
      ensures Before(h, t, i) in m'.next && m'.next[Before(h, t, i)] == After(h, t, i)
      ensures After(h, t, i) in m'.prev && m'.prev[After(h, t, i)] == Before(h, t, i)
    {
      if i < k {
        assert Before(h, t, i) == Before(h, s, i) && After(h, t, i) == After(h, s, i);
        assert Before(h, s, i) != p && After(h, s, i) != n;
      } else if i == k {
        assert Before(h, t, i) == p && After(h, t, i) == n;
      } else {
        assert Before(h, t, i) == Before(h, s, i + 1) && After(h, t, i) == After(h, s, i + 1);
        assert Before(h, s, i + 1) != p && After(h, s, i + 1) != n;
      }
    }
  }

  ghost predicate Rings(m: Store, lists: map<Ptr, seq<Ptr>>) {
    forall h :: h in lists ==> Ring(m, h, lists[h])
  }

  /** Every member hangs on exactly one head, and no head is a member. */
  ghost predicate Hung(lists: map<Ptr, seq<Ptr>>, on: map<Ptr, Ptr>) {
    && (forall h :: h in lists ==> h !in on)
    && (forall h, x :: h in lists && x in lists[h] ==> x in on && on[x] == h)
    && (forall x :: x in on ==> on[x] in lists && x in lists[on[x]])
  }

  /** What is on no list points to itself. */
  ghost predicate Loose(m: Store, lists: map<Ptr, seq<Ptr>>, on: map<Ptr, Ptr>) {
    forall x :: x in m.next && x !in on && x !in lists ==> m.next[x] == x && x in m.prev && m.prev[x] == x
  }

  ghost predicate Linked(m: Store, lists: map<Ptr, seq<Ptr>>, on: map<Ptr, Ptr>) {
    Rings(m, lists) && Hung(lists, on) && Loose(m, lists, on) && Keyed(m, lists, on)
  }

  /** Every head and member has both links. */
  ghost predicate Keyed(m: Store, lists: map<Ptr, seq<Ptr>>, on: map<Ptr, Ptr>) {
    m.next.Keys == m.prev.Keys && lists.Keys <= m.next.Keys && on.Keys <= m.next.Keys
  }

  lemma FirstLink(m: Store, h: Ptr, s: seq<Ptr>)
    requires Ring(m, h, s)
    ensures h in m.next && m.next[h] == (if |s| > 0 then s[0] else h) && m.next[h] in m.prev
  {
    assert Before(h, s, 0) == h;
    assert After(h, s, 0) in m.prev;
  }

  lemma MemberLinks(m: Store, h: Ptr, s: seq<Ptr>, k: nat)
    requires Ring(m, h, s) && k < |s|
    ensures s[k] in m.next && s[k] in m.prev
    ensures m.prev[s[k]] == Before(h, s, k) && m.next[s[k]] == After(h, s, k + 1)
    ensures m.prev[s[k]] in m.next && m.next[s[k]] in m.prev
  {
    assert Before(h, s, k + 1) == s[k] && After(h, s, k) == s[k];
  }

  lemma AppendRings(m: Store, lists: map<Ptr, seq<Ptr>>, on: map<Ptr, Ptr>, h: Ptr, x: Ptr, m1: Store,
                    lists1: map<Ptr, seq<Ptr>>)
    requires Rings(m, lists) && Hung(lists, on) && h in lists && h in m.next && x !in on && x !in lists
    requires m1 == AppendStore(m, h, x) && lists1 == lists[h := [x] + lists[h]]
    ensures Rings(m1, lists1)
  {
    hide Ring;
    var f := m.next[h];
    RingAppend(m, h, lists[h], x);
    FirstLink(m, h, lists[h]);
    forall g | g in lists && g != h ensures Ring(m1, g, lists[g]) {
      Elsewhere(lists, on, h, g, f);
      Elsewhere(lists, on, h, g, h);
      RingFrame(m, m1, g, lists[g]);
    }
  }

  lemma AppendLoose(m: Store, lists: map<Ptr, seq<Ptr>>, on: map<Ptr, Ptr>, h: Ptr, x: Ptr, m1: Store,
                    lists1: map<Ptr, seq<Ptr>>, on1: map<Ptr, Ptr>)
    requires Loose(m, lists, on) && h in lists && h in m.next
    requires m.next[h] in on || m.next[h] in lists
    requires m1 == AppendStore(m, h, x) && lists1 == lists[h := [x] + lists[h]] && on1 == on[x := h]
    ensures Loose(m1, lists1, on1)
  {
  }

  lemma DelLoose(m: Store, lists: map<Ptr, seq<Ptr>>, on: map<Ptr, Ptr>, x: Ptr, s: seq<Ptr>, m1: Store,
                 lists1: map<Ptr, seq<Ptr>>, on1: map<Ptr, Ptr>)
    requires Loose(m, lists, on) && x in on && x in m.next && x in m.prev && on[x] in lists && x !in lists
    requires m.prev[x] in on || m.prev[x] in lists
    requires m.next[x] in on || m.next[x] in lists
    requires m1 == DelStore(m, x) && lists1 == lists[on[x] := s] && on1 == on - {x}
    ensures Loose(m1, lists1, on1)
  {
  }

  lemma AppendKeys(m: Store, lists: map<Ptr, seq<Ptr>>, on: map<Ptr, Ptr>, h: Ptr, x: Ptr, m1: Store,
                   lists1: map<Ptr, seq<Ptr>>, on1: map<Ptr, Ptr>)
    requires Keyed(m, lists, on) && h in lists && h in m.next && m.next[h] in m.prev
    requires m1 == AppendStore(m, h, x) && lists1 == lists[h := [x] + lists[h]] && on1 == on[x := h]
    ensures m1.next.Keys == m.next.Keys + {x} && Keyed(m1, lists1, on1)
  {
  }

  lemma DelKeys(m: Store, lists: map<Ptr, seq<Ptr>>, on: map<Ptr, Ptr>, x: Ptr, s: seq<Ptr>, m1: Store,
                lists1: map<Ptr, seq<Ptr>>, on1: map<Ptr, Ptr>)
    requires Keyed(m, lists, on) && x in on && on[x] in lists && x in m.next && x in m.prev
    requires m.prev[x] in m.next && m.next[x] in m.prev
    requires m1 == DelStore(m, x) && lists1 == lists[on[x] := s] && on1 == on - {x}
    ensures m1.next.Keys == m.next.Keys && Keyed(m1, lists1, on1)
  {
  }

  lemma AppendHung(lists: map<Ptr, seq<Ptr>>, on: map<Ptr, Ptr>, h: Ptr, x: Ptr, lists1: map<Ptr, seq<Ptr>>,
                   on1: map<Ptr, Ptr>)
    requires Hung(lists, on) && h in lists && x !in on && x !in lists
    requires lists1 == lists[h := [x] + lists[h]] && on1 == on[x := h]
    ensures Hung(lists1, on1)
  {
  }

  lemma DelRings(m: Store, lists: map<Ptr, seq<Ptr>>, on: map<Ptr, Ptr>, x: Ptr, k: nat, m1: Store,
                 lists1: map<Ptr, seq<Ptr>>)
    requires Rings(m, lists) && Hung(lists, on) && x in on && k < |lists[on[x]]| && lists[on[x]][k] == x
    requires x in m.next && x in m.prev
    requires m1 == DelStore(m, x) && lists1 == lists[on[x] := Without(lists[on[x]], x)]
    ensures Rings(m1, lists1)
  {
    hide Ring;
    var h := on[x];
    var s := lists[h];
    RingNoDup(m, h, s);
    WithoutAt(s, k);
    RingDel(m, h, s, k);
    MemberLinks(m, h, s, k);
    forall g | g in lists && g != h ensures Ring(m1, g, lists[g]) {
      OtherRing(m, lists, on, x, g, m1);
    }
  }

  lemma RingNoDup(m: Store, h: Ptr, s: seq<Ptr>)
    requires Ring(m, h, s)
    ensures NoDup(s)
  {
  }

  lemma Elsewhere(lists: map<Ptr, seq<Ptr>>, on: map<Ptr, Ptr>, h: Ptr, g: Ptr, p: Ptr)
    requires Hung(lists, on) && h in lists && g in lists && g != h && (p == h || p in lists[h])
    ensures p !in lists[g] && p != g
  {
    if p in lists[h] {
      assert on[p] == h;
    } else {
      assert p !in on;
    }
  }

  /** A deletion writes to members of one list and its head only. */
  lemma OtherRing(m: Store, lists: map<Ptr, seq<Ptr>>, on: map<Ptr, Ptr>, x: Ptr, g: Ptr, m1: Store)
    requires Hung(lists, on) && x in on && g in lists && g != on[x] && Ring(m, g, lists[g])
    requires x in m.next && x in m.prev && m1 == DelStore(m, x)
    requires m.prev[x] == on[x] || m.prev[x] in lists[on[x]]
    requires m.next[x] == on[x] || m.next[x] in lists[on[x]]
    ensures Ring(m1, g, lists[g])
  {
    hide Ring;
    Elsewhere(lists, on, on[x], g, m.prev[x]);
    Elsewhere(lists, on, on[x], g, m.next[x]);
    Elsewhere(lists, on, on[x], g, x);
    RingFrame(m, m1, g, lists[g]);
  }

  lemma DelHung(lists: map<Ptr, seq<Ptr>>, on: map<Ptr, Ptr>, x: Ptr, k: nat, lists1: map<Ptr, seq<Ptr>>,
                on1: map<Ptr, Ptr>)
    requires Hung(lists, on) && x in on && k < |lists[on[x]]| && lists[on[x]][k] == x && NoDup(lists[on[x]])
    requires lists1 == lists[on[x] := Without(lists[on[x]], x)] && on1 == on - {x}
    ensures Hung(lists1, on1)
  {
    hide Without;
    var h := on[x];
    WithoutMembers(lists[h], k);
    forall g, y | g in lists1 && y in lists1[g] ensures y in on1 && on1[y] == g {
      assert y in lists[g];
    }
    forall y | y in on1 ensures on1[y] in lists1 && y in lists1[on1[y]] {
      assert y in lists[on[y]] && y != x;
    }
  }

  lemma WithoutMembers(s: seq<Ptr>, k: nat)
    requires k < |s| && NoDup(s)
    ensures forall y :: y in Without(s, s[k]) <==> y in s && y != s[k]
  {
    WithoutAt(s, k);
    forall y | y in s && y != s[k] ensures y in s[..k] + s[k + 1..] {
      var j :| 0 <= j < |s| && s[j] == y;
      assert y == if j < k then (s[..k] + s[k + 1..])[j] else (s[..k] + s[k + 1..])[j - 1];
    }
  }

  lemma LinkedHead(m: Store, lists: map<Ptr, seq<Ptr>>, on: map<Ptr, Ptr>, h: Ptr)
    requires Rings(m, lists) && Hung(lists, on) && h !in lists && h !in on
    ensures Rings(Store(m.next[h := h], m.prev[h := h]), lists[h := []])
    ensures Hung(lists[h := []], on)
  {
    AddSelf(m, lists, on, h);
    assert Ring(Store(m.next[h := h], m.prev[h := h]), h, []);
  }

  lemma LinkedAppend(m: Store, lists: map<Ptr, seq<Ptr>>, on: map<Ptr, Ptr>, h: Ptr, x: Ptr)
    returns (m1: Store, lists1: map<Ptr, seq<Ptr>>, on1: map<Ptr, Ptr>)
    requires Linked(m, lists, on) && h in lists && x !in on && x !in lists
    ensures h in m.next && m.next[h] in m.prev && m1 == AppendStore(m, h, x)
    ensures lists1 == lists[h := [x] + lists[h]] && on1 == on[x := h]
    ensures m1.next.Keys == m.next.Keys + {x} && Linked(m1, lists1, on1)
  {
    assert Ring(m, h, lists[h]);
    FirstLink(m, h, lists[h]);
    m1, lists1, on1 := AppendStore(m, h, x), lists[h := [x] + lists[h]], on[x := h];
    AppendRings(m, lists, on, h, x, m1, lists1);
    AppendHung(lists, on, h, x, lists1, on1);
    AppendLoose(m, lists, on, h, x, m1, lists1, on1);
    AppendKeys(m, lists, on, h, x, m1, lists1, on1);
  }

  lemma LinkedDel(m: Store, lists: map<Ptr, seq<Ptr>>, on: map<Ptr, Ptr>, x: Ptr)
    returns (m1: Store, lists1: map<Ptr, seq<Ptr>>, on1: map<Ptr, Ptr>)
    requires Linked(m, lists, on) && x in on
    ensures x in m.next && x in m.prev && m.prev[x] in m.next && m.next[x] in m.prev
    ensures m1 == DelStore(m, x) && lists1 == lists[on[x] := Without(lists[on[x]], x)] && on1 == on - {x}
    ensures m1.next.Keys == m.next.Keys && Linked(m1, lists1, on1)
  {
    var h := on[x];
    var s := lists[h];
    var k :| 0 <= k < |s| && s[k] == x;
    assert Ring(m, h, s);
    MemberLinks(m, h, s, k);
    m1, lists1, on1 := DelStore(m, x), lists[h := Without(s, x)], on - {x};
    DelRings(m, lists, on, x, k, m1, lists1);
    DelHung(lists, on, x, k, lists1, on1);
    DelLoose(m, lists, on, x, Without(s, x), m1, lists1, on1);
    DelKeys(m, lists, on, x, Without(s, x), m1, lists1, on1);
  }

  ghost function ListsWithout(lists: map<Ptr, seq<Ptr>>, on: map<Ptr, Ptr>, x: Ptr): map<Ptr, seq<Ptr>>
    requires x in on ==> on[x] in lists
  {
    if x in on then lists[on[x] := Without(lists[on[x]], x)] else lists
  }

  /** list_del of anything: a member leaves its list, a loose object stays as it is. */
  lemma DelAny(m: Store, lists: map<Ptr, seq<Ptr>>, on: map<Ptr, Ptr>, x: Ptr)
    returns (m1: Store, lists1: map<Ptr, seq<Ptr>>, on1: map<Ptr, Ptr>)
    requires Linked(m, lists, on) && x in m.next && x !in lists
    ensures x in m.prev && m.prev[x] in m.next && m.next[x] in m.prev
    ensures m1 == DelStore(m, x) && lists1 == ListsWithout(lists, on, x) && on1 == on - {x}
    ensures m1.next.Keys == m.next.Keys && Linked(m1, lists1, on1)
    ensures lists1.Keys == lists.Keys && (x in on ==> on[x] in lists)
  {
    hide Ring;
    if x in on {
      m1, lists1, on1 := LinkedDel(m, lists, on, x);
    } else {
      m1, lists1, on1 := m, lists, on;
      assert m.next[x] == x && m.prev[x] == x;
      assert DelStore(m, x) == m;
      assert on - {x} == on;
    }
  }

  /** The list heads and the struct List at the head of every struct Page. */
  class ListHeap {
    var m: Store
    /** Members of each list, first one first, and the head each member hangs on. */
    ghost var lists: map<Ptr, seq<Ptr>>
    ghost var on: map<Ptr, Ptr>

    ghost predicate Valid()
      reads this
    {
      Linked(m, lists, on)
    }

    constructor ()
      ensures Valid() && lists == map[] && on == map[] && m == Store(map[], map[])
    {
      m, lists, on := Store(map[], map[]), map[], map[];
    }

    /** list_init on a new list head. */
    method InitHead(h: Ptr)
      requires Valid() && h !in lists && h !in on
      modifies this
      ensures Valid() && lists == old(lists)[h := []] && on == old(on)
    {
      LinkedHead(m, lists, on, h);
      m := Store(m.next[h := h], m.prev[h := h]);
      lists := lists[h := []];
    }

    /** list_init on an object that is on no list. */
    method Init(x: Ptr)
      requires Valid() && x !in lists && x !in on
      modifies this
      ensures Valid() && lists == old(lists) && on == old(on)
      ensures m.next.Keys == old(m.next.Keys) + {x}
    {
      AddSelf(m, lists, on, x);
      m := Store(m.next[x := x], m.prev[x := x]);
    }

    /** list_append: x becomes the first member of list h. */
    method Append(h: Ptr, x: Ptr)
      requires Valid() && h in lists && x !in on && x !in lists
      modifies this
      ensures Valid() && m.next.Keys == old(m.next.Keys) + {x}
      ensures lists == old(lists)[h := [x] + old(lists[h])]
      ensures on == old(on)[x := h]
    {
      hide Linked;
      ghost var m1, lists1, on1 := LinkedAppend(m, lists, on, h, x);
      var next, prev := m.next, m.prev;
      var first := next[h];
      next := next[x := first];
      prev := prev[x := h];
      prev := prev[first := x];
      next := next[h := x];
      var result := Store(next, prev);
      assert result == m1;
      m, lists, on := result, lists1, on1;
    }

    /** list_del: x leaves its list, if it is on one. */
    method Del(x: Ptr)
      requires Valid() && x in m.next && x !in lists
      modifies this
      ensures Valid() && m.next.Keys == old(m.next.Keys)
      ensures x in old(on) ==> old(on)[x] in old(lists)
      ensures lists == ListsWithout(old(lists), old(on), x) && on == old(on) - {x}
      ensures lists.Keys == old(lists.Keys)
    {
      hide Linked, ListsWithout;
      ghost var m1, lists1, on1 := DelAny(m, lists, on, x);
      var next, prev := m.next, m.prev;
      var p, n := prev[x], next[x];
      next := next[p := n];
      prev := prev[n := p];
      next, prev := next[x := x], prev[x := x];
      var result := Store(next, prev);
      assert result == m1;
      m, lists, on := result, lists1, on1;
    }

    /** The first member of a list is where its head points. */
    lemma First(h: Ptr)
      requires Valid() && h in lists
      ensures h in m.next && m.next[h] == (if |lists[h]| > 0 then lists[h][0] else h)
    {
      assert Ring(m, h, lists[h]);
      FirstLink(m, h, lists[h]);
    }

    /** Following next from the k-th member leads to the following one, and from the last
        one back to the head. */
    lemma Following(h: Ptr, k: nat)
      requires Valid() && h in lists && k < |lists[h]|
      ensures lists[h][k] in m.next
      ensures m.next[lists[h][k]] == if k + 1 < |lists[h]| then lists[h][k + 1] else h
    {
      assert Ring(m, h, lists[h]);
      MemberLinks(m, h, lists[h], k);
    }

    /** Members of one list are distinct and hang on its head. */
    lemma Members(h: Ptr)
      requires Valid() && h in lists
      ensures NoDup(lists[h]) && h !in on
      ensures forall k :: 0 <= k < |lists[h]| ==> lists[h][k] in on && on[lists[h][k]] == h
      ensures forall p :: p in on && on[p] == h ==> p in lists[h]
      ensures forall p :: p in on ==> on[p] in lists
    {
      assert Ring(m, h, lists[h]);
      forall k | 0 <= k < |lists[h]| ensures lists[h][k] in on && on[lists[h][k]] == h {
        assert lists[h][k] in lists[h];
      }
    }

    /** What is on no list points to itself. */
    lemma LooseSelf(x: Ptr)
      requires Valid() && x in m.next && x !in on && x !in lists
      ensures m.next[x] == x
    {
    }

    /** x->next. */
    function Next(x: Ptr): (n: Ptr)
      requires x in m.next
      reads this
    {
      m.next[x]
    }
  }

  lemma AddSelf(m: Store, lists: map<Ptr, seq<Ptr>>, on: map<Ptr, Ptr>, x: Ptr)
    requires Rings(m, lists) && Hung(lists, on) && x !in lists && x !in on
    ensures Rings(Store(m.next[x := x], m.prev[x := x]), lists)
  {
    forall g | g in lists ensures Ring(Store(m.next[x := x], m.prev[x := x]), g, lists[g]) {
      RingFrame(m, Store(m.next[x := x], m.prev[x := x]), g, lists[g]);
    }
  }
}
