/**
 The lists of kern/pmap.c exactly as written: list_append does not set the back link of
 the member that was first. What such a list is, and exactly when list_del is right.
 */
module ListsAsWritten {
  import opened BuddyTree
  import opened Lists

  /** The three writes of list_append. */
  function Put(m: Store, h: Ptr, x: Ptr): (r: Store)
    requires h in m.next
  {
    Store(m.next[x := m.next[h]][h := x], m.prev[x := h])
  }

  /** What a list built by these appends is: the next links run through the members and
      back to the head, but every back link leads to the head. */
  ghost predicate Strung(m: Store, h: Ptr, s: seq<Ptr>) {
    && NoDup(s) && h !in s && h in m.prev
    && (forall i :: 0 <= i <= |s| ==> Before(h, s, i) in m.next && m.next[Before(h, s, i)] == After(h, s, i))
    && (forall i :: 0 <= i < |s| ==> s[i] in m.prev && m.prev[s[i]] == h)
  }

  /** The list functions over one set of links. */
  class RawLists {
    var m: Store

    constructor ()
      ensures m == Store(map[], map[])
    {
      m := Store(map[], map[]);
    }

    /** list_init. */
    method Init(h: Ptr)
      modifies this
      ensures m == Store(old(m).next[h := h], old(m).prev[h := h]) && Strung(m, h, [])
    {
      m := Store(m.next[h := h], m.prev[h := h]);
      assert Before(h, [], 0) == h;
    }

    /** list_append. */
    method Append(h: Ptr, x: Ptr, ghost s: seq<Ptr>)
      requires Strung(m, h, s) && x != h && x !in s
      modifies this
      ensures Strung(m, h, [x] + s)
      ensures forall y :: y != h && y != x && y in old(m).next ==> y in m.next && m.next[y] == old(m).next[y]
      ensures forall y :: y != x && y in old(m).prev ==> y in m.prev && m.prev[y] == old(m).prev[y]
    {
      assert Before(h, s, 0) == h;
      PutStrung(m, h, s, x);
      var next := m.next[x := m.next[h]];
      m := Store(next[h := x], m.prev[x := h]);
    }

    /** list_del of a member: what is left is what came after it. */
    method Del(h: Ptr, ghost s: seq<Ptr>, ghost k: nat, x: Ptr)
      requires Strung(m, h, s) && k < |s| && s[k] == x
      modifies this
      ensures x in old(m).next && x in old(m).prev
      ensures m == DelStore(old(m), x) && Strung(m, h, s[k + 1..])
      ensures x in m.next && x in m.prev && m.next[x] == x && m.prev[x] == x
    {
      StrungMember(m, h, s, k);
      DelStrung(m, h, s, k);
      var p, n := m.prev[x], m.next[x];
      var next, prev := m.next[p := n], m.prev[n := p];
      m := Store(next[x := x], prev[x := x]);
    }
  }

  lemma StrungMember(m: Store, h: Ptr, s: seq<Ptr>, k: nat)
    requires Strung(m, h, s) && k < |s|
    ensures h in m.next && s[k] in m.next && s[k] in m.prev && m.prev[s[k]] == h && m.next[s[k]] == After(h, s, k + 1)
  {
    assert Before(h, s, 0) == h && Before(h, s, k + 1) == s[k];
  }

  lemma PutStrung(m: Store, h: Ptr, s: seq<Ptr>, x: Ptr)
    requires Strung(m, h, s) && x != h && x !in s && h in m.next
    ensures Strung(Put(m, h, x), h, [x] + s)
  {
    var t, m1 := [x] + s, Put(m, h, x);
    assert Before(h, s, 0) == h;
    forall i | 0 <= i <= |t| ensures Before(h, t, i) in m1.next && m1.next[Before(h, t, i)] == After(h, t, i) {
      if i > 1 {
        assert Before(h, t, i) == Before(h, s, i - 1) && After(h, t, i) == After(h, s, i - 1);
      }
    }
  }

  lemma DelStrung(m: Store, h: Ptr, s: seq<Ptr>, k: nat)
    requires Strung(m, h, s) && k < |s| && s[k] in m.next && s[k] in m.prev
    ensures Strung(DelStore(m, s[k]), h, s[k + 1..])
  {
    var t, m1 := s[k + 1..], DelStore(m, s[k]);
    StrungMember(m, h, s, k);
    forall i | 0 <= i <= |t| ensures Before(h, t, i) in m1.next && m1.next[Before(h, t, i)] == After(h, t, i) {
      if i > 0 {
        assert Before(h, t, i) == Before(h, s, k + 1 + i) && After(h, t, i) == After(h, s, k + 1 + i);
      }
    }
  }

  /** A list has one reading. */
  lemma {:induction false} OneReading(m: Store, h: Ptr, s: seq<Ptr>, t: seq<Ptr>, n: nat)
    requires Strung(m, h, s) && Strung(m, h, t) && n <= |s| && n <= |t| && s[..n] == t[..n]
    ensures s == t
    decreases |s| - n
  {
    assert Before(h, s, n) == Before(h, t, n);
    assert After(h, s, n) == After(h, t, n);
    if n < |s| && n < |t| {
      OneReading(m, h, s, t, n + 1);
    }
  }

  /** list_del takes out the member and nothing else exactly when the member is the first
      one: otherwise the members ahead of it go as well. */
  lemma DelExactIff(m: Store, h: Ptr, s: seq<Ptr>, k: nat)
    requires Strung(m, h, s) && k < |s|
    ensures s[k] in m.next && s[k] in m.prev
    ensures Strung(DelStore(m, s[k]), h, s[..k] + s[k + 1..]) <==> k == 0
  {
    StrungMember(m, h, s, k);
    DelStrung(m, h, s, k);
    var left, meant := s[k + 1..], s[..k] + s[k + 1..];
    if Strung(DelStore(m, s[k]), h, meant) {
      OneReading(DelStore(m, s[k]), h, left, meant, 0);
      assert |meant| == |left|;
    } else {
      assert k == 0 ==> meant == left;
    }
  }

  /** n steps along the next links. */
  function Steps(m: Store, p: Ptr, n: nat): (q: Ptr)
    decreases n
  {
    if n == 0 || p !in m.next then p else Steps(m, m.next[p], n - 1)
  }

  function Onward(chain: seq<Ptr>, i: nat): (j: nat)
    requires i < |chain|
    ensures j < |chain|
  {
    if i + 1 < |chain| then i + 1 else i
  }

  /** The members ahead of a deleted one keep a chain that ends in the deleted node, which
      points to itself. */
  ghost predicate Stray(m: Store, h: Ptr, chain: seq<Ptr>) {
    && |chain| > 0 && h !in chain
    && (forall i :: 0 <= i < |chain| ==> chain[i] in m.next)
    && (forall i :: 0 <= i < |chain| ==> m.next[chain[i]] == chain[Onward(chain, i)])
  }

  lemma {:induction false} StrayNeverReturns(m: Store, h: Ptr, chain: seq<Ptr>, j: nat, n: nat)
    requires Stray(m, h, chain) && j < |chain|
    ensures Steps(m, chain[j], n) in chain
    decreases n
  {
    hide Onward;
    if n > 0 {
      StrayNeverReturns(m, h, chain, Onward(chain, j), n - 1);
    }
  }

  /** The members ahead of s[k] and after s[j], once both are deleted. */
  lemma LostChain(m: Store, h: Ptr, s: seq<Ptr>, k: nat, j: nat) returns (m2: Store, chain: seq<Ptr>)
    requires Strung(m, h, s) && j < k < |s| && h in m.next
    ensures s[k] in m.next && s[k] in m.prev
    ensures var m1 := DelStore(m, s[k]);
      s[j] in m1.next && s[j] in m1.prev && m2 == DelStore(m1, s[j]) && h in m2.next
    ensures Stray(m2, h, chain) && m2.next[h] == chain[0]
  {
    hide Steps;
    StrungMember(m, h, s, k);
    StrungMember(m, h, s, j);
    var m1 := DelStore(m, s[k]);
    m2 := DelStore(m1, s[j]);
    chain := s[j + 1..k + 1];
    assert m1.next[s[j]] == s[j + 1] && m1.prev[s[j]] == h;
    forall i | 0 <= i < |chain|
      ensures chain[i] in m2.next && m2.next[chain[i]] == chain[Onward(chain, i)]
    {
      StrungMember(m, h, s, j + 1 + i);
    }
  }

  /** Once a member that is not first has been deleted, deleting one of those ahead of it
      leaves a list on which no walk from the head ever comes back to the head: the search
      loop of alloc_page does not end. */
  lemma LostMembersTrapTheWalk(m: Store, h: Ptr, s: seq<Ptr>, k: nat, j: nat, n: nat)
    requires Strung(m, h, s) && j < k < |s| && h in m.next
    ensures s[k] in m.next && s[k] in m.prev
    ensures var m1 := DelStore(m, s[k]);
      && s[j] in m1.next && s[j] in m1.prev && h in DelStore(m1, s[j]).next
      && Steps(DelStore(m1, s[j]), DelStore(m1, s[j]).next[h], n) != h
  {
    hide Strung, Steps, DelStore;
    var m2, chain := LostChain(m, h, s, k, j);
    StrayNeverReturns(m2, h, chain, 0, n);
  }

  /** The free-descriptor list is only ever pushed and popped at its head, and is exact. */
  datatype StackOp = Push(x: Ptr) | Pop

  ghost predicate Runs(m: Store, h: Ptr, ops: seq<StackOp>, s: seq<Ptr>, m1: Store, s1: seq<Ptr>)
    decreases |ops|
  {
    if ops == [] then m1 == m && s1 == s
    else match ops[0]
      case Push(x) =>
        x != h && x !in s && h in m.next && Runs(Put(m, h, x), h, ops[1..], [x] + s, m1, s1)
      case Pop =>
        && |s| > 0 && h in m.next && m.next[h] in m.next && m.next[h] in m.prev
        && Runs(DelStore(m, m.next[h]), h, ops[1..], s[1..], m1, s1)
  }

  lemma {:induction false} StackExact(m: Store, h: Ptr, ops: seq<StackOp>, s: seq<Ptr>, m1: Store, s1: seq<Ptr>)
    requires Strung(m, h, s) && Runs(m, h, ops, s, m1, s1)
    ensures Strung(m1, h, s1)
    decreases |ops|
  {
    if ops != [] {
      match ops[0]
      case Push(x) =>
        PutStrung(m, h, s, x);
        StackExact(Put(m, h, x), h, ops[1..], [x] + s, m1, s1);
      case Pop =>
        StrungMember(m, h, s, 0);
        assert Before(h, s, 0) == h;
        DelStrung(m, h, s, 0);
        StackExact(DelStore(m, s[0]), h, ops[1..], s[1..], m1, s1);
    }
  }
}
