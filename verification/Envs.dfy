/**
 The environment table of kern/env.c with the scheduler of kern/sched.c running on it:
 slots in an array, a free list threaded through them, and ids that tell successive users
 of a slot apart.
 */
module Envs {
  import opened Sched
  import opened EnvIds

  const E_BAD_ENV: int := 2
  const E_NO_FREE_ENV: int := 5

  /** struct Env without its registers and address space; -1 is the null link. */
  datatype Env = Env(link: int, id: int, parent: int, status: Status, runs: nat)

  datatype Outcome = Runs(slot: nat) | Halts | Monitor

  function Statuses(es: seq<Env>): (st: seq<Status>)
    ensures |st| == |es| && forall i :: 0 <= i < |es| ==> st[i] == es[i].status
  {
    seq(|es|, i requires 0 <= i < |es| => es[i].status)
  }

  function LinkAt(free: seq<nat>, i: nat): (p: int) {
    if i + 1 < |free| then free[i + 1] else -1
  }

  /** The links lead through the free slots in this order. */
  ghost predicate Threaded(es: seq<Env>, first: int, free: seq<nat>) {
    && (forall i :: 0 <= i < |free| ==> free[i] < |es|)
    && (forall i, j :: 0 <= i < j < |free| ==> free[i] != free[j])
    && first == (if free == [] then -1 else free[0])
    && (forall i :: 0 <= i < |free| ==> es[free[i]].link == LinkAt(free, i))
  }

  /** Every slot has the id of its latest allocation. */
  ghost predicate Stamped(es: seq<Env>, issued: seq<nat>) {
    && |issued| == |es|
    && (forall i :: 0 <= i < |es| ==> es[i].id == IdOf(i, issued[i]))
    && (forall i :: 0 <= i < |es| && es[i].status != Free ==> issued[i] > 0)
  }

  lemma ThreadedTail(es: seq<Env>, first: int, free: seq<nat>, fs: seq<Env>)
    requires Threaded(es, first, free) && free != [] && |fs| == |es|
    requires forall i :: 0 <= i < |es| && i != free[0] ==> fs[i].link == es[i].link
    ensures Threaded(fs, es[free[0]].link, free[1..])
    ensures forall x :: x in free[1..] <==> x in free && x != free[0]
  {
    var rest := free[1..];
    assert es[free[0]].link == LinkAt(free, 0);
    forall i | 0 <= i < |rest| ensures fs[rest[i]].link == LinkAt(rest, i) {
      assert es[free[i + 1]].link == LinkAt(free, i + 1);
    }
    forall x | x in free && x != free[0] ensures x in rest {
      var i :| 0 <= i < |free| && free[i] == x;
      assert rest[i - 1] == x;
    }
  }

  lemma StampNext(es: seq<Env>, issued: seq<nat>, slot: nat, fs: seq<Env>)
    requires Stamped(es, issued) && slot < |es| == |fs| == NENV
    requires forall i :: 0 <= i < |es| && i != slot ==> fs[i] == es[i]
    requires fs[slot].id == NextId(es[slot].id, slot)
    ensures Stamped(fs, issued[slot := issued[slot] + 1]) && fs[slot].id == IdOf(slot, issued[slot] + 1)
  {
    NextIdIs(slot, issued[slot]);
  }

  lemma KeptLinks(es: seq<Env>, fs: seq<Env>, first: int, free: seq<nat>, issued: seq<nat>)
    requires Threaded(es, first, free) && Stamped(es, issued) && |fs| == |es|
    requires forall i :: 0 <= i < |es| ==> fs[i].link == es[i].link && fs[i].id == es[i].id
    requires forall i :: 0 <= i < |es| ==> (fs[i].status == Free <==> es[i].status == Free)
    ensures Threaded(fs, first, free) && Stamped(fs, issued)
  {
  }

  lemma ThreadedHead(es: seq<Env>, first: int, free: seq<nat>, i: nat, fs: seq<Env>)
    requires Threaded(es, first, free) && i < |es| == |fs| && i !in free
    requires forall k :: 0 <= k < |es| && k != i ==> fs[k].link == es[k].link
    requires fs[i].link == first
    ensures Threaded(fs, i, [i] + free)
  {
    var more := [i] + free;
    forall k | 0 <= k < |more| ensures fs[more[k]].link == LinkAt(more, k) {
      if k > 0 {
        assert free[k - 1] in free;
        assert es[free[k - 1]].link == LinkAt(free, k - 1);
      }
    }
  }

  /** Live environments have different ids. */
  lemma IdsDiffer(es: seq<Env>, issued: seq<nat>, i: nat, j: nat)
    requires |es| == NENV && Stamped(es, issued) && i < NENV && j < NENV && i != j
    requires issued[i] > 0 && issued[j] > 0
    ensures es[i].id != es[j].id
  {
    NextIdIs(i, issued[i] - 1);
    NextIdIs(j, issued[j] - 1);
  }

  lemma FirstTable(es: seq<Env>, free: seq<nat>, issued: seq<nat>)
    requires |es| == |free| == |issued| == NENV
    requires forall i :: 0 <= i < NENV ==> es[i] == Env(if i < NENV - 1 then i + 1 else -1, 0, 0, Free, 0)
    requires forall i :: 0 <= i < NENV ==> free[i] == i && issued[i] == 0
    ensures Threaded(es, 0, free) && Stamped(es, issued)
    ensures forall i: nat :: i < NENV ==> i in free
  {
    forall i: nat | i < NENV ensures i in free {
      assert free[i] == i;
    }
  }

  lemma CreateStep(v: View, slot: nat, w: View)
    requires Sane(v) && slot < NENV && v.st[slot] == Free && |w.st| == NENV && w.cur == v.cur
    requires forall i :: 0 <= i < NENV ==> w.st[i] == if i == slot then Runnable else v.st[i]
    ensures Step(v, Create, w) && Sane(w)
  {
    assert w.st == v.st[slot := Runnable];
  }

  lemma ExitStep(v: View, g: View)
    requires Sane(v) && Sane(g) && v.cur >= 0 && v.st[v.cur] == Running && g == v.(st := v.st[v.cur := Free])
    ensures forall w :: YieldStep(g, w) ==> Step(v, Exit, w)
  {
    hide YieldStep;
  }

  lemma RunSane(v: View, i: nat)
    requires Sane(v) && i < NENV
    ensures Sane(RunEnv(v, i))
  {
  }

  lemma IdleOthers(v: View)
    requires Sane(v) && Sched.Idle(v)
    ensures forall k :: 0 <= k < NENV && k != v.cur ==> v.st[k] != Runnable
  {
    forall k | 0 <= k < NENV && k != v.cur ensures v.st[k] != Runnable {
      assert !Candidate(v, k);
    }
  }

  lemma HaltStep(v: View)
    requires Sane(v) && Sched.Idle(v) && (v.cur >= 0 ==> v.st[v.cur] != Running)
    ensures AnyBusy(v) ==> YieldStep(v, v.(cur := -1)) && Sane(v.(cur := -1))
    ensures !AnyBusy(v) ==> YieldStep(v, v)
    ensures forall i :: 0 <= i < NENV && v.st[i] == Runnable ==> i == v.cur
  {
    forall i | 0 <= i < NENV && v.st[i] == Runnable ensures i == v.cur {
      assert !Candidate(v, i);
    }
  }

  lemma InRange(v: View)
    requires Sane(v)
    ensures -1 <= v.cur < NENV && |v.st| == NENV
  {
  }

  /** The first candidate in the order of the two loops is the nearest one. */
  lemma Nearest(v: View, i: int, num: int)
    requires -1 <= v.cur < NENV && |v.st| == NENV && Candidate(v, i) && num == (if v.cur < 0 then 0 else v.cur + 1)
    requires i >= num ==> forall j :: num <= j < i ==> !Candidate(v, j)
    requires i < num ==> forall j :: num <= j < NENV || 0 <= j < i ==> !Candidate(v, j)
    ensures Chosen(v, i)
  {
    forall j | Candidate(v, j) ensures Rank(v.cur, i) <= Rank(v.cur, j) {
    }
  }

  class Table {
    const envs: array<Env>
    var freeList: int
    var cur: int
    ghost var free: seq<nat>
    /** How often each slot has been allocated. */
    ghost var issued: seq<nat>

    ghost function V(): View
      reads this, envs
    {
      View(Statuses(envs[..]), cur)
    }

    ghost predicate Valid()
      reads this, envs
    {
      && envs.Length == NENV && |issued| == NENV && Sane(V())
      && Threaded(envs[..], freeList, free) && Stamped(envs[..], issued)
      && (forall i: nat :: i < NENV ==> (i in free <==> envs[i].status == Free))
    }

    /** env_init: every slot free, in the order of the table. */
    constructor ()
      ensures Valid() && fresh(envs) && cur == -1 && |free| == envs.Length == 1024
      ensures forall i :: 0 <= i < NENV ==> free[i] == i && issued[i] == 0
    {
      envs := new Env[NENV](i => Env(i + 1, 0, 0, Free, 0));
      freeList, cur := 0, -1;
      free := seq(NENV, i => i);
      issued := seq(NENV, i => 0);
      new;
      hide Statuses, Valid;
      envs[NENV - 1] := envs[NENV - 1].(link := -1);
      FirstValid();
    }

    lemma FirstValid()
      requires envs.Length == |free| == |issued| == NENV && freeList == 0 && cur == -1
      requires forall i :: 0 <= i < NENV ==> envs[i] == Env(if i < NENV - 1 then i + 1 else -1, 0, 0, Free, 0)
      requires forall i :: 0 <= i < NENV ==> free[i] == i && issued[i] == 0
      ensures Valid()
    {
      hide Statuses;
      FirstTable(envs[..], free, issued);
      hide Threaded, Stamped;
    }

    /** env_alloc. */
    method Alloc(parent: int) returns (error: int, slot: int)
      requires Valid()
      modifies this`freeList, this`free, this`issued, envs
      ensures Valid()
      ensures error == 0 <==> exists i :: 0 <= i < NENV && old(envs[i].status) == Free
      ensures error != 0 ==> error == -5 && slot == -1 && envs[..] == old(envs[..]) && free == old(free)
      ensures error == 0 ==>
        0 <= slot < NENV && old(free) == [slot] + free && issued == old(issued)[slot := old(issued)[slot] + 1]
      ensures error == 0 ==> envs[slot] == Env(old(envs[slot].link), IdOf(slot, issued[slot]), parent, Runnable, 0)
      ensures error == 0 ==> forall i :: 0 <= i < NENV && i != slot ==> envs[i] == old(envs[i])
      ensures error == 0 ==> Step(old(V()), Create, V())
    {
      hide Statuses, Sane, Step, Stamped, IdOf, Threaded, Valid;
      FreeFacts();
      if freeList < 0 {
        return -E_NO_FREE_ENV, -1;
      }
      slot := Take(parent);
      error := 0;
    }

    lemma FreeFacts()
      requires Valid()
      ensures envs.Length == |issued| == NENV
      ensures freeList < 0 <==> free == []
      ensures free != [] ==> freeList == free[0] < NENV && envs[free[0]].status == Free
      ensures free == [] <==> forall i :: 0 <= i < NENV ==> envs[i].status != Free
    {
      if free != [] {
        assert free[0] in free;
      } else {
        assert forall i: nat :: i < NENV ==> i !in free;
      }
    }

    method Take(parent: int) returns (slot: nat)
      requires Valid() && free != [] && freeList == free[0] < NENV && envs[free[0]].status == Free
      modifies this`freeList, this`free, this`issued, envs
      ensures Valid() && slot == old(freeList) && free == old(free)[1..]
      ensures issued == old(issued)[slot := old(issued)[slot] + 1]
      ensures envs[slot] == Env(old(envs[slot].link), IdOf(slot, issued[slot]), parent, Runnable, 0)
      ensures forall i :: 0 <= i < NENV && i != slot ==> envs[i] == old(envs[i])
      ensures Step(old(V()), Create, V())
    {
      hide Statuses, Step, Threaded, Stamped, IdOf;
      ghost var es, v := envs[..], V();
      slot := freeList;
      var env := envs[slot];
      var generation := MaskOff(Wrap32(env.id + GEN));
      if generation <= 0 {
        generation := GEN;
      }
      envs[slot] := env.(id := generation + slot, parent := parent, status := Runnable, runs := 0);
      freeList := env.link;
      assert envs[slot].id == NextId(env.id, slot);
      hide NextId, MaskOff, Wrap32;
      ghost var fs := envs[..];
      assert fs[slot] == envs[slot] && forall i :: 0 <= i < NENV && i != slot ==> fs[i] == es[i];
      ThreadedTail(es, slot, free, fs);
      StampNext(es, issued, slot, fs);
      issued := issued[slot := issued[slot] + 1];
      free := free[1..];
      CreateStep(v, slot, V());
    }

    /** env_free of a live environment. */
    method Release(slot: nat)
      requires Valid() && slot < NENV && envs[slot].status != Free
      modifies this`freeList, this`free, envs
      ensures Valid() && free == [slot] + old(free) && V() == old(V()).(st := old(V().st)[slot := Free])
      ensures envs[slot] == old(envs[slot]).(status := Free, link := old(freeList))
      ensures forall i :: 0 <= i < NENV && i != slot ==> envs[i] == old(envs[i])
    {
      hide Threaded;
      ghost var es, v := envs[..], V();
      envs[slot] := envs[slot].(status := Free);
      envs[slot] := envs[slot].(link := freeList);
      ThreadedHead(es, freeList, free, slot, envs[..]);
      freeList := slot;
      free := [slot] + free;
      assert V().st == v.st[slot := Free];
    }

    /** An id in use tells its slot. */
    lemma OnlySlot(id: int)
      requires Valid()
      ensures forall i: nat :: i < NENV && envs[i].status != Free && envs[i].id == id ==> i == EnvX(id)
    {
      hide Threaded, Sane;
      forall i: nat | i < NENV && envs[i].status != Free && envs[i].id == id ensures i == EnvX(id) {
        NextIdIs(i, issued[i] - 1);
      }
    }

    /** envid2env: 0 means curenv; any other id is found exactly when a live environment has
        it and curenv may handle it. */
    method Lookup(id: int, check: bool) returns (error: int, slot: int)
      requires Valid() && -MAX31 <= id < MAX31 && (check ==> cur >= 0)
      ensures id == 0 ==> error == 0 && slot == cur
      ensures id != 0 ==> (error == 0 <==>
        exists i :: 0 <= i < NENV && envs[i].status != Free && envs[i].id == id &&
                  (check ==> i == cur || envs[i].parent == envs[cur].id))
      ensures id != 0 && error == 0 ==> 0 <= slot < NENV && envs[slot].status != Free && envs[slot].id == id
      ensures error != 0 ==> error == -2 && slot == -1
    {
      if id == 0 {
        return 0, cur;
      }
      slot := EnvX(id);
      OnlySlot(id);
      if envs[slot].status == Free || envs[slot].id != id {
        return -E_BAD_ENV, -1;
      }
      if check && slot != cur && envs[slot].parent != envs[cur].id {
        return -E_BAD_ENV, -1;
      }
      error := 0;
    }

    /** The id a slot had j allocations ago is not found any more, as long as fewer than
        2^19 - 1 allocations of the slot have gone by. */
    method LookupStale(slot: nat, j: nat, check: bool) returns (error: int)
      requires Valid() && slot < NENV && 0 < j < issued[slot] && issued[slot] - j < PERIOD && (check ==> cur >= 0)
      ensures error == -2
    {
      hide Threaded, Sane, Statuses;
      NextIdIs(slot, j - 1);
      FreshIds(slot, j, issued[slot]);
      forall i: nat | i < NENV && envs[i].status != Free ensures envs[i].id != IdOf(slot, j) {
        NextIdIs(i, issued[i] - 1);
      }
      var found;
      error, found := Lookup(IdOf(slot, j), check);
    }

    /** env_run, up to the switch to the new environment. */
    method RunSlot(i: nat)
      requires Valid() && i < NENV && envs[i].status != Free
      modifies this`cur, envs
      ensures Valid() && V() == RunEnv(old(V()), i) && cur == i
      ensures envs[i] == old(envs[i]).(status := Running, runs := (old(envs[i].runs) + 1) % MOD32)
      ensures forall k :: 0 <= k < NENV && k != i && (k != old(cur) || old(envs[k].status) != Running) ==>
        envs[k] == old(envs[k])
      ensures var c := old(cur); c >= 0 && c != i && old(envs[c].status) == Running ==>
        envs[c] == old(envs[c]).(status := Runnable)
    {
      hide Statuses, Threaded, Stamped;
      ghost var es, v := envs[..], V();
      RunSane(v, i);
      if cur >= 0 {
        if envs[cur].status == Running {
          envs[cur] := envs[cur].(status := Runnable);
        }
      }
      cur := i;
      envs[cur] := envs[cur].(status := Running);
      envs[cur] := envs[cur].(runs := (envs[cur].runs + 1) % MOD32);
      KeptLinks(es, envs[..], freeList, free, issued);
      assert V().st == RunEnv(v, i).st;
      hide Sane, RunEnv;
    }

    /** sched_yield. Interrupts and context switches aside, it ends in env_run, in a halted
        processor, or in the monitor. */
    method YieldCpu() returns (o: Outcome)
      requires Valid()
      modifies this`cur, envs
      ensures Valid() && YieldStep(old(V()), V())
      ensures o.Runs? ==> cur == o.slot && envs[o.slot].status == Running
      ensures o.Runs? ==> old(envs[o.slot].status) == if o.slot == old(cur) then Running else Runnable
      ensures o.Runs? ==> forall k :: 0 <= k < NENV && (k - old(cur) - 1) % 1024 < (o.slot - old(cur) - 1) % 1024 ==>
        old(envs[k].status) != Runnable
      ensures o.Runs? ==> forall k :: 0 <= k < NENV && k != o.slot ==>
        envs[k] == old(envs[k]).(status := if k == old(cur) && old(envs[k].status) == Running then Runnable
                                           else old(envs[k].status))
      ensures o.Halts? ==> cur == -1 && envs[..] == old(envs[..])
      ensures o.Halts? ==> forall i :: 0 <= i < NENV && envs[i].status == Runnable ==> i == old(cur)
      ensures o.Monitor? <==> forall i :: 0 <= i < NENV ==> !Busy(old(envs[i].status))
      ensures o.Monitor? ==> cur == old(cur) && envs[..] == old(envs[..])
    {
      hide Statuses, Threaded, Stamped, Rank, RunEnv;
      ghost var v := V();
      var next := NextSlot();
      if next >= 0 {
        assert Busy(envs[next].status);
        ChosenIsNext(v, next);
        RunSlot(next);
        return Runs(next);
      }
      if cur >= 0 && envs[cur].status == Running {
        assert Busy(envs[cur].status);
        IdleOthers(v);
        RunSlot(cur);
        return Runs(cur);
      }
      o := Halt();
    }

    /** The two loops of sched_yield: the slots after curenv, then those up to it. */
    method NextSlot() returns (next: int)
      requires Valid()
      ensures next == -1 ==> Sched.Idle(V())
      ensures next != -1 ==> Chosen(V(), next)
    {
      hide Statuses, Threaded, Stamped, Rank, Sane;
      ghost var v := V();
      assert -1 <= v.cur == cur < NENV && |v.st| == NENV by {
        InRange(v);
      }
      var num := if cur < 0 then 0 else cur + 1;
      for i := num to NENV
        invariant forall j :: num <= j < i ==> !Candidate(v, j)
      {
        if envs[i].status == Runnable && cur != i {
          Nearest(v, i, num);
          return i;
        }
      }
      for i := 0 to num
        invariant forall j :: num <= j < NENV ==> !Candidate(v, j)
        invariant forall j :: 0 <= j < i ==> !Candidate(v, j)
      {
        if envs[i].status == Runnable && cur != i {
          Nearest(v, i, num);
          return i;
        }
      }
      next := -1;
    }

    /** sched_halt: the monitor, if nothing is left to run. */
    method Halt() returns (o: Outcome)
      requires Valid() && Sched.Idle(V()) && (cur >= 0 ==> envs[cur].status != Running)
      modifies this`cur
      ensures Valid() && YieldStep(old(V()), V()) && !o.Runs?
      ensures o.Halts? ==> cur == -1 && forall i :: 0 <= i < NENV && envs[i].status == Runnable ==> i == old(cur)
      ensures o.Monitor? <==> forall i :: 0 <= i < NENV ==> !Busy(envs[i].status)
      ensures o.Monitor? ==> cur == old(cur)
    {
      hide Statuses, Threaded, Stamped;
      ghost var v := V();
      HaltStep(v);
      hide YieldStep;
      var i := 0;
      while i < NENV && !Busy(envs[i].status)
        invariant 0 <= i <= NENV && forall j :: 0 <= j < i ==> !Busy(envs[j].status)
      {
        i := i + 1;
      }
      if i == NENV {
        assert v == V();
        return Monitor;
      }
      assert Busy(v.st[i]);
      cur := -1;
      o := Halts;
    }

    /** csys_exit of the running environment. */
    method Exit() returns (o: Outcome)
      requires Valid() && cur >= 0 && envs[cur].status == Running
      modifies this`freeList, this`free, this`cur, envs
      ensures Valid() && Step(old(V()), Sched.Exit, V()) && free == [old(cur)] + old(free)
      ensures envs[old(cur)].status == Free
      ensures o.Runs? ==> cur == o.slot && envs[o.slot].status == Running && old(envs[o.slot].status) == Runnable
      ensures o.Runs? ==> forall k :: 0 <= k < NENV && k != o.slot && k != old(cur) ==> envs[k] == old(envs[k])
      ensures !o.Runs? ==> forall k :: 0 <= k < NENV && k != old(cur) ==> envs[k] == old(envs[k])
      ensures o.Monitor? <==> forall k :: 0 <= k < NENV && k != old(cur) ==>
        old(envs[k].status) != Runnable && old(envs[k].status) != Running
    {
      hide Statuses, Threaded, Stamped, YieldStep, Sane;
      ghost var v := V();
      InRange(v);
      Release(cur);
      ExitStep(v, V());
      o := YieldCpu();
      InRange(V());
    }
  }
}
