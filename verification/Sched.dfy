/**
 The round-robin scheduler of kern/sched.c as steps on the status of every slot of the
 environment table: who runs next, and how long anybody waits.
 */
module Sched {

  const NENV: nat := 1024

  datatype Status = Free | Dying | Runnable | Running | NotRunnable

  /** What the scheduler looks at: the status of every slot, and curenv (-1 for NULL). */
  datatype View = View(st: seq<Status>, cur: int)

  /** At most one environment is running, and it is curenv. */
  predicate Sane(v: View) {
    && |v.st| == NENV && -1 <= v.cur < NENV
    && forall i :: 0 <= i < NENV && v.st[i] == Running ==> i == v.cur
  }

  /** How many slots the search of sched_yield looks at before slot s. curenv's own slot is
      skipped by the search and comes last. */
  function Rank(cur: int, s: int): (r: int) {
    if cur < 0 then s
    else if s == cur then NENV
    else if s > cur then s - cur - 1
    else s - cur - 1 + NENV
  }

  predicate Candidate(v: View, i: int) {
    0 <= i < |v.st| && v.st[i] == Runnable && i != v.cur
  }

  ghost predicate Chosen(v: View, i: int) {
    Candidate(v, i) && forall j :: Candidate(v, j) ==> Rank(v.cur, i) <= Rank(v.cur, j)
  }

  /** env_run: the status changes and curenv. */
  function RunEnv(v: View, i: int): (w: View)
    requires |v.st| == NENV && v.cur < NENV && 0 <= i < NENV
  {
    var st := if v.cur >= 0 && v.st[v.cur] == Running then v.st[v.cur := Runnable] else v.st;
    View(st[i := Running], i)
  }

  predicate Busy(s: Status) {
    s == Runnable || s == Running
  }

  ghost predicate Idle(v: View) {
    forall i :: !Candidate(v, i)
  }

  ghost predicate AnyBusy(v: View) {
    exists i :: 0 <= i < |v.st| && Busy(v.st[i])
  }

  /** sched_yield: the nearest runnable slot after curenv; else curenv itself if it was
      running; else halt, with curenv cleared unless there is nothing left to run. */
  ghost predicate YieldStep(v: View, w: View)
    requires Sane(v)
  {
    if Idle(v) then
      if v.cur >= 0 && v.st[v.cur] == Running then w == RunEnv(v, v.cur)
      else if AnyBusy(v) then w == v.(cur := -1)
      else w == v
    else exists i :: Chosen(v, i) && w == RunEnv(v, i)
  }

  /** What happens between two runs of the scheduler: an environment is created in a free
      slot, or the running one yields or exits. */
  datatype Op = Create | Yield | Exit

  ghost predicate Step(v: View, op: Op, w: View)
    requires Sane(v)
  {
    match op
    case Create => exists i :: 0 <= i < NENV && v.st[i] == Free && w == v.(st := v.st[i := Runnable])
    case Yield => YieldStep(v, w)
    case Exit => v.cur >= 0 && v.st[v.cur] == Running && Sane(Gone(v)) && YieldStep(Gone(v), w)
  }

  /** csys_exit before it yields. */
  function Gone(v: View): (w: View)
    requires |v.st| == NENV && 0 <= v.cur < NENV
  {
    v.(st := v.st[v.cur := Free])
  }

  lemma YieldKeeps(v: View, w: View)
    requires Sane(v) && YieldStep(v, w)
    ensures Sane(w)
  {
  }

  lemma StepKeeps(v: View, op: Op, w: View)
    requires Sane(v) && Step(v, op, w)
    ensures Sane(w)
  {
    match op
    case Create =>
    case Yield => YieldKeeps(v, w);
    case Exit => YieldKeeps(Gone(v), w);
  }

  // ------------------------------------------------------------ what a yield picks

  /** The slot picked is the first runnable one after curenv, counting around the table. */
  lemma ChosenIsNext(v: View, i: int)
    requires Sane(v) && Chosen(v, i)
    ensures i != v.cur && v.st[i] == Runnable
    ensures forall k :: 0 <= k < NENV && (k - v.cur - 1) % 1024 < (i - v.cur - 1) % 1024 ==> v.st[k] != Runnable
  {
    forall k | 0 <= k < NENV && (k - v.cur - 1) % 1024 < (i - v.cur - 1) % 1024 ensures v.st[k] != Runnable {
      RankIs(v.cur, i);
      RankIs(v.cur, k);
      assert k != v.cur && (Candidate(v, k) ==> Rank(v.cur, i) <= Rank(v.cur, k));
    }
  }

  lemma RankIs(cur: int, s: int)
    requires -1 <= cur < NENV && 0 <= s < NENV
    ensures (s - cur - 1) % 1024 == if s == cur then 1023 else Rank(cur, s)
  {
  }

  /** env_run touches two slots: the one it runs, and that of a running curenv, which can be
      run again. */
  lemma RunEnvSlots(v: View, i: int, s: int)
    requires Sane(v) && 0 <= i < NENV && 0 <= s < NENV
    ensures var w := RunEnv(v, i);
      && w.cur == i && w.st[i] == Running
      && (s != i && v.st[s] == Running ==> w.st[s] == Runnable)
      && (s != i && v.st[s] != Running ==> w.st[s] == v.st[s])
  {
  }

  /** Nobody who can run is put aside: only its own exit takes an environment out of the
      running. */
  lemma StaysBusy(v: View, op: Op, w: View, s: int)
    requires Sane(v) && Step(v, op, w) && 0 <= s < NENV && Busy(v.st[s]) && (op == Exit ==> s != v.cur)
    ensures Busy(w.st[s])
  {
    var u := if op == Exit then Gone(v) else v;
    if op != Create && !Idle(u) {
      var i :| Chosen(u, i) && w == RunEnv(u, i);
      RunEnvSlots(u, i, s);
    }
  }

  /** The running environment yields: it is run again at once, or it can be run. */
  lemma YieldedStaysRunnable(v: View, w: View)
    requires Sane(v) && YieldStep(v, w) && v.cur >= 0 && v.st[v.cur] == Running
    ensures w.st[v.cur] == if w.cur == v.cur then Running else Runnable
  {
    if !Idle(v) {
      var i :| Chosen(v, i) && w == RunEnv(v, i);
      RunEnvSlots(v, i, v.cur);
    }
  }

  /** A runnable environment is run by the next yield or gets nearer. */
  /** A runnable environment is run by the next yield or gets nearer. */
  lemma YieldAdvances(v: View, w: View, s: int)
    requires Sane(v) && YieldStep(v, w) && 0 <= s < NENV && v.st[s] == Runnable
    ensures (w.cur == s && w.st[s] == Running) || (w.st[s] == Runnable && Rank(w.cur, s) < Rank(v.cur, s))
  {
    if Idle(v) {
      assert !Candidate(v, s);
      assert Busy(v.st[s]);
    } else {
      var i :| Chosen(v, i) && w == RunEnv(v, i);
      if s != v.cur {
        assert Candidate(v, s);
      }
    }
  }

  /** Creations do not move anybody. */
  lemma StepAdvances(v: View, op: Op, w: View, s: int)
    requires Sane(v) && Step(v, op, w) && 0 <= s < NENV && v.st[s] == Runnable
    ensures (w.cur == s && w.st[s] == Running) ||
            (w.st[s] == Runnable && Rank(w.cur, s) + (if op == Create then 0 else 1) <= Rank(v.cur, s))
  {
    match op
    case Create =>
    case Yield => YieldAdvances(v, w, s);
    case Exit => YieldAdvances(Gone(v), w, s);
  }

  /** Any interleaving of creations, yields and exits. */
  ghost predicate Run(vs: seq<View>, ops: seq<Op>) {
    && |vs| == |ops| + 1 && Sane(vs[0])
    && forall k :: 0 <= k < |ops| ==> Sane(vs[k]) && Step(vs[k], ops[k], vs[k + 1])
  }

  function Yields(ops: seq<Op>): (n: nat) {
    if ops == [] then 0 else (if ops[0] == Create then 0 else 1) + Yields(ops[1..])
  }

  lemma RunTail(vs: seq<View>, ops: seq<Op>)
    requires Run(vs, ops) && |ops| > 0
    ensures Run(vs[1..], ops[1..])
  {
    StepKeeps(vs[0], ops[0], vs[1]);
    forall k | 0 <= k < |ops[1..]| ensures Sane(vs[1..][k]) && Step(vs[1..][k], ops[1..][k], vs[1..][k + 1]) {
      if k > 0 {
        assert Sane(vs[k + 1]) && Step(vs[k + 1], ops[k + 1], vs[k + 2]);
      } else {
        assert |ops| > 1 ==> Step(vs[1], ops[1], vs[2]);
      }
    }
  }

  /** Bounded waiting: a runnable environment is running after at most Rank + 1 yields,
      which is never more than NENV + 1; nobody else can take its slot from it meanwhile. */
  lemma {:induction false} BoundedWait(vs: seq<View>, ops: seq<Op>, s: int) returns (k: nat)
    requires Run(vs, ops) && 0 <= s < NENV && vs[0].st[s] == Runnable
    requires Yields(ops) > Rank(vs[0].cur, s)
    ensures 0 < k < |vs| && Sane(vs[k]) && vs[k].cur == s && vs[k].st[s] == Running && Rank(vs[0].cur, s) <= NENV
    ensures Yields(ops[..k]) <= Rank(vs[0].cur, s) + 1
    decreases |ops|
  {
    assert |ops| > 0;
    StepAdvances(vs[0], ops[0], vs[1], s);
    if vs[1].cur == s && vs[1].st[s] == Running {
      k := 1;
      assert ops[..1][1..] == [];
      assert Yields(ops[..1]) <= 1 + Yields([]);
    } else {
      RunTail(vs, ops);
      var j := BoundedWait(vs[1..], ops[1..], s);
      k := j + 1;
      assert ops[..k][1..] == ops[1..][..j];
    }
  }

  /** No exit of slot s. */
  ghost predicate NeverExits(vs: seq<View>, ops: seq<Op>, s: int) {
    forall k :: 0 <= k < |ops| && k < |vs| && ops[k] == Exit ==> vs[k].cur != s
  }

  /** An environment that can run, and does not exit, is runnable or running in every state
      of a run. */
  lemma {:induction false} BusyThroughout(vs: seq<View>, ops: seq<Op>, s: int, k: nat)
    requires Run(vs, ops) && NeverExits(vs, ops, s) && 0 <= s < NENV && Busy(vs[0].st[s]) && k < |vs|
    ensures |vs[k].st| == NENV && Busy(vs[k].st[s])
    decreases k
  {
    if k > 0 {
      BusyThroughout(vs, ops, s, k - 1);
      StepKeeps(vs[k - 1], ops[k - 1], vs[k]);
      StaysBusy(vs[k - 1], ops[k - 1], vs[k], s);
    }
  }

  /** Round robin is fair: whoever can run and does not exit is run again and again, after no
      more than NENV + 1 yields each time, having yielded itself or not. */
  lemma {:induction false} RunsAgain(vs: seq<View>, ops: seq<Op>, s: int) returns (k: nat)
    requires Run(vs, ops) && NeverExits(vs, ops, s) && 0 <= s < NENV && Busy(vs[0].st[s])
    requires Yields(ops) > NENV + 1
    ensures 0 < k < |vs| && Sane(vs[k]) && vs[k].cur == s && vs[k].st[s] == Running
    ensures 0 < Yields(ops[..k]) <= NENV + 1
    decreases |ops|
  {
    StepKeeps(vs[0], ops[0], vs[1]);
    if vs[0].st[s] == Runnable {
      k := BoundedWait(vs, ops, s);
      SomeYield(vs, ops, s, k);
    } else if ops[0] == Yield {
      YieldedStaysRunnable(vs[0], vs[1]);
      k := AfterYield(vs, ops, s);
    } else {
      RunTail(vs, ops);
      var j := RunsAgain(vs[1..], ops[1..], s);
      k := j + 1;
      assert ops[..k][1..] == ops[1..][..j];
    }
  }

  lemma AfterYield(vs: seq<View>, ops: seq<Op>, s: int) returns (k: nat)
    requires Run(vs, ops) && ops != [] && ops[0] == Yield && Sane(vs[1]) && 0 <= s < NENV
    requires vs[1].st[s] == if vs[1].cur == s then Running else Runnable
    requires Yields(ops) > NENV + 1
    ensures 0 < k < |vs| && Sane(vs[k]) && vs[k].cur == s && vs[k].st[s] == Running
    ensures 0 < Yields(ops[..k]) <= NENV + 1
  {
    if vs[1].cur == s {
      k := 1;
      assert ops[..1][1..] == [];
    } else {
      RunTail(vs, ops);
      var j := BoundedWait(vs[1..], ops[1..], s);
      k := j + 1;
      assert ops[..k][1..] == ops[1..][..j];
    }
  }

  /** Creations alone run nobody. */
  lemma {:induction false} SomeYield(vs: seq<View>, ops: seq<Op>, s: int, k: nat)
    requires Run(vs, ops) && 0 < k < |vs| && 0 <= s < NENV && vs[0].st[s] == Runnable && |vs[k].st| == NENV
    requires vs[k].st[s] == Running
    ensures Yields(ops[..k]) > 0
    decreases |ops|
  {
    assert ops[..k][0] == ops[0];
    if ops[0] == Create {
      assert k > 1;
      RunTail(vs, ops);
      SomeYield(vs[1..], ops[1..], s, k - 1);
      assert ops[..k][1..] == ops[1..][..k - 1];
    }
  }
}
