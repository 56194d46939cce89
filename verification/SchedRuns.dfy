/** Runs of the dispatcher: the system calls that move processes between the ready list, the
    sleep queue and the processor, and what every run of them keeps. */
module SchedRuns {
  import opened ProcQueue
  import opened SleepQueue
  import opened Sched

  predicate IsBadPid(pid: int) { pid <= 0 || pid >= NPROC }

  function PlaceOf(q: List, pid: nat): (i: nat)
    requires On(q, pid)
    ensures i < |q| && q[i].pid == pid
  {
    if q[0].pid == pid then 0 else (OnTail(q, pid); 1 + PlaceOf(q[1..], pid))
  }

  lemma OnTail(q: List, pid: nat)
    requires On(q, pid) && q[0].pid != pid
    ensures On(q[1..], pid)
  {
    var j :| 0 <= j < |q| && q[j].pid == pid;
    assert q[1..][j - 1] == q[j];
  }

  // ----- the calls -----

  /** chprio up to its resched. A ready process goes to its new place, behind all of its new
      priority. */
  ghost function Reprio(s: Sys, pid: int, prio: int): Sys
    requires Consistent(s)
  {
    if IsBadPid(pid) || s.state[pid] == Free then s
    else
      var t := s.(prio := s.prio[pid := prio]);
      if s.state[pid] != Ready then t
      else
        assert Fits(s, pid);
        Enready(t.(ready := Cut(s.ready, PlaceOf(s.ready, pid))), pid)
  }

  /** unsleep, and the ready that a caller such as send follows it with. */
  ghost function Rouse(s: Sys, pid: int): Sys
    requires Consistent(s)
  {
    if IsBadPid(pid) || (s.state[pid] != Sleep && s.state[pid] != TRecv) then s
    else
      assert Fits(s, pid);
      Enready(s.(clock := CutD(s.clock, PlaceOf(s.clock, pid))), pid)
  }

  /** sleep10 up to its resched. */
  function Doze(s: Sys, n: int): Sys
    requires s.Sized()
  {
    if n <= 0 then s
    else s.(clock := PlaceD(s.clock, Item(s.curr, n)), state := s.state[s.curr := Sleep])
  }

  /** strtclk, with `m` ticks held back, up to its resched. */
  ghost function MakeUp(s: Sys, m: int): Sys
    requires s.Sized() && PidsOk(s.clock)
  {
    var t := s.(clock := Defer(s.clock, m), preempt := s.preempt - m);
    assert PidsOk(t.clock) by { DeferPids(s.clock, m); }
    if s.clock == [] then s.(preempt := s.preempt - m) else WakeAll(t)
  }

  /** create, once newpid has found `pid`: the new process waits to be resumed. */
  function Born(s: Sys, pid: nat, prio: int): Sys
    requires s.Sized() && pid < NPROC
  {
    s.(state := s.state[pid := Susp], prio := s.prio[pid := prio])
  }

  /** resume up to its resched. */
  function Revive(s: Sys, pid: int): Sys
    requires s.Sized()
  {
    if IsBadPid(pid) || s.state[pid] != Susp then s else Enready(s, pid)
  }

  /** suspend up to its resched. */
  ghost function Park(s: Sys, pid: int): Sys
    requires Consistent(s)
  {
    if IsBadPid(pid) || (s.state[pid] != Curr && s.state[pid] != Ready) then s
    else
      var t := s.(state := s.state[pid := Susp]);
      if s.state[pid] == Curr then t
      else
        assert Fits(s, pid);
        t.(ready := Cut(s.ready, PlaceOf(s.ready, pid)))
  }

  datatype Op =
    | Yield
    | Create(pid: int, prio: int)
    | Resume(pid: int)
    | Suspend(pid: int)
    | SleepFor(n: int)
    | WakeUp(pid: int)
    | ChPrio(pid: int, prio: int)
    | Ticks(m: nat)

  /** A process that calls anything is running. The null process does not sleep, priorities fit
      the queue's keys, and a process is created in a free entry of the table. */
  predicate Enabled(s: Sys, op: Op)
    requires s.Sized()
  {
    match op
    case Create(pid, prio) => !IsBadPid(pid) && s.state[pid] == Free && 1 <= prio <= MAXINT
    case SleepFor(n) => s.curr != 0 && n <= MAXINT
    case ChPrio(_, prio) => prio <= MAXINT
    case _ => true
  }

  /** Whether a call gets to its resched. */
  predicate Reschedules(s: Sys, op: Op)
    requires s.Sized()
  {
    match op
    case Yield => true
    case Create(_, _) => false
    case Resume(pid) => !IsBadPid(pid) && s.state[pid] == Susp
    case Suspend(pid) => !IsBadPid(pid) && s.state[pid] == Curr
    case SleepFor(n) => n >= 0
    case WakeUp(pid) => !IsBadPid(pid) && (s.state[pid] == Sleep || s.state[pid] == TRecv)
    case ChPrio(pid, _) => !IsBadPid(pid) && (s.state[pid] == Ready || s.state[pid] == Curr)
    case Ticks(m) => s.preempt - m <= 0
  }

  ghost function Step(s: Sys, op: Op): (t: Sys)
    requires Good(s) && Enabled(s, op)
  {
    var u := Before(s, op);
    BeforeKeeps(s, op);
    if Reschedules(s, op) then Resched(u) else u
  }

  ghost function Before(s: Sys, op: Op): Sys
    requires Consistent(s) && Enabled(s, op)
  {
    match op
    case Yield => s
    case Create(pid, prio) => Born(s, pid, prio)
    case Resume(pid) => Revive(s, pid)
    case Suspend(pid) => Park(s, pid)
    case SleepFor(n) => Doze(s, n)
    case WakeUp(pid) => Rouse(s, pid)
    case ChPrio(pid, prio) => Reprio(s, pid, prio)
    case Ticks(m) => MakeUp(s, m)
  }

  // ----- what they keep -----

  ghost predicate Good(s: Sys) { Consistent(s) && NonNeg(s.clock) && s.state[s.curr] == Curr }

  /** No ready process has a higher priority than the one that runs. */
  ghost predicate Top(s: Sys)
    requires s.Sized()
  {
    forall i :: 0 <= i < |s.ready| ==> s.ready[i].key <= s.prio[s.curr]
  }

  /** wakeup takes the expired processes off the front of the sleep queue. */
  lemma {:induction false} WakeClock(s: Sys)
    requires s.Sized() && PidsOk(s.clock)
    ensures WakeAll(s).clock == s.clock[Expired(s.clock)..]
    decreases |s.clock|
  {
    if s.clock != [] && s.clock[0].key <= 0 {
      var t := Enready(s.(clock := s.clock[1..]), s.clock[0].pid);
      WakeClock(t);
      assert s.clock[1..][Expired(s.clock[1..])..] == s.clock[Expired(s.clock)..];
    }
  }

  lemma ReprioKeeps(s: Sys, pid: int, prio: int)
    requires Good(s) && prio <= MAXINT
    ensures var t := Reprio(s, pid, prio); Good(t) && t.curr == s.curr && t.clock == s.clock
  {
    if !IsBadPid(pid) && s.state[pid] != Free {
      assert Fits(s, pid);
      if s.state[pid] == Ready {
        ReprioReady(s, pid, prio);
      } else {
        var t := Reprio(s, pid, prio);
        forall p: nat | p < NPROC ensures Fits(t, p) { assert Fits(s, p); }
        forall i | 0 <= i < |t.ready| ensures KeyOk(t, i) { assert KeyOk(s, i) && On(s.ready, s.ready[i].pid); }
        forall i, j | 0 <= i < j < |t.ready| ensures Behind(t, i, j) { assert Behind(s, i, j); }
      }
    }
  }

  /** Taking one off the ready list and giving it another priority. */
  lemma CutReady(s: Sys, pid: nat, prio: int) returns (u: Sys)
    requires Consistent(s) && pid < NPROC && s.state[pid] == Ready && On(s.ready, pid)
    ensures u == s.(prio := s.prio[pid := prio], ready := Cut(s.ready, PlaceOf(s.ready, pid)))
    ensures PidsOk(u.ready) && ReadyOk(u)
    ensures forall x: nat :: On(u.ready, x) <==> On(s.ready, x) && x != pid
  {
    var k := PlaceOf(s.ready, pid);
    u := s.(prio := s.prio[pid := prio], ready := Cut(s.ready, k));
    forall x: nat ensures On(u.ready, x) <==> On(s.ready, x) && x != pid { CutOn(s.ready, k, x); }
    forall i | 0 <= i < |u.ready| ensures u.ready[i].pid < NPROC && KeyOk(u, i) {
      var a := if i < k then i else i + 1;
      assert u.ready[i] == s.ready[a] && KeyOk(s, a);
      assert On(u.ready, u.ready[i].pid);
    }
    forall i, j | 0 <= i < j < |u.ready| ensures Apart(u.ready, i, j) && Behind(u, i, j) {
      var a, b := if i < k then i else i + 1, if j < k then j else j + 1;
      assert u.ready[i] == s.ready[a] && u.ready[j] == s.ready[b];
      assert Apart(s.ready, a, b) && Behind(s, a, b);
    }
  }

  lemma ReprioReady(s: Sys, pid: nat, prio: int)
    requires Good(s) && prio <= MAXINT && 0 < pid < NPROC && s.state[pid] == Ready && On(s.ready, pid)
    ensures var t := Reprio(s, pid, prio); Good(t) && t.curr == s.curr && t.clock == s.clock
  {
    var u := CutReady(s, pid, prio);
    forall p: nat | p < NPROC ensures u.since[p] < u.turn { assert Fits(s, p); }
    EnreadyKeeps(u, pid);
    var t := Enready(u, pid);
    forall p: nat | p < NPROC ensures Fits(t, p) { assert Fits(s, p); }
  }

  /** unsleep takes off one process and moves no other. */
  lemma CutDPids(q: List, i: nat, k: nat)
    requires i < |q| && k + 1 < |q|
    ensures CutD(q, i)[k].pid == Cut(q, i)[k].pid
  {
  }

  lemma CutDOn(q: List, i: nat)
    requires i < |q| && NoDup(q) && PidsOk(q)
    ensures NoDup(CutD(q, i)) && PidsOk(CutD(q, i))
    ensures forall x: nat :: On(CutD(q, i), x) <==> On(q, x) && x != q[i].pid
  {
    var r, c := CutD(q, i), Cut(q, i);
    forall k | 0 <= k < |r| ensures r[k].pid == c[k].pid && r[k].pid == q[if k < i then k else k + 1].pid {
      CutDPids(q, i, k);
    }
    forall j, k | 0 <= j < k < |r| ensures Apart(r, j, k) {
      assert Apart(q, if j < i then j else j + 1, if k < i then k else k + 1);
    }
    forall x: nat ensures On(r, x) <==> On(q, x) && x != q[i].pid { CutOn(q, i, x); SamePidsOn(r, c, x); }
  }

  lemma SamePidsOn(r: List, c: List, x: nat)
    requires |r| == |c| && forall k :: 0 <= k < |r| ==> r[k].pid == c[k].pid
    ensures On(r, x) <==> On(c, x)
  {
    if On(c, x) { var k :| 0 <= k < |c| && c[k].pid == x; assert r[k].pid == x; }
  }

  lemma CutDNonNeg(q: List, i: nat)
    requires NonNeg(q) && i < |q|
    ensures NonNeg(CutD(q, i))
  {
    forall k | 0 <= k < |CutD(q, i)| ensures CutD(q, i)[k].key >= 0 { CutDExact(q, i, if k < i then k else k + 1); }
  }

  lemma RouseKeeps(s: Sys, pid: int)
    requires Good(s)
    ensures var t := Rouse(s, pid); Good(t) && t.curr == s.curr
  {
    if !IsBadPid(pid) && (s.state[pid] == Sleep || s.state[pid] == TRecv) {
      Unslept(s, pid);
      LooseReady(s.(clock := CutD(s.clock, PlaceOf(s.clock, pid))), pid);
    }
  }

  /** unsleep leaves its process on neither list, and the others as they were. */
  lemma Unslept(s: Sys, pid: nat)
    requires Good(s) && 0 < pid < NPROC && (s.state[pid] == Sleep || s.state[pid] == TRecv)
    ensures On(s.clock, pid)
    ensures var u := s.(clock := CutD(s.clock, PlaceOf(s.clock, pid)));
            Loose(u, pid) && NonNeg(u.clock)
  {
    assert Fits(s, pid);
    var i := PlaceOf(s.clock, pid);
    CutDOn(s.clock, i);
    CutDNonNeg(s.clock, i);
    var u := s.(clock := CutD(s.clock, i));
    SameReady(s, u);
    forall p: nat | p < NPROC && p != pid ensures Fits(u, p) { assert Fits(s, p); }
  }

  /** insertd puts one process on and moves no other. */
  lemma {:induction false} PlaceDPids(q: List, it: Item, k: nat)
    requires k <= |q|
    ensures PlaceD(q, it)[k].pid == Splice(q, PlaceAt(q, it), it)[k].pid
    decreases |q|
  {
    if q != [] && q[0].key < it.key && k > 0 {
      PlaceDPids(q[1..], Item(it.pid, it.key - q[0].key), k - 1);
    }
  }

  lemma PlaceDOn(q: List, it: Item)
    requires NoDup(q) && PidsOk(q) && !On(q, it.pid) && it.pid < NPROC
    ensures NoDup(PlaceD(q, it)) && PidsOk(PlaceD(q, it))
    ensures forall x: nat :: On(PlaceD(q, it), x) <==> On(q, x) || x == it.pid
  {
    var r, p := PlaceD(q, it), PlaceAt(q, it);
    var v := Splice(q, p, it);
    SpliceSeparate([q], 0, p, it);
    assert [q][0 := v][0] == v && NoDup(v) && PidsOk(v);
    forall k | 0 <= k < |r| ensures r[k].pid == v[k].pid && r[k].pid < NPROC { PlaceDPids(q, it, k); }
    forall j, k | 0 <= j < k < |r| ensures Apart(r, j, k) { assert Apart(v, j, k); }
    forall x: nat ensures On(r, x) <==> On(q, x) || x == it.pid { SpliceOn(q, p, it, x); SamePidsOn(r, v, x); }
  }

  lemma DozeKeeps(s: Sys, n: int)
    requires Good(s) && s.curr != 0
    ensures var t := Doze(s, n); Consistent(t) && NonNeg(t.clock) && t.curr == s.curr && (n <= 0 ==> t == s)
  {
    if n > 0 {
      assert Fits(s, s.curr);
      PlaceDOn(s.clock, Item(s.curr, n));
      PlaceDNonNeg(s.clock, Item(s.curr, n));
      var t := Doze(s, n);
      SameReady(s, t);
      forall p: nat | p < NPROC ensures Fits(t, p) { assert Fits(s, p); }
    }
  }

  lemma {:induction false} DeferPids(q: List, m: int)
    ensures forall k :: 0 <= k < |q| ==> Defer(q, m)[k].pid == q[k].pid
    decreases |q|
  {
    if q != [] && q[0].key < m {
      DeferPids(q[1..], m - q[0].key);
      forall k | 0 < k < |q| ensures Defer(q, m)[k].pid == q[k].pid {
        assert Defer(q, m)[k] == Defer(q[1..], m - q[0].key)[k - 1];
      }
    }
  }

  lemma DeferKeeps(s: Sys, m: nat)
    requires Good(s)
    ensures Good(s.(clock := Defer(s.clock, m), preempt := s.preempt - m))
  {
    var t := s.(clock := Defer(s.clock, m), preempt := s.preempt - m);
    DeferPids(s.clock, m);
    SameReady(s, t);
    forall i | 0 <= i < |t.clock| ensures t.clock[i].key >= 0 { DeferExact(s.clock, m, i); }
    forall i, j | 0 <= i < j < |t.clock| ensures Apart(t.clock, i, j) { assert Apart(s.clock, i, j); }
    forall x: nat ensures On(t.clock, x) <==> On(s.clock, x) { SamePidsOn(t.clock, s.clock, x); }
    forall p: nat | p < NPROC ensures Fits(t, p) { assert Fits(s, p); }
  }

  lemma MakeUpKeeps(s: Sys, m: nat)
    requires Good(s)
    ensures var t := MakeUp(s, m); Good(t) && t.curr == s.curr && t.preempt == s.preempt - m
  {
    var d := s.(clock := Defer(s.clock, m), preempt := s.preempt - m);
    DeferKeeps(s, m);
    WakeGood(d);
    assert s.clock == [] ==> d == MakeUp(s, m);
  }

  lemma WakeGood(s: Sys)
    requires Good(s)
    ensures Good(WakeAll(s))
  {
    WakeKeeps(s);
    WakeClock(s);
    WakeOnlyReadies(s);
    assert Fits(s, s.curr);
  }

  lemma BornKeeps(s: Sys, pid: nat, prio: int)
    requires Good(s) && 0 < pid < NPROC && s.state[pid] == Free && prio <= MAXINT
    ensures var t := Born(s, pid, prio); Good(t) && t.curr == s.curr && t.clock == s.clock
  {
    var t := Born(s, pid, prio);
    assert Fits(s, pid);
    forall p: nat | p < NPROC ensures Fits(t, p) { assert Fits(s, p); }
    forall i | 0 <= i < |t.ready| ensures KeyOk(t, i) { assert KeyOk(s, i) && On(s.ready, s.ready[i].pid); }
    forall i, j | 0 <= i < j < |t.ready| ensures Behind(t, i, j) { assert Behind(s, i, j); }
  }

  lemma ReviveKeeps(s: Sys, pid: int)
    requires Good(s)
    ensures var t := Revive(s, pid); Good(t) && t.curr == s.curr && t.clock == s.clock
  {
    if !IsBadPid(pid) && s.state[pid] == Susp {
      assert Fits(s, pid);
      LooseReady(s, pid);
    }
  }

  lemma ParkKeeps(s: Sys, pid: int)
    requires Good(s)
    ensures var t := Park(s, pid); Consistent(t) && t.curr == s.curr && t.clock == s.clock
    ensures IsBadPid(pid) || s.state[pid] != Curr ==> Good(Park(s, pid))
  {
    if !IsBadPid(pid) {
      assert Fits(s, pid);
      var t := Park(s, pid);
      if s.state[pid] == Ready {
        var u := CutReady(s, pid, s.prio[pid]);
        assert s.prio[pid := s.prio[pid]] == s.prio;
        SameReady(u, t);
        forall p: nat | p < NPROC ensures Fits(t, p) { assert Fits(s, p); }
      } else if s.state[pid] == Curr {
        SameReady(s, t);
        forall p: nat | p < NPROC ensures Fits(t, p) { assert Fits(s, p); }
      }
    }
  }

  lemma BeforeKeeps(s: Sys, op: Op)
    requires Good(s) && Enabled(s, op)
    ensures var u := Before(s, op); Consistent(u) && NonNeg(u.clock) && u.curr == s.curr
    ensures !Reschedules(s, op) ==> Good(Before(s, op))
  {
    match op
    case Yield =>
    case Create(pid, prio) => BornKeeps(s, pid, prio);
    case Resume(pid) => ReviveKeeps(s, pid);
    case Suspend(pid) => ParkKeeps(s, pid);
    case SleepFor(n) => DozeKeeps(s, n);
    case WakeUp(pid) => RouseKeeps(s, pid);
    case ChPrio(pid, prio) => ReprioKeeps(s, pid, prio);
    case Ticks(m) => MakeUpKeeps(s, m);
  }

  lemma ReschedClock(s: Sys)
    requires Consistent(s)
    ensures Resched(s).clock == s.clock[Expired(s.clock)..]
  {
    WakeClock(s);
  }

  lemma ReschedGood(s: Sys)
    requires Consistent(s) && NonNeg(s.clock)
    ensures Good(Resched(s)) && Top(Resched(s))
  {
    ReschedClock(s);
    SuffixNonNeg(s.clock, Expired(s.clock));
    ReschedSound(s);
    IsGood(Resched(s));
  }

  lemma SuffixNonNeg(q: List, n: nat)
    requires NonNeg(q) && n <= |q|
    ensures NonNeg(q[n..])
  {
    forall i | 0 <= i < |q[n..]| ensures q[n..][i].key >= 0 { assert q[n..][i] == q[n + i]; }
  }

  lemma IsGood(r: Sys)
    requires Consistent(r) && NonNeg(r.clock) && r.state[r.curr] == Curr
    requires forall i :: 0 <= i < |r.ready| ==> r.ready[i].key <= r.prio[r.curr]
    ensures Good(r) && Top(r)
  {
  }

  /** Every call leaves the lists and the process table in agreement and some process running.
      After each of them no ready process outranks the one that runs, with one exception: the
      clock may wake a process of higher priority and, while the time slice lasts, not give it
      the processor. */
  lemma StepKeeps(s: Sys, op: Op)
    requires Good(s) && Enabled(s, op)
    ensures Good(Step(s, op))
    ensures Reschedules(s, op) || (Top(s) && !op.Ticks?) ==> Top(Step(s, op))
  {
    BeforeKeeps(s, op);
    if Reschedules(s, op) {
      ReschedGood(Before(s, op));
    } else if op.ChPrio? && !IsBadPid(op.pid) {
      assert Fits(s, op.pid);
    }
  }

  ghost predicate RunEnabled(s: Sys, ops: seq<Op>)
    requires Good(s)
    decreases |ops|
  {
    ops == [] || (Enabled(s, ops[0]) && (StepKeeps(s, ops[0]); RunEnabled(Step(s, ops[0]), ops[1..])))
  }

  ghost function Run(s: Sys, ops: seq<Op>): Sys
    requires Good(s) && RunEnabled(s, ops)
    decreases |ops|
  {
    if ops == [] then s else StepKeeps(s, ops[0]); Run(Step(s, ops[0]), ops[1..])
  }

  /** Over any run: the lists and the table agree, a process runs, and, unless the clock has
      ticked, none that is ready outranks it. */
  lemma {:induction false} RunKeeps(s: Sys, ops: seq<Op>)
    requires Good(s) && RunEnabled(s, ops)
    ensures Good(Run(s, ops))
    ensures Top(s) && (forall op :: op in ops ==> !op.Ticks?) ==> Top(Run(s, ops))
    decreases |ops|
  {
    if ops != [] {
      StepKeeps(s, ops[0]);
      RunKeeps(Step(s, ops[0]), ops[1..]);
    }
  }

  /** A run is its first `k` calls and then the others. */
  lemma {:induction false} RunSplit(s: Sys, ops: seq<Op>, k: nat)
    requires Good(s) && RunEnabled(s, ops) && k <= |ops|
    ensures RunEnabled(s, ops[..k])
    ensures var t := Run(s, ops[..k]); Good(t) && RunEnabled(t, ops[k..]) && Run(s, ops) == Run(t, ops[k..])
    decreases k
  {
    if k == 0 {
      assert ops[..0] == [] && ops[0..] == ops;
    } else {
      StepKeeps(s, ops[0]);
      RunSplit(Step(s, ops[0]), ops[1..], k - 1);
      assert ops[..k][0] == ops[0] && ops[..k][1..] == ops[1..][..k - 1] && ops[1..][k - 1..] == ops[k..];
    }
  }

  /** After any run in which some call rescheduled, and the clock was not restarted since, no ready
      process outranks the running one. */
  lemma RunTop(s: Sys, ops: seq<Op>, k: nat)
    requires Good(s) && RunEnabled(s, ops) && k < |ops|
    requires (RunSplit(s, ops, k); Reschedules(Run(s, ops[..k]), ops[k]))
    requires forall op :: op in ops[k + 1..] ==> !op.Ticks?
    ensures Good(Run(s, ops)) && Top(Run(s, ops))
  {
    RunSplit(s, ops, k);
    var t := Run(s, ops[..k]);
    assert ops[k..][0] == ops[k] && ops[k..][1..] == ops[k + 1..];
    StepKeeps(t, ops[k]);
    RunKeeps(Step(t, ops[k]), ops[k + 1..]);
  }

  lemma MakeUpClock(s: Sys, m: nat)
    requires Good(s)
    ensures MakeUp(s, m).clock == Woke(s.clock, m)
    ensures |Woke(s.clock, m)| == |s.clock| - Expired(Defer(s.clock, m))
  {
    DeferKeeps(s, m);
    WakeClock(s.(clock := Defer(s.clock, m), preempt := s.preempt - m));
  }

  /** What a tick does to who sleeps: exactly the processes with at most `m` left are woken, and
      the others, in the same order, have `m` less to wait. */
  lemma TicksWake(s: Sys, m: nat, i: nat)
    requires Good(s) && i < |s.clock|
    ensures var t := MakeUp(s, m); var n := |s.clock| - |t.clock|;
            && n >= 0 && (i < n <==> Deadline(s.clock, i) <= m)
            && (i < n ==> On(t.ready, s.clock[i].pid) && !On(t.clock, s.clock[i].pid))
            && (i >= n ==> StillSleeps(s.clock, i, t.clock, i - n, m))
  {
    MakeUpClock(s, m);
    DeferAndWake(s.clock, m, i);
    if Deadline(s.clock, i) <= m { TicksReady(s, m, i); }
  }

  lemma TicksReady(s: Sys, m: nat, i: nat)
    requires Good(s) && i < Expired(Defer(s.clock, m))
    ensures On(MakeUp(s, m).ready, s.clock[i].pid) && !On(MakeUp(s, m).clock, s.clock[i].pid)
  {
    DeferKeeps(s, m);
    DeferPids(s.clock, m);
    Woken(s.(clock := Defer(s.clock, m), preempt := s.preempt - m), i);
  }

  lemma {:induction false} Woken(s: Sys, i: nat)
    requires Consistent(s) && i < Expired(s.clock)
    ensures On(WakeAll(s).ready, s.clock[i].pid) && !On(WakeAll(s).clock, s.clock[i].pid)
    decreases |s.clock|
  {
    WakeOne(s);
    var t := Enready(s.(clock := s.clock[1..]), s.clock[0].pid);
    if i > 0 {
      Woken(t, i - 1);
    } else {
      WakeKeeps(t);
      WakeOnlyReadies(t);
      HeadOn(s.clock, s.clock[0].pid);
      assert Fits(WakeAll(t), s.clock[0].pid);
    }
  }

  // ----- when a tick leaves a process of higher priority waiting -----

  lemma TopByState(s: Sys)
    requires Consistent(s)
    ensures Top(s) <==> forall p: nat :: p < NPROC && s.state[p] == Ready ==> s.prio[p] <= s.prio[s.curr]
  {
    if Top(s) {
      forall p: nat | p < NPROC && s.state[p] == Ready ensures s.prio[p] <= s.prio[s.curr] {
        assert Fits(s, p);
        var i := PlaceOf(s.ready, p);
        assert KeyOk(s, i);
      }
    }
    forall i | 0 <= i < |s.ready| ensures s.ready[i].key == s.prio[s.ready[i].pid] && s.state[s.ready[i].pid] == Ready {
      assert KeyOk(s, i) && On(s.ready, s.ready[i].pid) && Fits(s, s.ready[i].pid);
    }
  }

  /** The sleepers that a clock restart wakes with `m` ticks held back. */
  ghost predicate Due(s: Sys, m: nat, p: nat)
    requires Good(s)
  {
    exists i :: 0 <= i < |s.clock| && s.clock[i].pid == p && Deadline(s.clock, i) <= m
  }

  lemma TicksState(s: Sys, m: nat, p: nat)
    requires Good(s) && p < NPROC
    ensures var t := MakeUp(s, m);
            && t.Sized() && t.prio == s.prio && t.curr == s.curr
            && (t.state[p] == Ready <==> s.state[p] == Ready || Due(s, m, p))
  {
    var t := MakeUp(s, m);
    MakeUpKeeps(s, m);
    MakeUpOnlyReadies(s, m, p);
    assert Fits(s, p) && Fits(t, p);
    if On(s.clock, p) {
      var i := PlaceOf(s.clock, p);
      TicksWake(s, m, i);
      forall j | 0 <= j < |s.clock| && s.clock[j].pid == p ensures j == i {
        assert Apart(s.clock, i, j) || Apart(s.clock, j, i) || i == j;
      }
    }
  }

  lemma MakeUpOnlyReadies(s: Sys, m: nat, p: nat)
    requires Good(s) && p < NPROC
    ensures var t := MakeUp(s, m); t.state[p] == s.state[p] || (t.state[p] == Ready && On(s.clock, p))
  {
    var d := s.(clock := Defer(s.clock, m), preempt := s.preempt - m);
    DeferKeeps(s, m);
    DeferPids(s.clock, m);
    WakeOnlyReadies(d);
    SamePidsOn(d.clock, s.clock, p);
  }

  /** After a clock restart no ready process outranks the running one if and only if the time slice
      is used up, or none did before and none of the sleepers woken does. */
  lemma TicksTop(s: Sys, m: nat)
    requires Good(s)
    ensures (StepKeeps(s, Ticks(m)); Top(Step(s, Ticks(m)))) <==>
              s.preempt <= m || (Top(s) && forall p: nat :: p < NPROC && Due(s, m, p) ==> s.prio[p] <= s.prio[s.curr])
  {
    StepKeeps(s, Ticks(m));
    if s.preempt > m {
      var t := MakeUp(s, m);
      MakeUpKeeps(s, m);
      TopByState(s);
      TopByState(t);
      forall p: nat | p < NPROC ensures t.state[p] == Ready <==> s.state[p] == Ready || Due(s, m, p) {
        TicksState(s, m, p);
      }
    }
  }

  // ----- from the start -----

  /** What procinit leaves: the null process alone. */
  function Start(): Sys {
    Sys([], [], seq(NPROC, i requires 0 <= i < NPROC => if i == 0 then Curr else Free), seq(NPROC, _ => 0),
        0, QUANTUM, seq(NPROC, _ => 0), 1)
  }

  lemma StartGood()
    ensures Good(Start()) && Top(Start())
  {
    forall p: nat | p < NPROC ensures Fits(Start(), p) {
    }
  }

  lemma {:induction false} RunThen(s: Sys, ops: seq<Op>, op: Op)
    requires Good(s) && RunEnabled(s, ops) && (RunKeeps(s, ops); Enabled(Run(s, ops), op))
    ensures RunEnabled(s, ops + [op]) && Run(s, ops + [op]) == (RunKeeps(s, ops); Step(Run(s, ops), op))
    decreases |ops|
  {
    if ops == [] {
      assert ops + [op] == [op] && [op][1..] == [];
      StepKeeps(s, op);
    } else {
      StepKeeps(s, ops[0]);
      RunThen(Step(s, ops[0]), ops[1..], op);
      assert (ops + [op])[0] == ops[0] && (ops + [op])[1..] == ops[1..] + [op];
    }
  }

  /** A process of priority 5 that is readied takes the processor from the null process. */
  lemma TakesOver(u: Sys)
    requires Consistent(u) && u == Enready(Born(Start(), 1, 5), 1)
    ensures var t := Resched(u);
            t.ready == [Item(0, 0)] && t.clock == [] && t.curr == 1 && t.prio[0] == 0 && t.prio[1] == 5
  {
    assert u.ready == [Item(1, 5)];
    assert Enready(u, 0).ready == [Item(0, 0), Item(1, 5)];
    assert Resched(u) == Switch(u);
  }

  /** So does one that is created and resumed. */
  lemma FirstRuns(ops: seq<Op>) returns (t: Sys)
    requires ops == [Create(1, 5), Resume(1)]
    ensures Good(Start()) && RunEnabled(Start(), ops) && t == Run(Start(), ops) && Good(t)
    ensures t.ready == [Item(0, 0)] && t.clock == [] && t.curr == 1 && t.prio[0] == 0 && t.prio[1] == 5
  {
    StartGood();
    var s := Start();
    RunThen(s, [], ops[0]);
    assert [] + [ops[0]] == [ops[0]];
    RunKeeps(s, [ops[0]]);
    var s1 := Run(s, [ops[0]]);
    RunThen(s, [ops[0]], ops[1]);
    assert [ops[0]] + [ops[1]] == ops;
    RunKeeps(s, ops);
    t := Run(s, ops);
    BeforeKeeps(s1, ops[1]);
    TakesOver(Enready(s1, 1));
  }

  /** It sleeps for three ticks, and the null process has the processor back. */
  lemma ThenSleeps(ops: seq<Op>) returns (t: Sys)
    requires ops == [Create(1, 5), Resume(1), SleepFor(3)]
    ensures Good(Start()) && RunEnabled(Start(), ops) && t == Run(Start(), ops) && Good(t)
    ensures t.clock == [Item(1, 3)] && t.curr == 0 && t.prio[0] == 0 && t.prio[1] == 5 && t.preempt == QUANTUM
  {
    var s := FirstRuns(ops[..2]);
    RunThen(Start(), ops[..2], ops[2]);
    assert ops[..2] + [ops[2]] == ops;
    RunKeeps(Start(), ops);
    t := Run(Start(), ops);
    var u := Doze(s, 3);
    assert u.clock == [Item(1, 3)];
    assert t == Switch(u);
  }

  /** Three ticks later it is ready again, and waits, though nothing else but the null process is there
      to run. */
  lemma TickLeavesWaiting() returns (ops: seq<Op>)
    ensures Good(Start()) && Top(Start()) && RunEnabled(Start(), ops)
    ensures (RunKeeps(Start(), ops); !Top(Run(Start(), ops)))
  {
    var before := [Create(1, 5), Resume(1), SleepFor(3)];
    var t := ThenSleeps(before);
    StartGood();
    RunThen(Start(), before, Ticks(3));
    assert Deadline(t.clock, 0) == 3;
    assert Due(t, 3, 1);
    TicksTop(t, 3);
    ops := before + [Ticks(3)];
  }

  // ----- holding back the clock -----

  /** stopclk and strtclk: `stops` counts the stops not undone, `held` the ticks held back. */
  datatype Clock = Clock(sys: Sys, stops: int, held: nat)

  function Stop(c: Clock): Clock { c.(stops := c.stops + 1) }

  ghost function Restart(c: Clock): Clock
    requires Good(c.sys)
  {
    if c.stops <= 0 then c
    else if c.stops > 1 then c.(stops := c.stops - 1)
    else Clock(Step(c.sys, Ticks(c.held)), 0, 0)
  }

  function Stops(c: Clock, n: nat): (r: Clock)
    ensures r == c.(stops := c.stops + n)
    decreases n
  {
    if n == 0 then c else Stops(Stop(c), n - 1)
  }

  lemma RestartKeeps(c: Clock)
    requires Good(c.sys)
    ensures Good(Restart(c).sys)
  {
    StepKeeps(c.sys, Ticks(c.held));
  }

  ghost function Restarts(c: Clock, n: nat): Clock
    requires Good(c.sys)
    decreases n
  {
    if n == 0 then c else RestartKeeps(c); Restarts(Restart(c), n - 1)
  }

  lemma {:induction false} RestartsCount(c: Clock, n: nat)
    requires Good(c.sys)
    ensures Restarts(c, n) ==
              if c.stops <= 0 || n == 0 then c
              else if n < c.stops then c.(stops := c.stops - n)
              else Clock(Step(c.sys, Ticks(c.held)), 0, 0)
    decreases n
  {
    if n > 0 {
      RestartKeeps(c);
      RestartsCount(Restart(c), n - 1);
    }
  }

  /** However often the clock is stopped, as many restarts are needed: fewer wake no one and hold all
      ticks back, the last makes up for them at once, and any more do nothing. */
  lemma StopsAndRestarts(c: Clock, n: nat, k: nat)
    requires Good(c.sys) && c.stops == 0 && n > 0
    ensures Restarts(Stops(c, n), k) ==
              if k < n then c.(stops := n - k) else Clock(Step(c.sys, Ticks(c.held)), 0, 0)
  {
    RestartsCount(Stops(c, n), k);
  }
}
