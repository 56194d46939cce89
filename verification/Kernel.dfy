/** The process manager: the calls that use the q array and the process table, each against the
    step of the model it makes. */
module Kernel {
  import opened Wrappers
  import opened ProcQueue
  import opened SleepQueue
  import opened Sched
  import opened SchedRuns

  const SYSERR := -1

  /** The signed word with the bits of an unsigned one. */
  function Signed(x: nat): (i: int)
    requires x < 0x1_0000_0000
    ensures MININT <= i <= MAXINT
  {
    if x <= MAXINT then x else x - 0x1_0000_0000
  }

  class Kernel {
    const q: QTable
    const pstate: array<PState>
    const pprio: array<int>
    var currpid: nat
    var nextproc: nat
    var preempt: int
    var slnempty: bool
    var clkruns: bool
    var defclk: int
    var clkdiff: nat
    ghost var sys: Sys

    ghost predicate Core()
      reads this, q, q.qkey, q.qnext, q.qprev, pstate, pprio
    {
      && q.Valid() && |q.lists| == 2
      && pprio != q.qkey && pprio != q.qnext && pprio != q.qprev
      && pstate.Length == pprio.Length == NPROC && nextproc < NPROC
      && sys.Sized() && sys.state == pstate[..] && sys.prio == pprio[..]
      && sys.ready == q.lists[RDY] && sys.clock == q.lists[CLK]
      && sys.curr == currpid && sys.preempt == preempt
    }

    ghost predicate Valid()
      reads this, q, q.qkey, q.qnext, q.qprev, pstate, pprio
    {
      Core() && (slnempty <==> sys.clock != [])
    }

    /** procinit and clkinit: the null process runs, there is no other. */
    constructor ()
      ensures Valid() && sys == Start() && Good(sys) && Top(sys) && defclk == 0 && clkdiff == 0
      ensures fresh(q) && fresh(q.qkey) && fresh(q.qnext) && fresh(q.qprev) && fresh(pstate) && fresh(pprio)
    {
      q := new QTable(2);
      pstate := new PState[NPROC](i => if i == 0 then Curr else Free);
      pprio := new int[NPROC](_ => 0);
      currpid, nextproc, preempt := 0, NPROC - 1, QUANTUM;
      slnempty, clkruns, defclk, clkdiff := false, true, 0, 0;
      new;
      sys := Start();
      assert pstate[..] == sys.state && pprio[..] == sys.prio;
      StartGood();
    }

    /** A process that is on neither list is marked ready and goes on the ready list. */
    method Enlist(pid: nat)
      requires Core() && pid < NPROC && pprio[pid] <= MAXINT
      requires !On(sys.ready, pid) && !On(sys.clock, pid)
      modifies this`sys, q, q.qkey, q.qnext, q.qprev, pstate
      ensures Core() && sys == Enready(old(sys), pid)
    {
      assert forall m :: 0 <= m < |q.lists| ==> !On(q.lists[m], pid);
      pstate[pid] := PState.Ready;
      q.Insert(pid, RDY, pprio[pid]);
      sys := Enready(sys, pid);
    }

    /** ready, for a process that is on neither list; with a reschedule, all others have to be in
        order. */
    method Ready(pid: int, resch: bool) returns (ok: bool)
      requires Valid()
      requires !IsBadPid(pid) ==> pprio[pid] <= MAXINT && !On(sys.ready, pid) && !On(sys.clock, pid)
      requires !IsBadPid(pid) && resch ==> Loose(sys, pid)
      modifies this`sys, this`currpid, this`preempt, this`slnempty, q, q.qkey, q.qnext, q.qprev, pstate
      ensures Valid() && ok == !IsBadPid(pid)
      ensures ok && resch ==> Consistent(Enready(old(sys), pid))
      ensures sys == if !ok then old(sys)
                     else if resch then Sched.Resched(Enready(old(sys), pid)) else Enready(old(sys), pid)
    {
      if IsBadPid(pid) {
        return false;
      }
      ghost var was := sys;
      Enlist(pid);
      if resch {
        LooseReady(was, pid);
        Resched();
      }
      ok := true;
    }

    /** newpid: a free entry of the table, if there is one, searched for downwards and around. */
    method NewPid() returns (pid: int)
      requires Valid()
      modifies this`nextproc
      ensures Valid()
      ensures if exists p :: 0 <= p < NPROC && pstate[p] == Free then 0 <= pid < NPROC && pstate[pid] == Free
              else pid == SYSERR
    {
      var i := 0;
      ghost var first := nextproc;
      while i < NPROC
        invariant 0 <= i <= NPROC
        invariant nextproc == if i == NPROC then first else if first < i then first - i + NPROC else first - i
        invariant forall p :: 0 <= p < NPROC && (first - i < p <= first || first - i + NPROC < p) ==>
                    pstate[p] != Free
      {
        var slot := nextproc;
        nextproc := if slot <= 0 then NPROC - 1 else slot - 1;
        if pstate[slot] == Free {
          return slot;
        }
        i := i + 1;
      }
      pid := SYSERR;
    }

    /** create, as far as the process table goes. `stack` says whether a stack can be had. */
    method Create(priority: int, stack: bool) returns (pid: int)
      requires Valid() && Good(sys) && priority <= MAXINT
      modifies this`sys, this`nextproc, pstate, pprio
      ensures Valid()
      ensures pid == SYSERR <==>
                priority < 1 || !stack || forall p :: 0 <= p < NPROC ==> old(sys).state[p] != Free
      ensures pid == SYSERR ==> sys == old(sys)
      ensures pid != SYSERR ==>
                Enabled(old(sys), Op.Create(pid, priority)) && sys == Step(old(sys), Op.Create(pid, priority))
    {
      if priority < 1 || !stack {
        return SYSERR;
      }
      pid := NewPid();
      if pid == SYSERR {
        return;
      }
      pstate[pid], pprio[pid] := Susp, priority;
      sys := Born(sys, pid, priority);
    }

    /** resume. */
    method Resume(pid: int) returns (prio: int)
      requires Valid() && Good(sys)
      modifies this`sys, this`currpid, this`preempt, this`slnempty, q, q.qkey, q.qnext, q.qprev, pstate
      ensures Valid() && sys == Step(old(sys), Op.Resume(pid))
      ensures prio == if IsBadPid(pid) || old(sys).state[pid] != Susp then SYSERR else old(sys).prio[pid]
    {
      if IsBadPid(pid) || pstate[pid] != Susp {
        return SYSERR;
      }
      assert Fits(sys, pid);
      prio := pprio[pid];
      var _ := Ready(pid, true);
    }

    /** suspend. */
    method Suspend(pid: int) returns (prio: int)
      requires Valid() && Good(sys)
      modifies this`sys, this`currpid, this`preempt, this`slnempty, q, q.qkey, q.qnext, q.qprev, pstate
      ensures Valid() && sys == Step(old(sys), Op.Suspend(pid))
      ensures prio == if IsBadPid(pid) || old(sys).state[pid] !in {Curr, PState.Ready} then SYSERR
                      else old(sys).prio[pid]
    {
      if IsBadPid(pid) || (pstate[pid] != Curr && pstate[pid] != PState.Ready) {
        return SYSERR;
      }
      ghost var was := sys;
      BeforeKeeps(was, Op.Suspend(pid));
      assert Fits(was, pid);
      if pstate[pid] == PState.Ready {
        pstate[pid] := Susp;
        sys := sys.(state := sys.state[pid := Susp]);
        q.Dequeue(pid, RDY, PlaceOf(was.ready, pid));
        sys := sys.(ready := q.lists[RDY]);
      } else {
        pstate[pid] := Susp;
        sys := sys.(state := sys.state[pid := Susp]);
        Resched();
      }
      prio := pprio[pid];
    }

    /** wakeup: everything on the sleep queue that is due is readied. */
    method Wakeup() returns (awoken: nat)
      requires Core() && Consistent(sys)
      modifies this`sys, this`slnempty, q, q.qkey, q.qnext, q.qprev, pstate
      ensures Valid() && sys == WakeAll(old(sys)) && awoken == Expired(old(sys).clock)
    {
      awoken := 0;
      ghost var due := Expired(sys.clock);
      var first := FirstKey();
      while first.Some? && first.value <= 0
        invariant Core() && Consistent(sys) && WakeAll(sys) == WakeAll(old(sys))
        invariant first == if sys.clock == [] then None else Some(sys.clock[0].key)
        invariant awoken + Expired(sys.clock) == due
        decreases |sys.clock|
      {
        WakeFirst();
        awoken := awoken + 1;
        first := FirstKey();
      }
      slnempty := first.Some?;
    }

    /** firstkey of the sleep queue, if there is one. */
    method FirstKey() returns (k: Option<int>)
      requires Core()
      ensures k == if sys.clock == [] then None else Some(sys.clock[0].key)
    {
      assert q.LinkAt(CLK, 0);
      assert PidsOk(q.lists[CLK]);
      var n := q.qnext[Head(CLK)];
      assert sys.clock != [] ==> q.LinkAt(CLK, 1);
      k := if n < NPROC then Some(q.qkey[n]) else None;
    }

    /** getfirst and the ready that follows it. */
    method WakeFirst()
      requires Core() && Consistent(sys) && sys.clock != []
      modifies this`sys, q, q.qkey, q.qnext, q.qprev, pstate
      ensures Core() && Consistent(sys)
      ensures sys == Enready(old(sys).(clock := old(sys).clock[1..]), old(sys).clock[0].pid)
    {
      ghost var was := sys;
      WakeOne(sys);
      assert On(was.clock, was.clock[0].pid) && Fits(was, was.clock[0].pid);
      HeadOn(was.clock, was.clock[0].pid);
      var pid := q.GetFirst(CLK);
      sys := sys.(clock := sys.clock[1..]);
      Enlist(pid);
    }

    /** resched, up to the choice of the process that runs next. */
    method Resched()
      requires Core() && Consistent(sys)
      modifies this`sys, this`currpid, this`preempt, this`slnempty, q, q.qkey, q.qnext, q.qprev, pstate
      ensures Valid() && sys == Sched.Resched(old(sys))
    {
      WakeKeeps(sys);
      var _ := Wakeup();
      SomeoneRuns(sys);
      var last := LastKey();
      if preempt > 0 && pstate[currpid] == Curr && last < pprio[currpid] {
        return;
      }
      Dispatch();
    }

    /** lastkey of the ready list: the head's key if it is empty. */
    method LastKey() returns (k: int)
      requires Core()
      ensures k == if sys.ready == [] then MININT else sys.ready[|sys.ready| - 1].key
    {
      assert q.LinkAt(RDY, |q.lists[RDY]|);
      k := q.qkey[q.qprev[Tail(RDY)]];
    }

    /** The part of resched that takes the processor away. */
    method Dispatch()
      requires Valid() && Consistent(sys) && (sys.ready != [] || sys.state[sys.curr] == Curr)
      modifies this`sys, this`currpid, this`preempt, q, q.qkey, q.qnext, q.qprev, pstate
      ensures Valid() && sys == Switch(old(sys))
    {
      ghost var t := Yielded(sys);
      assert Fits(sys, currpid);
      if pstate[currpid] == Curr {
        Enlist(currpid);
      }
      assert sys == t && PidsOk(q.lists[RDY]);
      var pid := q.GetLast(RDY);
      currpid := pid;
      pstate[pid] := Curr;
      preempt := QUANTUM;
      sys := t.(ready := q.lists[RDY], curr := currpid, state := pstate[..], preempt := preempt);
    }

    /** chprio. The new priority is unsigned, and is kept in a signed word. */
    method ChPrio(pid: int, priority: nat) returns (oldprio: int)
      requires Valid() && Good(sys) && priority < 0x1_0000_0000
      modifies this`sys, this`currpid, this`preempt, this`slnempty, q, q.qkey, q.qnext, q.qprev, pstate, pprio
      ensures Valid() && sys == Step(old(sys), Op.ChPrio(pid, Signed(priority)))
      ensures oldprio == if IsBadPid(pid) || old(sys).state[pid] == Free then SYSERR else old(sys).prio[pid]
    {
      if IsBadPid(pid) || pstate[pid] == Free {
        return SYSERR;
      }
      ghost var was := sys;
      var newprio := Signed(priority);
      BeforeKeeps(was, Op.ChPrio(pid, newprio));
      assert Fits(was, pid);
      oldprio := pprio[pid];
      pprio[pid] := newprio;
      sys := sys.(prio := sys.prio[pid := newprio]);
      if pstate[pid] == PState.Ready {
        Requeue(pid, was);
        Resched();
      } else if pstate[pid] == Curr {
        Resched();
      }
    }

    /** dequeue and insert, for a ready process whose priority has changed. */
    method Requeue(pid: nat, ghost was: Sys)
      requires Valid() && Consistent(was) && !IsBadPid(pid) && was.state[pid] == PState.Ready && pprio[pid] <= MAXINT
      requires sys == was.(prio := was.prio[pid := pprio[pid]])
      modifies this`sys, q, q.qkey, q.qnext, q.qprev, pstate
      ensures Valid() && sys == Reprio(was, pid, pprio[pid])
    {
      assert Fits(was, pid);
      ghost var p := PlaceOf(was.ready, pid);
      ghost var u := CutReady(was, pid, pprio[pid]);
      q.Dequeue(pid, RDY, p);
      sys := u;
      assert !On(sys.clock, pid);
      Enlist(pid);
    }

    /** unsleep: what is left of its key goes to the process behind it. */
    method Unsleep(pid: int) returns (ok: bool)
      requires Valid() && Consistent(sys)
      modifies this`sys, this`slnempty, q, q.qkey, q.qnext, q.qprev
      ensures Valid() && ok == (!IsBadPid(pid) && old(sys).state[pid] in {Sleep, TRecv})
      ensures !ok ==> sys == old(sys)
      ensures ok ==> On(old(sys).clock, pid)
                     && sys == old(sys).(clock := CutD(old(sys).clock, PlaceOf(old(sys).clock, pid)))
    {
      if IsBadPid(pid) || (pstate[pid] != Sleep && pstate[pid] != TRecv) {
        return false;
      }
      assert Fits(sys, pid);
      TakeOff(pid, PlaceOf(sys.clock, pid));
      var first := FirstKey();
      if first.None? {
        slnempty := false;
      }
      ok := true;
    }

    method TakeOff(pid: nat, ghost p: nat)
      requires Core() && p < |sys.clock| && sys.clock[p].pid == pid
      modifies this`sys, q, q.qkey, q.qnext, q.qprev
      ensures Core() && sys == old(sys).(clock := CutD(old(sys).clock, p))
    {
      ghost var c := sys.clock;
      assert PidsOk(q.lists[CLK]) && q.LinkAt(CLK, p + 1) && (p + 1 < |c| ==> q.LinkAt(CLK, p + 2));
      var remain, next := q.qkey[pid], q.qnext[pid];
      if next < NPROC {
        q.SetKey(next, q.qkey[next] + remain, CLK, p + 1);
      }
      ghost var d := q.lists[CLK];
      q.Dequeue(pid, CLK, p);
      assert Cut(d, p) == CutD(c, p);
      sys := sys.(clock := q.lists[CLK]);
    }

    /** unsleep and the ready that a caller such as send follows it with. */
    method Rouse(pid: int) returns (ok: bool)
      requires Valid() && Good(sys)
      modifies this`sys, this`currpid, this`preempt, this`slnempty, q, q.qkey, q.qnext, q.qprev, pstate
      ensures Valid() && sys == Step(old(sys), WakeUp(pid))
      ensures ok == Reschedules(old(sys), WakeUp(pid))
    {
      BeforeKeeps(sys, WakeUp(pid));
      ghost var was := sys;
      ok := Unsleep(pid);
      if ok {
        Unslept(was, pid);
        var _ := Ready(pid, true);
      }
    }

    /** sleep10. */
    method Sleep10(n: int) returns (ok: bool)
      requires Valid() && Good(sys) && currpid != 0 && n <= MAXINT
      modifies this`sys, this`currpid, this`preempt, this`slnempty, q, q.qkey, q.qnext, q.qprev, pstate
      ensures Valid() && ok == (n >= 0 && clkruns)
      ensures sys == if ok then Step(old(sys), SleepFor(n)) else old(sys)
    {
      if n < 0 || !clkruns {
        return false;
      }
      BeforeKeeps(sys, SleepFor(n));
      assert Fits(sys, currpid);
      if n != 0 {
        assert forall m :: 0 <= m < |q.lists| ==> !On(q.lists[m], currpid);
        forall i | 0 <= i <= |sys.clock| ensures Left(sys.clock, n, i) <= MAXINT { LeftBelow(sys.clock, n, i); }
        q.InsertD(currpid, CLK, n);
        slnempty := true;
        pstate[currpid] := Sleep;
        sys := Doze(sys, n);
      }
      Resched();
      ok := true;
    }

    /** The clock as it is held back. */
    ghost function Held(): Clock
      reads this
    {
      Clock(sys, defclk, clkdiff)
    }

    /** stopclk */
    method StopClk()
      requires Valid()
      modifies this`defclk
      ensures Valid() && Held() == Stop(old(Held()))
    {
      defclk := defclk + 1;
    }

    /** strtclk: when the last stopclk is undone, the ticks held back are made up for. */
    method StrtClk()
      requires Valid() && Good(sys)
      modifies this`sys, this`currpid, this`preempt, this`slnempty, this`defclk, this`clkdiff
      modifies q, q.qkey, q.qnext, q.qprev, pstate
      ensures Valid() && Held() == Restart(old(Held()))
    {
      if defclk <= 0 {
        return;
      }
      defclk := defclk - 1;
      if defclk > 0 {
        return;
      }
      var makeup := clkdiff;
      clkdiff := 0;
      CatchUp(makeup);
    }

    method CatchUp(makeup: nat)
      requires Valid() && Good(sys)
      modifies this`sys, this`currpid, this`preempt, this`slnempty, q, q.qkey, q.qnext, q.qprev, pstate
      ensures Valid() && sys == Step(old(sys), Ticks(makeup))
    {
      ghost var was := sys;
      BeforeKeeps(was, Ticks(makeup));
      DeferKeeps(was, makeup);
      preempt := preempt - makeup;
      sys := sys.(preempt := preempt);
      if slnempty {
        MakeUpFor(makeup);
        var _ := Wakeup();
      }
      assert Valid() && sys == MakeUp(was, makeup);
      if preempt <= 0 {
        Resched();
      }
    }

    /** The loop of strtclk. */
    method MakeUpFor(m: nat)
      requires Core() && NonNeg(sys.clock)
      modifies this`sys, q, q.qkey
      ensures Core() && sys == old(sys).(clock := Defer(old(sys).clock, m))
    {
      ghost var c, i := sys.clock, 0;
      var makeup: int := m;
      var next := FirstId();
      assert c[0..] == c;
      while next < NPROC && q.qkey[next] < makeup
        invariant Core() && sys == old(sys).(clock := sys.clock) && Deferring(c, m, sys.clock, i, makeup)
        invariant i <= |sys.clock| && next == NodeAt(q.lists, CLK, i + 1) && PidsOk(sys.clock)
        decreases |c| - i
      {
        makeup, next := DeferOne(c, m, i, makeup, next);
        i := i + 1;
      }
      DeferLast(c, m, i, makeup, next);
    }

    /** The end of strtclk: what is left is taken off the first key that is not used up. */
    method DeferLast(ghost c: List, ghost m: nat, ghost i: nat, makeup: int, next: nat)
      requires Core() && Deferring(c, m, sys.clock, i, makeup)
      requires i <= |sys.clock| && next == NodeAt(q.lists, CLK, i + 1)
      requires next < NPROC ==> next < q.qkey.Length && q.qkey[next] >= makeup
      modifies this`sys, q, q.qkey
      ensures Core() && sys == old(sys).(clock := Defer(c, m))
    {
      assert i < |c| ==> q.LinkAt(CLK, i + 1);
      assert PidsOk(q.lists[CLK]);
      DeferStop(c, m, sys.clock, i, makeup);
      if next < NPROC {
        ZeroKey(next, q.qkey[next] - makeup, i);
      }
    }

    method FirstId() returns (next: nat)
      requires Core()
      ensures next == NodeAt(q.lists, CLK, 1) && PidsOk(sys.clock)
    {
      assert q.LinkAt(CLK, 0) && PidsOk(q.lists[CLK]);
      next := q.qnext[Head(CLK)];
    }

    method DeferOne(ghost c: List, ghost m: nat, ghost i: nat, makeup: int, pid: nat) returns (left: int, next: nat)
      requires Core() && Deferring(c, m, sys.clock, i, makeup)
      requires i < |sys.clock| && pid == sys.clock[i].pid && pid < NPROC && q.qkey[pid] < makeup
      modifies this`sys, q, q.qkey
      ensures Core() && sys == old(sys).(clock := sys.clock) && Deferring(c, m, sys.clock, i + 1, left)
      ensures |sys.clock| == |old(sys).clock| && next == NodeAt(q.lists, CLK, i + 2) && PidsOk(sys.clock)
    {
      assert q.LinkAt(CLK, i + 1);
      DeferStep(c, m, sys.clock, i, makeup);
      left, next := makeup - q.qkey[pid], q.qnext[pid];
      ZeroKey(pid, 0, i);
      assert PidsOk(q.lists[CLK]);
    }

    method ZeroKey(pid: nat, key: int, ghost p: nat)
      requires Core() && p < |sys.clock| && sys.clock[p].pid == pid
      modifies this`sys, q, q.qkey
      ensures Core() && sys == old(sys).(clock := old(sys).clock[p := Item(pid, key)])
    {
      q.SetKey(pid, key, CLK, p);
      sys := sys.(clock := q.lists[CLK]);
    }
  }

  /** The loop of strtclk has passed `i` processes and has `k` of the `m` ticks left. */
  predicate Deferring(c: List, m: int, now: List, i: nat, k: int) {
    && i <= |c| == |now| && now[i..] == c[i..] && Defer(c, m) == now[..i] + Defer(now[i..], k)
  }

  lemma DeferStep(c: List, m: int, now: List, i: nat, k: int)
    requires Deferring(c, m, now, i, k) && i < |c| && now[i].key < k
    ensures Deferring(c, m, now[i := Item(now[i].pid, 0)], i + 1, k - now[i].key)
  {
    var now' := now[i := Item(now[i].pid, 0)];
    assert now[i..][1..] == now[i + 1..] == now'[i + 1..] && c[i..][1..] == c[i + 1..];
    assert now'[..i + 1] == now[..i] + [Item(now[i].pid, 0)];
  }

  lemma DeferStop(c: List, m: int, now: List, i: nat, k: int)
    requires Deferring(c, m, now, i, k) && (i < |c| ==> now[i].key >= k)
    ensures Defer(c, m) == if i < |c| then now[i := Item(now[i].pid, now[i].key - k)] else now
  {
    if i < |c| {
      assert now[i..][1..] == now[i + 1..];
      assert now == now[..i] + [now[i]] + now[i + 1..];
    }
  }
}
