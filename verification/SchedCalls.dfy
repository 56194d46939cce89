/** What each call does to each process: its state, its priority, when it wakes, and its place among
    those that wait, with the switch that may follow. */
module SchedCalls {
  import opened ProcQueue
  import opened SleepQueue
  import opened Sched
  import opened SchedRuns

  predicate Runnable(x: PState) { x == Curr || x == Ready }

  // ----- who wakes when -----

  /** Process `p` is on the sleep queue and wakes in `d` tenths of a second. */
  ghost predicate WakesIn(q: List, p: nat, d: int) { exists i :: 0 <= i < |q| && WakesAt(q, i, p, d) }

  predicate WakesAt(q: List, i: nat, p: nat, d: int)
    requires i < |q|
  {
    q[i].pid == p && Deadline(q, i) == d
  }

  lemma OnWakes(q: List, p: nat)
    ensures On(q, p) <==> exists d :: WakesIn(q, p, d)
  {
    if i :| 0 <= i < |q| && q[i].pid == p {
      assert WakesAt(q, i, p, Deadline(q, i));
      assert WakesIn(q, p, Deadline(q, i));
    }
  }

  /** insertd sets the time of the new sleeper, and moves no other. */
  lemma PlaceDTimes(q: List, it: Item, p: nat, d: int)
    ensures WakesIn(PlaceD(q, it), p, d) <==> WakesIn(q, p, d) || (p == it.pid && d == it.key)
  {
    var r, e := PlaceD(q, it), PlaceAt(q, it);
    PlaceDWakes(q, it);
    forall j | 0 <= j < |q| ensures WakesAt(q, j, p, d) <==> WakesAt(r, if j < e then j else j + 1, p, d) {
      PlaceDOthers(q, it, j);
    }
    assert WakesAt(r, e, p, d) <==> p == it.pid && d == it.key;
    if WakesIn(r, p, d) {
      var k :| 0 <= k < |r| && WakesAt(r, k, p, d);
      assert k != e ==> WakesAt(q, if k < e then k else k - 1, p, d);
    }
    if WakesIn(q, p, d) {
      var j :| 0 <= j < |q| && WakesAt(q, j, p, d);
      assert WakesAt(r, if j < e then j else j + 1, p, d);
    }
  }

  /** unsleep takes one sleeper's time away, and moves no other. */
  lemma CutDTimes(q: List, i: nat, p: nat, d: int)
    requires NonNeg(q) && NoDup(q) && i < |q|
    ensures WakesIn(CutD(q, i), p, d) <==> WakesIn(q, p, d) && p != q[i].pid
  {
    var r := CutD(q, i);
    forall j | 0 <= j < |q| && j != i ensures WakesAt(q, j, p, d) <==> WakesAt(r, if j < i then j else j - 1, p, d) {
      CutDExact(q, i, j);
    }
    forall j | 0 <= j < |q| && j != i ensures q[j].pid != q[i].pid {
      assert j < i ==> Apart(q, j, i);
      assert i < j ==> Apart(q, i, j);
    }
    if WakesIn(r, p, d) {
      var k :| 0 <= k < |r| && WakesAt(r, k, p, d);
      assert WakesAt(q, if k < i then k else k + 1, p, d);
    }
    if WakesIn(q, p, d) && p != q[i].pid {
      var j :| 0 <= j < |q| && WakesAt(q, j, p, d);
      assert WakesAt(r, if j < i then j else j - 1, p, d);
    }
  }

  /** Place `i` of a queue that the first `n` leave, and the others' times fall by `m`. */
  predicate Shifted(q: List, r: List, n: nat, m: int, i: nat)
    requires i < |q|
  {
    (i < n <==> Deadline(q, i) <= m) && (i >= n ==> StillSleeps(q, i, r, i - n, m))
  }

  lemma ShiftedTimes(q: List, r: List, n: nat, m: int, p: nat, d: int)
    requires |r| + n == |q| && forall i :: 0 <= i < |q| ==> Shifted(q, r, n, m, i)
    ensures WakesIn(r, p, d) <==> d > 0 && WakesIn(q, p, d + m)
  {
    if WakesIn(r, p, d) {
      var k :| 0 <= k < |r| && WakesAt(r, k, p, d);
      assert Shifted(q, r, n, m, k + n);
      assert WakesAt(q, k + n, p, d + m);
    }
    if WakesIn(q, p, d + m) && d > 0 {
      var i :| 0 <= i < |q| && WakesAt(q, i, p, d + m);
      assert Shifted(q, r, n, m, i);
      assert WakesAt(r, i - n, p, d);
    }
  }

  /** wakeup takes off exactly those whose time has come. */
  lemma ExpiredTimes(q: List, p: nat, d: int)
    requires NonNeg(q)
    ensures WakesIn(q[Expired(q)..], p, d) <==> WakesIn(q, p, d) && d > 0
  {
    var n := Expired(q);
    forall i | 0 <= i < |q| ensures Shifted(q, q[n..], n, 0, i) {
      ExpiredExact(q, i);
      if i >= n { LeftAsleep(q, i); }
    }
    ShiftedTimes(q, q[n..], n, 0, p, d);
  }

  /** A restart of the clock takes what was held back off every time. */
  lemma WokeTimes(q: List, m: nat, p: nat, d: int)
    requires NonNeg(q)
    ensures WakesIn(Woke(q, m), p, d) <==> d > 0 && WakesIn(q, p, d + m)
  {
    WokeShifted(q, m);
    ShiftedTimes(q, Woke(q, m), Expired(Defer(q, m)), m, p, d);
  }

  lemma WokeShifted(q: List, m: nat)
    requires NonNeg(q)
    ensures forall i :: 0 <= i < |q| ==> Shifted(q, Woke(q, m), Expired(Defer(q, m)), m, i)
  {
    forall i | 0 <= i < |q| ensures Shifted(q, Woke(q, m), Expired(Defer(q, m)), m, i) { DeferAndWake(q, m, i); }
  }

  lemma MakeUpTimes(s: Sys, m: nat, p: nat, d: int)
    requires Good(s)
    ensures WakesIn(MakeUp(s, m).clock, p, d) <==> d > 0 && WakesIn(s.clock, p, d + m)
  {
    MakeUpClock(s, m);
    WokeTimes(s.clock, m, p, d);
  }

  // ----- what a call asks for -----

  /** The state a call asks for, before anyone is woken or switched to. */
  function Asked(s: Sys, op: Op, p: nat): PState
    requires s.Sized() && p < NPROC
  {
    match op
    case Create(pid, _) => if p == pid then Susp else s.state[p]
    case Resume(pid) => if p == pid && s.state[p] == Susp then Ready else s.state[p]
    case Suspend(pid) => if p == pid && p != 0 && Runnable(s.state[p]) then Susp else s.state[p]
    case SleepFor(n) => if p == s.curr && n > 0 then Sleep else s.state[p]
    case WakeUp(pid) => if p == pid && (s.state[p] == Sleep || s.state[p] == TRecv) then Ready else s.state[p]
    case _ => s.state[p]
  }

  /** Ticks that a call makes up for. */
  function Late(op: Op): nat { if op.Ticks? then op.m else 0 }

  /** Whether a call goes through wakeup. */
  predicate Wakes(s: Sys, op: Op)
    requires s.Sized()
  {
    op.Ticks? || Reschedules(s, op)
  }

  /** The process sleeps and its time has come. */
  ghost predicate Rouses(s: Sys, op: Op, p: nat)
    requires s.Sized()
  {
    Wakes(s, op) && exists d :: d <= Late(op) && WakesIn(s.clock, p, d)
  }

  lemma BeforeAsked(s: Sys, op: Op, p: nat)
    requires Good(s) && Enabled(s, op) && p < NPROC && !op.Ticks?
    ensures var u := Before(s, op); u.Sized() && u.state[p] == Asked(s, op, p)
  {
    BeforeKeeps(s, op);
    assert Fits(s, p) && Fits(s, 0);
  }

  lemma BeforeTimes(s: Sys, op: Op, p: nat, d: int)
    requires Good(s) && Enabled(s, op) && p < NPROC
    ensures var u := Before(s, op);
            WakesIn(u.clock, p, d) <==>
              match op
              case SleepFor(n) => WakesIn(s.clock, p, d) || (n > 0 && p == s.curr && d == n)
              case WakeUp(pid) => WakesIn(s.clock, p, d) && p != pid
              case Ticks(m) => d > 0 && WakesIn(s.clock, p, d + m)
              case _ => WakesIn(s.clock, p, d)
  {
    assert Fits(s, p) && Fits(s, 0);
    match op
    case SleepFor(n) => PlaceDTimes(s.clock, Item(s.curr, n), p, d);
    case WakeUp(pid) =>
      OnWakes(s.clock, p);
      if !IsBadPid(pid) && (s.state[pid] == Sleep || s.state[pid] == TRecv) {
        assert Fits(s, pid);
        CutDTimes(s.clock, PlaceOf(s.clock, pid), p, d);
      }
    case Ticks(m) => MakeUpTimes(s, m, p, d);
    case _ =>
  }

  // ----- what the rescheduling does -----

  lemma ReschedState(s: Sys, p: nat)
    requires Consistent(s) && NonNeg(s.clock) && p < NPROC
    ensures var r := Resched(s);
            && r.Sized()
            && ((exists d :: d <= 0 && WakesIn(s.clock, p, d)) ==> Runnable(r.state[p]))
            && (!(exists d :: d <= 0 && WakesIn(s.clock, p, d)) ==>
                  if Runnable(s.state[p]) then Runnable(r.state[p]) else r.state[p] == s.state[p])
  {
    WakeKeeps(s);
    WakeOnlyReadies(s);
    var t := WakeAll(s);
    SomeoneRuns(t);
    if d :| d <= 0 && WakesIn(s.clock, p, d) {
      var i :| 0 <= i < |s.clock| && WakesAt(s.clock, i, p, d);
      ExpiredExact(s.clock, i);
      Woken(s, i);
    } else if !Runnable(s.state[p]) {
      StaysAsleep(s, p);
    }
    assert Fits(t, p);
    if !Keeps(t) {
      SwitchKeeps(t);
      SwitchLosesNone(t, p);
      assert Fits(Switch(t), p);
    }
  }

  lemma StaysAsleep(s: Sys, p: nat)
    requires Consistent(s) && NonNeg(s.clock) && p < NPROC && !Runnable(s.state[p])
    requires forall d :: d <= 0 ==> !WakesIn(s.clock, p, d)
    ensures WakeAll(s).Sized() && WakeAll(s).state[p] == s.state[p]
  {
    WakeKeeps(s);
    WakeOnlyReadies(s);
    WakeClock(s);
    OnWakes(s.clock, p);
    OnWakes(WakeAll(s).clock, p);
    if d :| WakesIn(s.clock, p, d) {
      ExpiredTimes(s.clock, p, d);
      assert WakesIn(WakeAll(s).clock, p, d);
    }
    assert Fits(s, p) && Fits(WakeAll(s), p);
  }

  // ----- the laws of a call -----

  /** What a call does to the state of a process: a sleeper whose time has come can run afterwards, if
      the call goes through wakeup; otherwise the process is in the state that the call asks for, where
      the switch may have it ready for running or running for ready. */
  lemma StateExact(s: Sys, op: Op, p: nat)
    requires Good(s) && Enabled(s, op) && p < NPROC
    ensures var t := Step(s, op);
            && t.Sized()
            && (Rouses(s, op, p) ==> Runnable(t.state[p]))
            && (!Rouses(s, op, p) ==>
                  if Runnable(Asked(s, op, p)) then Runnable(t.state[p]) else t.state[p] == Asked(s, op, p))
  {
    StepKeeps(s, op);
    BeforeKeeps(s, op);
    var u := Before(s, op);
    if op.Ticks? {
      TicksAsked(s, op.m, p);
      if Reschedules(s, op) { ReschedState(u, p); NoneDue(s, op.m, p); }
    } else {
      BeforeAsked(s, op, p);
      if Reschedules(s, op) {
        ReschedState(u, p);
        SameDue(s, op, p);
      }
    }
  }

  lemma NoneDue(s: Sys, m: nat, p: nat)
    requires Good(s) && p < NPROC
    ensures forall d :: d <= 0 ==> !WakesIn(MakeUp(s, m).clock, p, d)
  {
    forall d | d <= 0 ensures !WakesIn(MakeUp(s, m).clock, p, d) { MakeUpTimes(s, m, p, d); }
  }

  lemma TicksAsked(s: Sys, m: nat, p: nat)
    requires Good(s) && p < NPROC
    ensures var t := MakeUp(s, m);
            && t.Sized()
            && (Rouses(s, Ticks(m), p) ==> t.state[p] == Ready)
            && (!Rouses(s, Ticks(m), p) ==> t.state[p] == s.state[p])
  {
    TicksState(s, m, p);
    MakeUpOnlyReadies(s, m, p);
    assert Rouses(s, Ticks(m), p) <==> Due(s, m, p) by {
      if i :| 0 <= i < |s.clock| && s.clock[i].pid == p && Deadline(s.clock, i) <= m {
        assert WakesAt(s.clock, i, p, Deadline(s.clock, i));
        assert WakesIn(s.clock, p, Deadline(s.clock, i));
      }
      if d :| d <= m && WakesIn(s.clock, p, d) {
        var i :| 0 <= i < |s.clock| && WakesAt(s.clock, i, p, d);
      }
    }
    assert Fits(s, p);
  }

  /** The call itself makes no one's time come, but a process that is roused needs no waking. */
  lemma SameDue(s: Sys, op: Op, p: nat)
    requires Good(s) && Enabled(s, op) && p < NPROC && !op.Ticks?
    ensures var due := exists d :: d <= 0 && WakesIn(s.clock, p, d);
            var now := exists d :: d <= 0 && WakesIn(Before(s, op).clock, p, d);
            (now ==> due) && (due && !now ==> Runnable(Asked(s, op, p)))
  {
    forall d | d <= 0 ensures WakesIn(Before(s, op).clock, p, d) ==> WakesIn(s.clock, p, d) {
      BeforeTimes(s, op, p, d);
    }
    if d :| d <= 0 && WakesIn(s.clock, p, d) {
      BeforeTimes(s, op, p, d);
      OnWakes(s.clock, p);
      assert Fits(s, p);
    }
  }

  /** What a call does to the time at which a process wakes: sleep sets the caller's, unsleep takes one
      away, ticks made up for come off all, and wakeup takes those whose time has come. */
  lemma TimeExact(s: Sys, op: Op, p: nat, d: int)
    requires Good(s) && Enabled(s, op) && p < NPROC
    ensures var t := Step(s, op);
            WakesIn(t.clock, p, d) <==>
              && (Wakes(s, op) ==> d > 0)
              && match op
                 case SleepFor(n) => WakesIn(s.clock, p, d) || (n > 0 && p == s.curr && d == n)
                 case WakeUp(pid) => WakesIn(s.clock, p, d) && p != pid
                 case _ => WakesIn(s.clock, p, d + Late(op))
  {
    BeforeKeeps(s, op);
    BeforeTimes(s, op, p, d);
    if Reschedules(s, op) { ReschedTimes(Before(s, op), p, d); }
  }

  lemma ReschedTimes(s: Sys, p: nat, d: int)
    requires Consistent(s) && NonNeg(s.clock)
    ensures WakesIn(Resched(s).clock, p, d) <==> d > 0 && WakesIn(s.clock, p, d)
  {
    ReschedClock(s);
    ExpiredTimes(s.clock, p, d);
  }

  lemma ReschedPrio(s: Sys)
    requires Consistent(s)
    ensures Resched(s).Sized() && Resched(s).prio == s.prio
  {
    WakeKeeps(s);
    SomeoneRuns(WakeAll(s));
    SwitchKeeps(WakeAll(s));
  }

  /** A call changes no priority but one that it was asked to: chprio that of a process there is, create
      that of the new one. */
  lemma PrioExact(s: Sys, op: Op, p: nat)
    requires Good(s) && Enabled(s, op) && p < NPROC
    ensures var t := Step(s, op);
            && t.Sized()
            && t.prio[p] == match op
                            case Create(pid, prio) => if p == pid then prio else s.prio[p]
                            case ChPrio(pid, prio) =>
                              if p == pid && p != 0 && s.state[p] != Free then prio else s.prio[p]
                            case _ => s.prio[p]
  {
    BeforeKeeps(s, op);
    StepKeeps(s, op);
    var u := Before(s, op);
    if Reschedules(s, op) { ReschedPrio(u); }
    if op.Ticks? { MakeUpPrio(s, op.m); }
  }

  lemma MakeUpPrio(s: Sys, m: nat)
    requires Good(s)
    ensures MakeUp(s, m).Sized() && MakeUp(s, m).prio == s.prio
  {
    DeferKeeps(s, m);
  }

  // ----- suspend and resume -----

  /** suspend suspends: a process that could run is in no list and not running afterwards, and nothing
      else is asked for. */
  lemma SuspendExact(s: Sys, pid: nat)
    requires Good(s) && 0 < pid < NPROC && Runnable(s.state[pid])
    ensures var t := Step(s, Suspend(pid));
            && Good(t) && t.state[pid] == Susp && !On(t.ready, pid) && !On(t.clock, pid) && t.curr != pid
            && (forall p: nat :: p < NPROC && p != pid && !Rouses(s, Suspend(pid), p) ==>
                  if Runnable(s.state[p]) then Runnable(t.state[p]) else t.state[p] == s.state[p])
            && t.prio == s.prio
  {
    var op := Suspend(pid);
    StepKeeps(s, op);
    var t := Step(s, op);
    NotRoused(s, op, pid);
    forall p: nat | p < NPROC
      ensures p != pid && !Rouses(s, op, p) ==>
                if Runnable(s.state[p]) then Runnable(t.state[p]) else t.state[p] == s.state[p]
      ensures t.prio[p] == s.prio[p]
    {
      StateExact(s, op, p);
      PrioExact(s, op, p);
    }
    StateExact(s, op, pid);
    assert Fits(t, pid);
  }

  lemma NotRoused(s: Sys, op: Op, p: nat)
    requires Good(s) && p < NPROC && s.state[p] != Sleep && s.state[p] != TRecv
    ensures !Rouses(s, op, p)
  {
    OnWakes(s.clock, p);
    assert Fits(s, p);
  }

  /** resume lets a suspended process run again. */
  lemma ResumeExact(s: Sys, pid: nat)
    requires Good(s) && pid < NPROC && s.state[pid] == Susp
    ensures var t := Step(s, Resume(pid)); Good(t) && (t.curr == pid || On(t.ready, pid))
  {
    StepKeeps(s, Resume(pid));
    assert Fits(s, 0) && Fits(s, pid);
    StateExact(s, Resume(pid), pid);
    assert Fits(Step(s, Resume(pid)), pid);
  }

  /** Over any run, a suspended process neither runs nor waits for the processor until it is resumed. */
  lemma {:induction false} SuspendedStays(s: Sys, ops: seq<Op>, pid: nat)
    requires Good(s) && RunEnabled(s, ops) && pid < NPROC && s.state[pid] == Susp
    requires Resume(pid) !in ops
    ensures var t := Run(s, ops);
            Good(t) && t.state[pid] == Susp && !On(t.ready, pid) && !On(t.clock, pid) && t.curr != pid
    decreases |ops|
  {
    if ops == [] {
      assert Fits(s, pid);
    } else {
      StepKeeps(s, ops[0]);
      NotRoused(s, ops[0], pid);
      assert Fits(s, pid) && Fits(s, s.curr);
      assert ops[0] != Resume(pid);
      StateExact(s, ops[0], pid);
      SuspendedStays(Step(s, ops[0]), ops[1..], pid);
    }
  }

  /** And once it is resumed it does. */
  lemma SuspendedThenResumed(s: Sys, ops: seq<Op>, pid: nat)
    requires Good(s) && RunEnabled(s, ops) && pid < NPROC && s.state[pid] == Susp
    requires Resume(pid) !in ops
    ensures RunEnabled(s, ops + [Resume(pid)])
    ensures var t := Run(s, ops + [Resume(pid)]); Good(t) && (t.curr == pid || On(t.ready, pid))
  {
    SuspendedStays(s, ops, pid);
    RunKeeps(s, ops);
    RunThen(s, ops, Resume(pid));
    ResumeExact(Run(s, ops), pid);
  }

  // ----- the time slice -----

  /** A call that does not reschedule leaves the processor where it is and takes what it makes up for off
      the time slice. One that does gives a new slice, unless the process that ran keeps the processor
      with time left. (The null process has priority 0 from the start, and PrioExact says that no call
      changes it.) */
  lemma SliceExact(s: Sys, op: Op)
    requires Good(s) && Enabled(s, op) && s.prio[0] > MININT
    ensures var t := Step(s, op); var left := s.preempt - Late(op);
            if !Reschedules(s, op) then t.curr == s.curr && t.preempt == left
            else t.preempt == if t.curr == s.curr && left > 0 then left else QUANTUM
  {
    BeforeKeeps(s, op);
    StepKeeps(s, op);
    var u := Before(s, op);
    PrioExact(s, op, 0);
    if op.Ticks? { MakeUpKeeps(s, op.m); MakeUpPrio(s, op.m); }
    if Reschedules(s, op) {
      NotDueItself(s, op);
      ReschedSlice(u);
    }
  }

  /** The caller is not one of those that are woken. */
  lemma NotDueItself(s: Sys, op: Op)
    requires Good(s) && Enabled(s, op)
    ensures var u := Before(s, op);
            && u.Sized() && u.curr == s.curr && u.state[u.curr] != Ready
            && forall d :: d <= 0 ==> !WakesIn(u.clock, u.curr, d)
  {
    BeforeKeeps(s, op);
    assert Fits(s, s.curr);
    OnWakes(s.clock, s.curr);
    forall d | d <= 0 ensures !WakesIn(Before(s, op).clock, s.curr, d) { BeforeTimes(s, op, s.curr, d); }
    if op.Ticks? { MakeUpKeeps(s, op.m); } else { BeforeAsked(s, op, s.curr); }
  }

  lemma ReschedSlice(s: Sys)
    requires Consistent(s) && NonNeg(s.clock) && s.prio[0] > MININT && s.state[s.curr] != Ready
    requires forall d :: d <= 0 ==> !WakesIn(s.clock, s.curr, d)
    ensures var r := Resched(s);
            r.Sized() && r.preempt == if r.curr == s.curr && s.preempt > 0 then s.preempt else QUANTUM
  {
    WakeKeeps(s);
    var t := WakeAll(s);
    SomeoneRuns(t);
    WakeOnlyReadies(s);
    assert Fits(s, s.curr);
    if !Runnable(s.state[s.curr]) { StaysAsleep(s, s.curr); }
    if !Keeps(t) && t.preempt > 0 { GivesUp(t); }
  }

  /** A switch before the slice is used up is to another process. */
  lemma GivesUp(s: Sys)
    requires Consistent(s) && (s.ready != [] || s.state[s.curr] == Curr) && !Keeps(s) && s.preempt > 0
    requires s.prio[0] > MININT && s.state[s.curr] != Ready
    ensures Switch(s).curr != s.curr
  {
    var t := Yielded(s);
    assert Fits(s, s.curr) && Fits(t, s.curr) && Fits(s, 0);
    assert On(t.ready, t.ready[|t.ready| - 1].pid) && Fits(t, t.ready[|t.ready| - 1].pid);
    if s.state[s.curr] == Curr {
      var p := FirstNotBelow(s.ready, s.prio[s.curr]);
      var n := |s.ready|;
      assert n > 0 && s.ready[n - 1].key >= s.prio[s.curr] && p < n;
      SplicedPlace(s.ready, p, Item(s.curr, s.prio[s.curr]), n);
      assert On(s.ready, s.ready[n - 1].pid) && Fits(s, s.ready[n - 1].pid);
    }
  }

  // ----- who gets the processor -----

  /** The calls that leave the processor where it is: create, those that are refused or find nothing to
      do, suspend of a process that is only ready, chprio of one that neither runs nor is ready, and a
      clock restart within the time slice. */
  predicate LeavesOn(s: Sys, op: Op)
    requires s.Sized()
  {
    match op
    case Yield => false
    case Create(_, _) => true
    case Resume(pid) => pid <= 0 || pid >= NPROC || s.state[pid] != Susp
    case Suspend(pid) => pid <= 0 || pid >= NPROC || pid != s.curr
    case SleepFor(n) => n < 0
    case WakeUp(pid) => pid <= 0 || pid >= NPROC || (s.state[pid] != Sleep && s.state[pid] != TRecv)
    case ChPrio(pid, _) => pid <= 0 || pid >= NPROC || !Runnable(s.state[pid])
    case Ticks(m) => m < s.preempt
  }

  /** They do; and after any other call the process that ran has the processor still only if every ready
      one has a lower priority, and if another has it that one goes before all that are ready. */
  lemma DispatchExact(s: Sys, op: Op)
    requires Good(s) && Enabled(s, op)
    ensures var t := Step(s, op);
            && t.Sized()
            && (LeavesOn(s, op) ==> t.curr == s.curr && t.preempt == s.preempt - Late(op))
            && (!LeavesOn(s, op) && t.curr == s.curr ==>
                  forall i :: 0 <= i < |t.ready| ==> t.ready[i].key < t.prio[t.curr])
            && (!LeavesOn(s, op) && t.curr != s.curr ==>
                  forall i :: 0 <= i < |t.ready| ==> GoesBefore(t, i))
  {
    StepKeeps(s, op);
    BeforeKeeps(s, op);
    assert Fits(s, s.curr);
    if op.Ticks? { MakeUpKeeps(s, op.m); }
    if op.Suspend? && 0 < op.pid < NPROC { assert Fits(s, op.pid); }
    assert Reschedules(s, op) <==> !LeavesOn(s, op);
    if Reschedules(s, op) {
      ReschedWinner(Before(s, op));
      NotDueItself(s, op);
      ReschedState(Before(s, op), s.curr);
    }
  }

  /** The running process has a higher priority than the ready one at place `i`, or the same and has
      waited longer. */
  predicate GoesBefore(t: Sys, i: nat)
    requires t.Sized() && i < |t.ready|
  {
    t.ready[i].pid < NPROC
    && (t.ready[i].key < t.prio[t.curr]
        || (t.ready[i].key == t.prio[t.curr] && t.since[t.ready[i].pid] > t.since[t.curr]))
  }

  lemma ReschedWinner(s: Sys)
    requires Consistent(s)
    ensures var r := Resched(s);
            && r.Sized()
            && (r.curr == s.curr && s.state[s.curr] == Curr ==>
                  forall i :: 0 <= i < |r.ready| ==> r.ready[i].key < r.prio[r.curr])
            && (r.curr != s.curr ==> forall i :: 0 <= i < |r.ready| ==> GoesBefore(r, i))
  {
    WakeKeeps(s);
    WakeOnlyReadies(s);
    var t := WakeAll(s);
    SomeoneRuns(t);
    assert Fits(s, s.curr);
    if Keeps(t) {
      forall i | 0 <= i < |t.ready| ensures t.ready[i].key < t.prio[t.curr] {
        if i < |t.ready| - 1 { assert Behind(t, i, |t.ready| - 1); }
      }
    } else {
      SwitchKeeps(t);
      forall i | 0 <= i < |Switch(t).ready|
        ensures GoesBefore(Switch(t), i)
        ensures Switch(t).curr == t.curr && t.state[t.curr] == Curr ==>
                  Switch(t).ready[i].key < Switch(t).prio[Switch(t).curr]
      {
        SwitchBest(t, i);
        if Switch(t).curr == t.curr && t.state[t.curr] == Curr { NewestLast(t, i); }
      }
    }
  }

  /** The process that gave the processor up has waited least. */
  lemma NewestLast(s: Sys, i: nat)
    requires Consistent(s) && s.state[s.curr] == Curr && i < |Switch(s).ready| && Switch(s).curr == s.curr
    ensures var r := Switch(s); r.ready[i].pid < NPROC && r.since[r.ready[i].pid] < r.since[r.curr]
  {
    SwitchKeeps(s);
    var r := Switch(s);
    var p := r.ready[i].pid;
    assert PidsOk(r.ready) && On(r.ready, p) && Fits(r, p) && Fits(s, p) && Fits(s, s.curr) && Fits(r, r.curr);
    var t := Yielded(s);
  }

  // ----- the order of waiting -----

  /** The process waits on as before: it was ready, and the call is not a chprio of it. */
  predicate Stayed(s: Sys, op: Op, p: nat)
    requires s.Sized() && p < NPROC
  {
    s.state[p] == Ready && !(op.ChPrio? && op.pid == p && p != 0)
  }

  lemma {:induction false} WakeSince(s: Sys, p: nat)
    requires Consistent(s) && p < NPROC
    ensures var t := WakeAll(s);
            t.turn >= s.turn && if On(s.clock, p) && t.state[p] == Ready then t.since[p] >= s.turn
                                else t.since[p] == s.since[p]
    decreases |s.clock|
  {
    assert Fits(s, p);
    if s.clock != [] && s.clock[0].key <= 0 {
      WakeOne(s);
      var u := Enready(s.(clock := s.clock[1..]), s.clock[0].pid);
      WakeSince(u, p);
      HeadOn(s.clock, p);
      WakeOnlyReadies(u);
      WakeKeeps(u);
      assert Fits(u, p) && Fits(WakeAll(u), p);
    }
  }

  lemma ReschedSince(s: Sys, p: nat)
    requires Consistent(s) && p < NPROC && Resched(s).Sized() && Resched(s).state[p] == Ready
    ensures Resched(s).since[p] == s.since[p] || Resched(s).since[p] >= s.turn
    ensures Resched(s).since[p] == s.since[p] <==> s.state[p] == Ready
  {
    WakeSince(s, p);
    WakeKeeps(s);
    WakeOnlyReadies(s);
    var t := WakeAll(s);
    SomeoneRuns(t);
    assert Fits(s, p) && Fits(t, p) && Fits(s, s.curr) && Fits(t, s.curr);
    if !Keeps(t) { SwitchSince(t, p); }
  }

  lemma SwitchSince(s: Sys, p: nat)
    requires Consistent(s) && (s.ready != [] || s.state[s.curr] == Curr) && p < NPROC
    requires Switch(s).state[p] == Ready
    ensures if s.state[p] == Curr then Switch(s).since[p] == s.turn
            else s.state[p] == Ready && Switch(s).since[p] == s.since[p]
  {
    var t := Yielded(s);
    assert Fits(s, p) && Fits(t, p) && Fits(s, s.curr);
    SwitchKeeps(s);
    assert On(t.ready, t.ready[|t.ready| - 1].pid) && Fits(t, t.ready[|t.ready| - 1].pid);
  }

  /** What a call does before it reschedules to the time since which a process waits. */
  ghost predicate SinceKept(s: Sys, op: Op, u: Sys, p: nat)
    requires s.Sized() && u.Sized() && p < NPROC
  {
    && u.turn >= s.turn
    && (u.state[p] == Ready ==> if Stayed(s, op, p) then u.since[p] == s.since[p] else u.since[p] >= s.turn)
    && (Stayed(s, op, p) ==> u.state[p] == Ready || op == Suspend(p))
  }

  lemma TicksSince(s: Sys, m: nat, p: nat)
    requires Good(s) && p < NPROC
    ensures MakeUp(s, m).Sized() && SinceKept(s, Ticks(m), MakeUp(s, m), p)
  {
    var d := s.(clock := Defer(s.clock, m), preempt := s.preempt - m);
    DeferKeeps(s, m);
    WakeKeeps(d);
    WakeSince(d, p);
    WakeOnlyReadies(d);
    assert Fits(d, p);
    assert s.clock == [] ==> d == MakeUp(s, m);
  }

  lemma ReprioSince(s: Sys, pid: int, prio: int, p: nat)
    requires Good(s) && prio <= MAXINT && p < NPROC
    ensures Reprio(s, pid, prio).Sized() && SinceKept(s, ChPrio(pid, prio), Reprio(s, pid, prio), p)
  {
    assert Fits(s, p) && Fits(s, 0);
  }

  lemma RouseSince(s: Sys, pid: int, p: nat)
    requires Good(s) && p < NPROC
    ensures Rouse(s, pid).Sized() && SinceKept(s, WakeUp(pid), Rouse(s, pid), p)
  {
    assert Fits(s, p);
  }

  lemma BeforeSince(s: Sys, op: Op, p: nat)
    requires Good(s) && Enabled(s, op) && p < NPROC
    ensures Before(s, op).Sized() && SinceKept(s, op, Before(s, op), p)
  {
    assert Fits(s, p);
    match op
    case Ticks(m) => TicksSince(s, m, p);
    case ChPrio(pid, prio) => ReprioSince(s, pid, prio, p);
    case WakeUp(pid) => RouseSince(s, pid, p);
    case _ =>
  }

  /** Who was waiting already has waited since then; who comes to wait has waited less than all those. */
  lemma SinceExact(s: Sys, op: Op, p: nat)
    requires Good(s) && Enabled(s, op) && p < NPROC && (StepKeeps(s, op); Step(s, op).state[p] == Ready)
    ensures var t := Step(s, op); if Stayed(s, op, p) then t.since[p] == s.since[p] else t.since[p] >= s.turn
  {
    StepKeeps(s, op);
    BeforeKeeps(s, op);
    BeforeSince(s, op, p);
    var u := Before(s, op);
    assert Fits(s, p) && Fits(u, p);
    if op == Suspend(p) && Stayed(s, op, p) {
      StateExact(s, op, p);
      NotRoused(s, op, p);
    }
    if Reschedules(s, op) { ReschedSince(u, p); }
  }

  /** Among processes of one priority the order of waiting stays: the second of two in line, when both
      waited before, was second then too, and no one gets in front of a process that waited already.
      The list is served from its end. */
  lemma OrderExact(s: Sys, op: Op, i: nat, j: nat)
    requires Good(s) && Enabled(s, op) && (StepKeeps(s, op); i < j < |Step(s, op).ready|)
    requires Step(s, op).ready[i].key == Step(s, op).ready[j].key
    ensures var t := Step(s, op); var p, q := t.ready[i].pid, t.ready[j].pid;
            && p < NPROC && q < NPROC
            && (Stayed(s, op, p) ==> Stayed(s, op, q))
            && (Stayed(s, op, p) && s.prio[p] == s.prio[q] ==>
                  On(s.ready, p) && On(s.ready, q) && PlaceOf(s.ready, p) < PlaceOf(s.ready, q))
  {
    StepKeeps(s, op);
    var t := Step(s, op);
    var p, q := t.ready[i].pid, t.ready[j].pid;
    assert Behind(t, i, j) && PidsOk(t.ready);
    assert On(t.ready, p) && On(t.ready, q) && Fits(t, p) && Fits(t, q) && Fits(s, p) && Fits(s, q);
    SinceExact(s, op, p);
    SinceExact(s, op, q);
    if Stayed(s, op, p) && s.prio[p] == s.prio[q] { LaterFirst(s, p, q); }
  }

  lemma LaterFirst(s: Sys, p: nat, q: nat)
    requires Consistent(s) && p < NPROC && q < NPROC && On(s.ready, p) && On(s.ready, q)
    requires s.prio[p] == s.prio[q] && s.since[p] > s.since[q]
    ensures PlaceOf(s.ready, p) < PlaceOf(s.ready, q)
  {
    var a, b := PlaceOf(s.ready, p), PlaceOf(s.ready, q);
    assert KeyOk(s, a) && KeyOk(s, b);
    assert b < a ==> Behind(s, b, a);
  }
}
