/** The ready list, the sleep queue and the dispatcher. */
module Sched {
  import opened ProcQueue

  const QUANTUM := 10

  /** Numbers of the two lists among those in the q array. */
  const RDY: nat := 0
  const CLK: nat := 1

  datatype PState = Curr | Free | Ready | Recv | Sleep | Susp | Wait | TRecv | Dead

  /** What the dispatcher looks at. `since` says when each process was last put on the ready
      list, counted by `turn`; the code has neither, they are there to say who waited longest. */
  datatype Sys = Sys(ready: List, clock: List, state: seq<PState>, prio: seq<int>,
                     curr: nat, preempt: int, since: seq<int>, turn: int) {
    ghost predicate Sized() { |state| == NPROC && |prio| == NPROC && |since| == NPROC && curr < NPROC }
  }

  // ----- what the operations do -----

  /** insert on the ready list, for a process marked ready. */
  function Enready(s: Sys, pid: nat): Sys
    requires s.Sized() && pid < NPROC
  {
    s.(state := s.state[pid := Ready],
       ready := Splice(s.ready, FirstNotBelow(s.ready, s.prio[pid]), Item(pid, s.prio[pid])),
       since := s.since[pid := s.turn], turn := s.turn + 1)
  }

  /** wakeup: every process whose key at the front of the sleep queue is used up is readied. */
  ghost function WakeAll(s: Sys): (r: Sys)
    requires s.Sized() && PidsOk(s.clock)
    ensures r.Sized() && r.curr == s.curr && r.prio == s.prio && r.preempt == s.preempt
    decreases |s.clock|
  {
    if s.clock != [] && s.clock[0].key <= 0 then WakeAll(Enready(s.(clock := s.clock[1..]), s.clock[0].pid)) else s
  }

  /** Whether the current process keeps the processor: it has time left, still runs, and is
      ahead of every ready process. */
  predicate Keeps(s: Sys)
    requires s.Sized()
  {
    s.preempt > 0 && s.state[s.curr] == Curr &&
    (if s.ready == [] then MININT else s.ready[|s.ready| - 1].key) < s.prio[s.curr]
  }

  /** The switch: the current process, if it still runs, goes on the ready list, and the last
      one on it is next. */
  function Switch(s: Sys): Sys
    requires s.Sized() && PidsOk(s.ready) && (s.ready != [] || s.state[s.curr] == Curr)
  {
    var t := if s.state[s.curr] == Curr then Enready(s, s.curr) else s;
    var n := |t.ready| - 1;
    t.(ready := t.ready[..n], curr := t.ready[n].pid, state := t.state[t.ready[n].pid := Curr], preempt := QUANTUM)
  }

  ghost function Resched(s: Sys): Sys
    requires Consistent(s)
  {
    WakeKeeps(s);
    var t := WakeAll(s);
    SomeoneRuns(t);
    if Keeps(t) then t else Switch(t)
  }

  // ----- invariants -----

  /** The order of service on the ready list, from its tail: higher priority first, and among
      equals the one that has waited longer. */
  predicate Behind(s: Sys, i: nat, j: nat)
    requires s.Sized() && i < |s.ready| && j < |s.ready| && s.ready[i].pid < NPROC && s.ready[j].pid < NPROC
  {
    s.ready[i].key < s.ready[j].key
    || (s.ready[i].key == s.ready[j].key && s.since[s.ready[i].pid] > s.since[s.ready[j].pid])
  }

  predicate Fits(s: Sys, pid: nat)
    requires s.Sized() && pid < NPROC
  {
    && (On(s.ready, pid) <==> s.state[pid] == Ready)
    && (On(s.clock, pid) <==> s.state[pid] == Sleep || s.state[pid] == TRecv)
    && (s.state[pid] == Curr ==> pid == s.curr)
    && s.prio[pid] <= MAXINT && s.since[pid] < s.turn
  }

  ghost predicate ReadyOk(s: Sys)
    requires s.Sized() && PidsOk(s.ready)
  {
    && NoDup(s.ready)
    && (forall i :: 0 <= i < |s.ready| ==> KeyOk(s, i))
    && (forall i, j :: 0 <= i < j < |s.ready| ==> Behind(s, i, j))
  }

  predicate KeyOk(s: Sys, i: nat)
    requires s.Sized() && i < |s.ready| && s.ready[i].pid < NPROC
  {
    s.ready[i].key == s.prio[s.ready[i].pid]
  }

  /** The lists and the process table agree; the null process is ready or running. The current
      process may be about to give the processor up, its state says how. */
  ghost predicate Consistent(s: Sys) {
    && s.Sized() && PidsOk(s.ready) && PidsOk(s.clock) && NoDup(s.clock)
    && (forall p: nat :: p < NPROC ==> Fits(s, p))
    && ReadyOk(s)
    && (s.state[0] == Ready || s.state[0] == Curr)
    && !On(s.clock, 0)
  }

  /** There is always a process to run. */
  lemma SomeoneRuns(s: Sys)
    requires Consistent(s)
    ensures s.ready != [] || s.state[s.curr] == Curr
  {
    assert Fits(s, 0);
  }

  // ----- the steps keep them -----

  /** Two places of a list with an item spliced in, and where they were before. */
  lemma SplicedPlace(q: List, p: nat, it: Item, i: nat)
    requires p <= |q| && i < |q| + 1
    ensures Splice(q, p, it)[i] == if i < p then q[i] else if i == p then it else q[i - 1]
    ensures i < p ==> On(q, q[i].pid)
    ensures i > p ==> On(q, q[i - 1].pid)
  {
  }

  /** The new process goes in front of all that it is not ahead of, and among equals it has
      waited least. */
  lemma EnreadyOrder(s: Sys, pid: nat, i: nat, j: nat)
    requires s.Sized() && PidsOk(s.ready) && ReadyOk(s) && pid < NPROC && !On(s.ready, pid)
    requires forall p: nat :: p < NPROC ==> s.since[p] < s.turn
    requires i < j <= |s.ready| && PidsOk(Enready(s, pid).ready)
    ensures var t := Enready(s, pid); Apart(t.ready, i, j) && Behind(t, i, j)
  {
    var it := Item(pid, s.prio[pid]);
    var p := FirstNotBelow(s.ready, it.key);
    SplicedPlace(s.ready, p, it, i);
    SplicedPlace(s.ready, p, it, j);
    var a, b := if i < p then i else i - 1, if j < p then j else j - 1;
    if i == p {
      if b > p { assert Behind(s, p, b); }
    } else if j != p {
      assert Apart(s.ready, a, b) && Behind(s, a, b);
    }
  }

  lemma EnreadyKeeps(s: Sys, pid: nat)
    requires s.Sized() && PidsOk(s.ready) && ReadyOk(s) && pid < NPROC && !On(s.ready, pid)
    requires forall p: nat :: p < NPROC ==> s.since[p] < s.turn
    ensures var t := Enready(s, pid); t.Sized() && PidsOk(t.ready) && ReadyOk(t)
    ensures forall x: nat :: On(Enready(s, pid).ready, x) <==> On(s.ready, x) || x == pid
  {
    var it := Item(pid, s.prio[pid]);
    var p := FirstNotBelow(s.ready, it.key);
    var t := Enready(s, pid);
    forall x: nat ensures On(t.ready, x) <==> On(s.ready, x) || x == pid { SpliceOn(s.ready, p, it, x); }
    forall i | 0 <= i < |t.ready| ensures t.ready[i].pid < NPROC { SplicedPlace(s.ready, p, it, i); }
    forall i | 0 <= i < |t.ready| ensures KeyOk(t, i) {
      SplicedPlace(s.ready, p, it, i);
      if i != p { assert KeyOk(s, if i < p then i else i - 1); }
    }
    forall i, j | 0 <= i < j < |t.ready| ensures Apart(t.ready, i, j) && Behind(t, i, j) {
      EnreadyOrder(s, pid, i, j);
    }
  }

  lemma HeadOn(q: List, x: nat)
    requires q != [] && NoDup(q)
    ensures On(q[1..], x) <==> On(q, x) && x != q[0].pid
  {
    CutOn(q, 0, x);
    assert Cut(q, 0) == q[1..];
  }

  lemma TailNoDup(q: List)
    requires q != [] && NoDup(q) && PidsOk(q)
    ensures NoDup(q[1..]) && PidsOk(q[1..])
  {
    forall i, j | 0 <= i < j < |q[1..]| ensures Apart(q[1..], i, j) { assert Apart(q, i + 1, j + 1); }
  }

  /** A process that is on neither list, with everything else in order. */
  ghost predicate Loose(s: Sys, pid: nat) {
    && s.Sized() && PidsOk(s.ready) && PidsOk(s.clock) && NoDup(s.clock) && ReadyOk(s)
    && (forall p: nat :: p < NPROC && p != pid ==> Fits(s, p))
    && (s.state[0] == Ready || s.state[0] == Curr) && !On(s.clock, 0)
    && 0 < pid < NPROC && !On(s.ready, pid) && !On(s.clock, pid)
    && s.prio[pid] <= MAXINT && s.since[pid] < s.turn
  }

  /** ready puts it in order. */
  lemma LooseReady(s: Sys, pid: nat)
    requires Loose(s, pid)
    ensures Consistent(Enready(s, pid))
  {
    forall p: nat | p < NPROC ensures s.since[p] < s.turn { assert p != pid ==> Fits(s, p); }
    EnreadyKeeps(s, pid);
    var t := Enready(s, pid);
    forall p: nat | p < NPROC ensures Fits(t, p) { assert p != pid ==> Fits(s, p); }
  }

  lemma SameReady(s: Sys, u: Sys)
    requires s.Sized() && u.Sized() && PidsOk(s.ready) && ReadyOk(s)
    requires u.ready == s.ready && u.prio == s.prio && u.since == s.since
    ensures ReadyOk(u)
  {
    forall i | 0 <= i < |u.ready| ensures KeyOk(u, i) { assert KeyOk(s, i); }
    forall i, j | 0 <= i < j < |u.ready| ensures Behind(u, i, j) { assert Behind(s, i, j); }
  }

  lemma WakeOne(s: Sys)
    requires Consistent(s) && s.clock != []
    ensures Consistent(Enready(s.(clock := s.clock[1..]), s.clock[0].pid))
  {
    var pid := s.clock[0].pid;
    assert On(s.clock, pid) && Fits(s, pid);
    TailNoDup(s.clock);
    var u := s.(clock := s.clock[1..]);
    SameReady(s, u);
    HeadOn(s.clock, pid);
    HeadOn(s.clock, 0);
    forall p: nat | p < NPROC && p != pid ensures Fits(u, p) {
      assert Fits(s, p);
      HeadOn(s.clock, p);
    }
    LooseReady(u, pid);
  }

  /** wakeup keeps everything consistent. */
  lemma {:induction false} WakeKeeps(s: Sys)
    requires Consistent(s)
    ensures Consistent(WakeAll(s))
    decreases |s.clock|
  {
    if s.clock != [] && s.clock[0].key <= 0 {
      WakeOne(s);
      WakeKeeps(Enready(s.(clock := s.clock[1..]), s.clock[0].pid));
    }
  }

  // ----- the dispatcher -----

  /** The one that leaves the ready list from its tail goes before all that stay. */
  lemma TakeLast(s: Sys, n: nat)
    requires s.Sized() && PidsOk(s.ready) && ReadyOk(s) && |s.ready| == n + 1
    ensures var r := s.(ready := s.ready[..n]);
            && PidsOk(r.ready) && ReadyOk(r)
            && (forall x: nat :: On(r.ready, x) <==> On(s.ready, x) && x != s.ready[n].pid)
  {
    var r := s.(ready := s.ready[..n]);
    assert Cut(s.ready, n) == s.ready[..n];
    forall x: nat ensures On(r.ready, x) <==> On(s.ready, x) && x != s.ready[n].pid { CutOn(s.ready, n, x); }
    forall i | 0 <= i < n ensures KeyOk(r, i) { assert KeyOk(s, i); }
    forall i, j | 0 <= i < j < n ensures Apart(r.ready, i, j) && Behind(r, i, j) {
      assert Apart(s.ready, i, j) && Behind(s, i, j);
    }
  }

  /** What goes on the ready list when the processor is given up. */
  lemma Yielded(s: Sys) returns (t: Sys)
    requires Consistent(s)
    ensures t == if s.state[s.curr] == Curr then Enready(s, s.curr) else s
    ensures Consistent(t) && t.ready != [] && t.state[t.curr] != Curr
  {
    SomeoneRuns(s);
    assert Fits(s, s.curr);
    t := s;
    if s.state[s.curr] == Curr {
      forall p: nat | p < NPROC ensures s.since[p] < s.turn { assert Fits(s, p); }
      EnreadyKeeps(s, s.curr);
      t := Enready(s, s.curr);
      forall p: nat | p < NPROC ensures Fits(t, p) { assert Fits(s, p); }
    }
  }

  lemma SwitchKeeps(s: Sys)
    requires Consistent(s) && (s.ready != [] || s.state[s.curr] == Curr)
    ensures Consistent(Switch(s)) && Switch(s).state[Switch(s).curr] == Curr
  {
    var t := Yielded(s);
    var n := |t.ready| - 1;
    TakeLast(t, n);
    var r := Switch(s);
    var pid := t.ready[n].pid;
    assert On(t.ready, pid) && Fits(t, pid);
    forall i | 0 <= i < n ensures KeyOk(r, i) { assert KeyOk(t, i); }
    forall i, j | 0 <= i < j < n ensures Behind(r, i, j) { assert Behind(t, i, j); }
    forall p: nat | p < NPROC ensures Fits(r, p) { assert Fits(t, p); }
  }

  /** Every process that could run is running or ready after the switch; no other changes. */
  lemma SwitchLosesNone(s: Sys, p: nat)
    requires Consistent(s) && (s.ready != [] || s.state[s.curr] == Curr) && p < NPROC
    ensures var r := Switch(s);
            if s.state[p] == Curr || s.state[p] == Ready then p == r.curr || On(r.ready, p)
            else r.state[p] == s.state[p]
  {
    var t := Yielded(s);
    var n := |t.ready| - 1;
    TakeLast(t, n);
    assert On(t.ready, t.ready[n].pid) && Fits(t, t.ready[n].pid) && Fits(s, p) && Fits(t, p);
  }

  /** After a switch the running process goes before everyone left ready. */
  lemma SwitchBest(s: Sys, i: nat)
    requires Consistent(s) && (s.ready != [] || s.state[s.curr] == Curr)
    requires i < |Switch(s).ready|
    ensures var r := Switch(s);
            && r.ready[i].pid < NPROC
            && (r.ready[i].key < r.prio[r.curr]
                || (r.ready[i].key == r.prio[r.curr] && r.since[r.ready[i].pid] > r.since[r.curr]))
  {
    var t := Yielded(s);
    var n := |t.ready| - 1;
    assert PidsOk(t.ready) && Behind(t, i, n) && KeyOk(t, n);
  }

  /** resched: everything stays consistent, some process runs, none that could run is lost, and
      none that is ready goes before the one that runs: none has a higher priority, and after a
      switch none of equal priority has waited longer. */
  lemma ReschedSound(s: Sys)
    requires Consistent(s)
    ensures var r := Resched(s);
            && Consistent(r) && r.state[r.curr] == Curr
            && (forall i :: 0 <= i < |r.ready| ==> r.ready[i].key <= r.prio[r.curr])
            && (r.curr != s.curr ==> forall i :: 0 <= i < |r.ready| ==>
                  r.ready[i].pid < NPROC &&
                  (r.ready[i].key == r.prio[r.curr] ==> r.since[r.ready[i].pid] > r.since[r.curr]))
            && (forall p: nat :: p < NPROC && (s.state[p] == Curr || s.state[p] == Ready) ==>
                  p == r.curr || On(r.ready, p))
  {
    WakeKeeps(s);
    WakeOnlyReadies(s);
    var t := WakeAll(s);
    SomeoneRuns(t);
    var r := Resched(s);
    if Keeps(t) {
      forall i | 0 <= i < |r.ready| ensures r.ready[i].key <= r.prio[r.curr] {
        if i < |r.ready| - 1 { assert Behind(t, i, |r.ready| - 1); }
      }
      forall p: nat | p < NPROC && (s.state[p] == Curr || s.state[p] == Ready) ensures p == r.curr || On(r.ready, p) {
        assert Fits(t, p);
      }
    } else {
      SwitchKeeps(t);
      forall p: nat | p < NPROC && (s.state[p] == Curr || s.state[p] == Ready) ensures p == r.curr || On(r.ready, p) {
        SwitchLosesNone(t, p);
      }
      forall i | 0 <= i < |r.ready|
        ensures r.ready[i].pid < NPROC && r.ready[i].key <= r.prio[r.curr]
                && (r.ready[i].key == r.prio[r.curr] ==> r.since[r.ready[i].pid] > r.since[r.curr])
      {
        SwitchBest(t, i);
      }
    }
  }

  /** wakeup makes processes ready and does nothing else to any. */
  lemma {:induction false} WakeOnlyReadies(s: Sys)
    requires Consistent(s)
    ensures var t := WakeAll(s);
            forall p: nat :: p < NPROC ==> t.state[p] == s.state[p] || (t.state[p] == Ready && On(s.clock, p))
    decreases |s.clock|
  {
    if s.clock != [] && s.clock[0].key <= 0 {
      WakeOne(s);
      assert On(s.clock, s.clock[0].pid);
      WakeOnlyReadies(Enready(s.(clock := s.clock[1..]), s.clock[0].pid));
      forall p: nat ensures On(s.clock[1..], p) ==> On(s.clock, p) { HeadOn(s.clock, p); }
    }
  }
}
