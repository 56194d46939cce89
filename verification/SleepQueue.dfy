/** The sleep queue as what it stands for: each process's key is the time after the one before
    it wakes, in tenths of a second. */
module SleepQueue {
  import opened ProcQueue

  /** When the process at place `i` wakes, from now. */
  function Deadline(q: List, i: nat): int
    requires i < |q|
  {
    if i == 0 then q[0].key else Deadline(q, i - 1) + q[i].key
  }

  ghost predicate NonNeg(q: List) {
    forall i :: 0 <= i < |q| ==> q[i].key >= 0
  }

  lemma {:induction false} DeadlineTail(q: List, i: nat)
    requires 0 < i < |q|
    ensures Deadline(q, i) == q[0].key + Deadline(q[1..], i - 1)
    decreases i
  {
    if i > 1 { DeadlineTail(q, i - 1); }
  }

  /** Two queues with the same keys from place to place wake at the same times. */
  lemma {:induction false} SameDeadline(q: List, r: List, i: nat)
    requires i < |q| && i < |r| && forall j :: 0 <= j <= i ==> q[j].key == r[j].key
    ensures Deadline(q, i) == Deadline(r, i)
    decreases i
  {
    if i > 0 { SameDeadline(q, r, i - 1); }
  }

  lemma {:induction false} DeadlinesRise(q: List, i: nat, j: nat)
    requires NonNeg(q) && i <= j < |q|
    ensures 0 <= Deadline(q, i) <= Deadline(q, j)
    decreases j
  {
    if i < j { DeadlinesRise(q, i, j - 1); } else if j > 0 { DeadlinesRise(q, 0, j - 1); }
  }

  /** The place insertd finds: in front of the first process that wakes no earlier. */
  function PlaceAt(q: List, it: Item): (p: nat)
    ensures p <= |q|
  {
    if q == [] || q[0].key >= it.key then 0
    else 1 + PlaceAt(q[1..], Item(it.pid, it.key - q[0].key))
  }

  /** insertd: the new process wakes when it asked to. */
  lemma {:induction false} PlaceDWakes(q: List, it: Item)
    ensures var p := PlaceAt(q, it); PlaceD(q, it)[p].pid == it.pid && Deadline(PlaceD(q, it), p) == it.key
    decreases |q|
  {
    if q != [] && q[0].key < it.key {
      var r := PlaceD(q, it);
      PlaceDWakes(q[1..], Item(it.pid, it.key - q[0].key));
      assert r[1..] == PlaceD(q[1..], Item(it.pid, it.key - q[0].key));
      DeadlineTail(r, PlaceAt(q, it));
    }
  }

  /** insertd makes no key negative. */
  lemma {:induction false} PlaceDNonNeg(q: List, it: Item)
    requires NonNeg(q) && it.key >= 0
    ensures NonNeg(PlaceD(q, it))
    decreases |q|
  {
    if q != [] && q[0].key < it.key {
      var r := PlaceD(q, it);
      var s := PlaceD(q[1..], Item(it.pid, it.key - q[0].key));
      PlaceDNonNeg(q[1..], Item(it.pid, it.key - q[0].key));
      forall j | 0 <= j < |r| ensures r[j].key >= 0 { if j > 0 { assert r[j] == s[j - 1]; } }
    } else {
      PlaceDFirst(q, it);
    }
  }

  lemma PlaceDFirst(q: List, it: Item)
    requires NonNeg(q) && it.key >= 0 && (q == [] || q[0].key >= it.key)
    ensures NonNeg(PlaceD(q, it))
  {
    var r := PlaceD(q, it);
    forall j | 0 <= j < |r| ensures r[j].key >= 0 { if j > 1 { assert r[j] == q[j - 1]; } }
  }

  /** insertd: every other process wakes as before, in the same order. */
  lemma {:induction false} PlaceDOthers(q: List, it: Item, j: nat)
    requires j < |q|
    ensures var k := if j < PlaceAt(q, it) then j else j + 1;
            PlaceD(q, it)[k].pid == q[j].pid && Deadline(PlaceD(q, it), k) == Deadline(q, j)
    decreases |q|
  {
    var r := PlaceD(q, it);
    if q[0].key >= it.key {
      ShiftFront(q, r, j);
    } else if j > 0 {
      var rest := Item(it.pid, it.key - q[0].key);
      PlaceDOthers(q[1..], rest, j - 1);
      assert r[1..] == PlaceD(q[1..], rest);
      DeadlineTail(q, j);
      DeadlineTail(r, if j < PlaceAt(q, it) then j else j + 1);
    }
  }

  lemma {:induction false} ShiftFront(q: List, r: List, j: nat)
    requires |r| == |q| + 1 && j < |q|
    requires r[1].pid == q[0].pid && r[0].key + r[1].key == q[0].key && r[2..] == q[1..]
    ensures r[j + 1].pid == q[j].pid && Deadline(r, j + 1) == Deadline(q, j)
    decreases j
  {
    if j > 0 {
      ShiftFront(q, r, j - 1);
      assert r[j + 1] == r[2..][j - 1] && q[j] == q[1..][j - 1];
    } else {
      assert Deadline(r, 1) == Deadline(r, 0) + r[1].key;
    }
  }

  /** unsleep: what was left of the process goes to the next. */
  function CutD(q: List, i: nat): (r: List)
    requires i < |q|
    ensures |r| == |q| - 1
  {
    if i + 1 == |q| then q[..i]
    else q[..i] + [Item(q[i + 1].pid, q[i + 1].key + q[i].key)] + q[i + 2..]
  }

  /** unsleep takes one process off; every other wakes when it would have. */
  lemma {:induction false} CutDExact(q: List, i: nat, j: nat)
    requires NonNeg(q) && i < |q| && j < |q| && j != i
    ensures var k := if j < i then j else j - 1;
            CutD(q, i)[k].pid == q[j].pid && Deadline(CutD(q, i), k) == Deadline(q, j) && CutD(q, i)[k].key >= 0
    decreases j
  {
    var r := CutD(q, i);
    if j < i {
      SameDeadline(q, r, j);
    } else if j == i + 1 {
      if i > 0 { SameDeadline(q, r, i - 1); }
    } else {
      CutDExact(q, i, j - 1);
    }
  }

  /** The loop of strtclk: `m` ticks that were held back are taken off the front. */
  function Defer(q: List, m: int): (r: List)
    ensures |r| == |q|
  {
    if q == [] then []
    else if q[0].key < m then [Item(q[0].pid, 0)] + Defer(q[1..], m - q[0].key)
    else [Item(q[0].pid, q[0].key - m)] + q[1..]
  }

  /** Every process has `m` less to wait, or nothing. */
  lemma {:induction false} DeferExact(q: List, m: int, i: nat)
    requires NonNeg(q) && i < |q| && m >= 0
    ensures Defer(q, m)[i].pid == q[i].pid && Defer(q, m)[i].key >= 0
    ensures Deadline(Defer(q, m), i) == if Deadline(q, i) > m then Deadline(q, i) - m else 0
    decreases |q|
  {
    var r := Defer(q, m);
    if q[0].key < m {
      if i > 0 {
        assert r[1..] == Defer(q[1..], m - q[0].key);
        DeadlineTail(q, i);
        DeadlineTail(r, i);
        DeferExact(q[1..], m - q[0].key, i - 1);
      }
    } else {
      if i > 0 {
        assert r[1..] == q[1..];
        DeadlineTail(q, i);
        DeadlineTail(r, i);
        DeadlinesRise(q[1..], 0, i - 1);
      }
    }
  }

  /** How many processes wakeup takes off: those at the front whose key is used up. */
  function Expired(q: List): (n: nat)
    ensures n <= |q| && (forall i :: 0 <= i < n ==> q[i].key <= 0) && (n < |q| ==> q[n].key > 0)
  {
    if q == [] || q[0].key > 0 then 0 else 1 + Expired(q[1..])
  }

  /** Place `i` of one queue is place `k` of another, with `m` less to wait. */
  predicate StillSleeps(q: List, i: nat, c: List, k: nat, m: int)
    requires i < |q|
  {
    k < |c| && c[k].pid == q[i].pid && Deadline(c, k) == Deadline(q, i) - m
  }

  /** What strtclk and the wakeup that follows it leave on the queue. */
  function Woke(q: List, m: int): List { Defer(q, m)[Expired(Defer(q, m))..] }

  /** After strtclk and the wakeup that follows it, exactly the processes with at most `m` left
      have been taken off, and every other wakes `m` earlier than it would have. */
  lemma {:induction false} DeferAndWake(q: List, m: int, i: nat)
    requires NonNeg(q) && m >= 0 && i < |q|
    ensures var n := Expired(Defer(q, m));
            && (i < n <==> Deadline(q, i) <= m)
            && (i >= n ==> StillSleeps(q, i, Woke(q, m), i - n, m))
  {
    DeferNonNeg(q, m);
    DeferExact(q, m, i);
    ExpiredExact(Defer(q, m), i);
    if i >= Expired(Defer(q, m)) { LeftAsleep(Defer(q, m), i); }
  }

  lemma DeferNonNeg(q: List, m: int)
    requires NonNeg(q) && m >= 0
    ensures NonNeg(Defer(q, m))
  {
    forall j | 0 <= j < |q| ensures Defer(q, m)[j].key >= 0 { DeferExact(q, m, j); }
  }

  /** Taking the expired off the front changes no one else's time. */
  lemma LeftAsleep(r: List, i: nat)
    requires NonNeg(r) && Expired(r) <= i < |r|
    ensures StillSleeps(r, i, r[Expired(r)..], i - Expired(r), 0)
  {
    DropExpired(r, Expired(r), i);
  }

  lemma {:induction false} ExpiredExact(r: List, i: nat)
    requires NonNeg(r) && i < |r|
    ensures i < Expired(r) <==> Deadline(r, i) <= 0
  {
    var n := Expired(r);
    if i < n {
      ZeroDeadline(r, i);
    } else {
      DeadlinesRise(r, n, i);
      if n > 0 { DeadlinesRise(r, n - 1, n - 1); }
    }
  }

  lemma {:induction false} ZeroDeadline(r: List, i: nat)
    requires i < |r| && forall j :: 0 <= j <= i ==> r[j].key == 0
    ensures Deadline(r, i) == 0
    decreases i
  {
    if i > 0 { ZeroDeadline(r, i - 1); }
  }

  lemma {:induction false} DropExpired(r: List, n: nat, i: nat)
    requires NonNeg(r) && n == Expired(r) && n <= i < |r|
    ensures Deadline(r[n..], i - n) == Deadline(r, i)
    decreases i
  {
    if i > n {
      DropExpired(r, n, i - 1);
      assert r[n..][i - n] == r[i];
    } else if n > 0 {
      ZeroDeadline(r, n - 1);
    }
  }
}
