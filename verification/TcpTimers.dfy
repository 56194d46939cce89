/** The TCP timer list: a linked list of timers in which each holds the time that is left after
    the one before it expires. Times are in hundredths of a second. */
module TcpTimers {
  import opened Wrappers

  const TIMERGRAN := 1

  /** What a timer is known by: the port its event goes to, and the event. */
  datatype Key = Key(port: int, msg: int)

  /** A list entry: `left` counts from the expiry of the entry before; `since` is when it was set. */
  datatype Timer = Timer(key: Key, left: int, since: int)

  /** A timer by itself: `at` counts from now. */
  datatype Due = Due(key: Key, at: int)

  // ----- the list as its differential encoding -----

  /** The absolute times that the differences stand for, counted from `base`. */
  function Abs(q: seq<Timer>, base: int): (ds: seq<Due>)
    ensures |ds| == |q|
  {
    if q == [] then []
    else [Due(q[0].key, base + q[0].left)] + Abs(q[1..], base + q[0].left)
  }

  predicate Has(q: seq<Timer>, k: Key) { exists i :: 0 <= i < |q| && q[i].key == k }

  /** tmclear: the entry goes, and what was left of it goes to the one after it. */
  function Clear(q: seq<Timer>, k: Key): (r: seq<Timer>) {
    if q == [] then []
    else if q[0].key == k then
      if |q| == 1 then [] else [q[1].(left := q[1].left + q[0].left)] + q[2..]
    else [q[0]] + Clear(q[1..], k)
  }

  /** The search and insertion of tmset: behind every timer that expires no later. */
  function Place(q: seq<Timer>, t: Timer): (r: seq<Timer>)
    ensures |r| == |q| + 1
  {
    if q == [] then [t]
    else if t.left < q[0].left then [t, q[0].(left := q[0].left - t.left)] + q[1..]
    else [q[0]] + Place(q[1..], t.(left := t.left - q[0].left))
  }

  function Set(q: seq<Timer>, k: Key, time: int, now: int): seq<Timer> {
    Place(Clear(q, k), Timer(k, time, now))
  }

  /** The expiry loop: what is taken off after `d` has gone by, and what stays. */
  function Expire(q: seq<Timer>, d: int): (r: (seq<Key>, seq<Timer>)) {
    if q == [] then ([], [])
    else if q[0].left <= d then
      var r := Expire(q[1..], d - q[0].left);
      ([q[0].key] + r.0, r.1)
    else ([], [q[0].(left := q[0].left - d)] + q[1..])
  }

  // ----- the same on absolute times -----

  function Without(ds: seq<Due>, k: Key): seq<Due> {
    if ds == [] then [] else if ds[0].key == k then ds[1..] else [ds[0]] + Without(ds[1..], k)
  }

  function Inserted(ds: seq<Due>, d: Due): seq<Due> {
    if ds == [] || d.at < ds[0].at then [d] + ds else [ds[0]] + Inserted(ds[1..], d)
  }

  function Lookup(ds: seq<Due>, k: Key): Option<int> {
    if ds == [] then None else if ds[0].key == k then Some(ds[0].at) else Lookup(ds[1..], k)
  }

  ghost predicate Unique(q: seq<Timer>) {
    forall i, j :: 0 <= i < j < |q| ==> q[i].key != q[j].key
  }

  ghost predicate NonNeg(q: seq<Timer>) {
    forall i :: 0 <= i < |q| ==> q[i].left >= 0
  }

  ghost predicate Ok(q: seq<Timer>) { Unique(q) && NonNeg(q) }

  lemma {:induction false} AbsAt(q: seq<Timer>, base: int, i: nat)
    requires i < |q|
    ensures Abs(q, base)[i].key == q[i].key
    ensures Abs(q, base)[i].at == (if i == 0 then base else Abs(q, base)[i - 1].at) + q[i].left
    decreases |q|
  {
    if i > 0 {
      AbsAt(q[1..], base + q[0].left, i - 1);
      if i == 1 { assert Abs(q, base)[0].at == base + q[0].left; }
    }
  }

  /** tmclear takes exactly its own timer away: every other keeps its absolute time. */
  lemma {:induction false} ClearAbs(q: seq<Timer>, k: Key, base: int)
    ensures Abs(Clear(q, k), base) == Without(Abs(q, base), k)
    decreases |q|
  {
    if q != [] {
      var r := Clear(q, k);
      if q[0].key == k {
        if |q| > 1 {
          assert q[1..][1..] == q[2..];
          assert r[1..] == q[2..];
        }
      } else {
        ClearAbs(q[1..], k, base + q[0].left);
        assert r[1..] == Clear(q[1..], k);
      }
    }
  }

  /** Inserting moves no other timer's absolute time, and a timer goes behind those that
      expire at the same time. */
  lemma {:induction false} PlaceAbs(q: seq<Timer>, t: Timer, base: int)
    ensures Abs(Place(q, t), base) == Inserted(Abs(q, base), Due(t.key, base + t.left))
    decreases |q|
  {
    if q != [] {
      var r := Place(q, t);
      if t.left < q[0].left {
        assert r[1..] == [q[0].(left := q[0].left - t.left)] + q[1..];
        assert r[1..][1..] == q[1..];
      } else {
        PlaceAbs(q[1..], t.(left := t.left - q[0].left), base + q[0].left);
        assert r[1..] == Place(q[1..], t.(left := t.left - q[0].left));
      }
    }
  }

  /** Setting a timer is, on absolute times, removing the old and inserting the new. */
  lemma SetAbs(q: seq<Timer>, k: Key, time: int, now: int)
    ensures Abs(Set(q, k, time, now), 0) == Inserted(Without(Abs(q, 0), k), Due(k, time))
  {
    ClearAbs(q, k, 0);
    PlaceAbs(Clear(q, k), Timer(k, time, now), 0);
  }

  // ----- well-formedness -----

  /** tmclear walks past the timers that are not meant. */
  lemma {:induction false} ClearFrom(q: seq<Timer>, k: Key, i: nat)
    requires i <= |q| && forall j :: 0 <= j < i ==> q[j].key != k
    ensures Clear(q, k) == q[..i] + Clear(q[i..], k)
    decreases i
  {
    if i > 0 {
      ClearFrom(q[1..], k, i - 1);
      assert q[1..][i - 1..] == q[i..] && [q[0]] + q[1..][..i - 1] == q[..i];
    } else {
      assert q[0..] == q;
    }
  }

  /** What tmclear makes of the list when it finds its timer at `i`. */
  function Cut(q: seq<Timer>, i: nat): (r: seq<Timer>)
    requires i < |q|
    ensures |r| == |q| - 1
    ensures forall j :: 0 <= j < |r| ==> r[j].key == q[if j < i then j else j + 1].key
    ensures NonNeg(q) ==> NonNeg(r)
  {
    if i + 1 == |q| then q[..i]
    else q[..i] + [q[i + 1].(left := q[i + 1].left + q[i].left)] + q[i + 2..]
  }

  lemma CutIs(q: seq<Timer>, i: nat)
    requires i < |q|
    ensures var v := q[..i] + q[i + 1..];
            Cut(q, i) == if i + 1 < |q| then v[i := v[i].(left := v[i].left + q[i].left)] else v
  {
  }

  lemma ClearIs(q: seq<Timer>, k: Key, i: nat)
    requires i < |q| && q[i].key == k && forall j :: 0 <= j < i ==> q[j].key != k
    ensures Clear(q, k) == Cut(q, i)
  {
    ClearFrom(q, k, i);
    if i + 1 < |q| {
      var next := q[i + 1].(left := q[i + 1].left + q[i].left);
      assert q[i..][1] == q[i + 1] && q[i..][2..] == q[i + 2..];
      assert Clear(q[i..], k) == [next] + q[i + 2..];
      Regroup(q[..i], [next], q[i + 2..]);
    }
  }

  lemma ClearNothing(q: seq<Timer>, k: Key)
    requires !Has(q, k)
    ensures Clear(q, k) == q
  {
    ClearFrom(q, k, |q|);
  }

  lemma ClearOk(q: seq<Timer>, k: Key)
    requires Ok(q)
    ensures Ok(Clear(q, k)) && !Has(Clear(q, k), k)
  {
    if Has(q, k) {
      var i :| 0 <= i < |q| && q[i].key == k;
      ClearIs(q, k, i);
    } else {
      ClearNothing(q, k);
    }
  }

  /** The search has got to `i`, with `t` counted down; `all` is what comes out in the end. */
  predicate Searching(q: seq<Timer>, t: Timer, i: nat, all: seq<Timer>) {
    i <= |q| && all == q[..i] + Place(q[i..], t)
  }

  lemma SearchStart(q: seq<Timer>, t: Timer)
    ensures Searching(q, t, 0, Place(q, t))
  {
    assert q[0..] == q && q[..0] + Place(q, t) == Place(q, t);
  }

  /** tmset walks past the timers that expire no later, counting down what they take. */
  lemma {:induction false} SearchStep(q: seq<Timer>, t: Timer, i: nat, all: seq<Timer>)
    requires Searching(q, t, i, all) && i < |q| && t.left >= q[i].left
    ensures Searching(q, t.(left := t.left - q[i].left), i + 1, all)
  {
    var rest := Place(q[i + 1..], t.(left := t.left - q[i].left));
    assert q[i..][1..] == q[i + 1..];
    assert q[..i] + [q[i]] == q[..i + 1];
    Regroup(q[..i], [q[i]], rest);
  }

  function Keys(q: seq<Timer>): (ks: seq<Key>)
    ensures |ks| == |q|
  {
    seq(|q|, i requires 0 <= i < |q| => q[i].key)
  }

  /** Where the search stops. */
  lemma PlaceHere(q: seq<Timer>, t: Timer, i: nat)
    requires i <= |q| && (i < |q| ==> t.left < q[i].left)
    ensures var v := q[..i] + [t] + q[i..];
            q[..i] + Place(q[i..], t)
              == if i < |q| then v[i + 1 := q[i].(left := q[i].left - t.left)] else v
  {
    if i < |q| {
      var v := q[..i] + [t] + q[i..];
      var w := v[i + 1 := q[i].(left := q[i].left - t.left)];
      var p := Place(q[i..], t);
      assert p == [t, q[i].(left := q[i].left - t.left)] + q[i..][1..];
      assert q[..i] + p == w;
    }
  }

  /** Inserting adds one key, somewhere, and takes nothing below zero. */
  lemma {:induction false} PlaceAt(q: seq<Timer>, t: Timer) returns (p: nat)
    requires NonNeg(q) && t.left >= 0
    ensures p <= |q| && NonNeg(Place(q, t))
    ensures Keys(Place(q, t)) == Keys(q)[..p] + [t.key] + Keys(q)[p..]
    decreases |q|
  {
    if q == [] || t.left < q[0].left {
      p := 0;
    } else {
      var t' := t.(left := t.left - q[0].left);
      var m := PlaceAt(q[1..], t');
      p := m + 1;
      var s := Place(q[1..], t');
      assert Keys(q) == [q[0].key] + Keys(q[1..]);
      assert Keys([q[0]] + s) == [q[0].key] + Keys(s);
    }
  }

  lemma OneMoreKey(ks: seq<Key>, p: nat, k: Key)
    requires p <= |ks| && k !in ks && forall i, j :: 0 <= i < j < |ks| ==> ks[i] != ks[j]
    ensures var r := ks[..p] + [k] + ks[p..]; forall i, j :: 0 <= i < j < |r| ==> r[i] != r[j]
  {
  }

  lemma PlaceOk(q: seq<Timer>, t: Timer)
    requires Ok(q) && t.left >= 0 && !Has(q, t.key)
    ensures Ok(Place(q, t))
  {
    var p := PlaceAt(q, t);
    OneMoreKey(Keys(q), p, t.key);
    var r := Place(q, t);
    forall i, j | 0 <= i < j < |r| ensures r[i].key != r[j].key {
      assert Keys(r)[i] == r[i].key && Keys(r)[j] == r[j].key;
    }
  }

  /** Keys stay unique and differences nonnegative. */
  lemma SetOk(q: seq<Timer>, k: Key, time: int, now: int)
    requires Ok(q) && time >= 0
    ensures Ok(Set(q, k, time, now))
  {
    ClearOk(q, k);
    PlaceOk(Clear(q, k), Timer(k, time, now));
  }

  // ----- the list as a map from timers to times -----

  lemma {:induction false} LookupInserted(ds: seq<Due>, d: Due, k: Key)
    requires Lookup(ds, d.key) == None
    ensures Lookup(Inserted(ds, d), k) == if k == d.key then Some(d.at) else Lookup(ds, k)
    decreases |ds|
  {
    if ds != [] && d.at >= ds[0].at {
      LookupInserted(ds[1..], d, k);
      assert Inserted(ds, d)[1..] == Inserted(ds[1..], d);
    } else {
      assert Inserted(ds, d)[1..] == ds;
    }
  }

  lemma {:induction false} LookupWithout(ds: seq<Due>, k: Key, k': Key)
    requires forall i, j :: 0 <= i < j < |ds| ==> ds[i].key != ds[j].key
    ensures Lookup(Without(ds, k), k') == if k == k' then None else Lookup(ds, k')
    decreases |ds|
  {
    if ds != [] {
      if ds[0].key == k {
        if k == k' { NotFound(ds[1..], k); }
      } else {
        LookupWithout(ds[1..], k, k');
        assert Without(ds, k)[1..] == Without(ds[1..], k);
      }
    }
  }

  lemma {:induction false} NotFound(ds: seq<Due>, k: Key)
    requires forall i :: 0 <= i < |ds| ==> ds[i].key != k
    ensures Lookup(ds, k) == None
    decreases |ds|
  {
    if ds != [] { NotFound(ds[1..], k); }
  }

  /** Time left for a timer, if it is set. */
  function Remaining(q: seq<Timer>, k: Key): Option<int> { Lookup(Abs(q, 0), k) }

  lemma AbsUnique(q: seq<Timer>)
    requires Unique(q)
    ensures forall i, j :: 0 <= i < j < |q| ==> Abs(q, 0)[i].key != Abs(q, 0)[j].key
  {
    forall i, j | 0 <= i < j < |q| ensures Abs(q, 0)[i].key != Abs(q, 0)[j].key {
      AbsAt(q, 0, i);
      AbsAt(q, 0, j);
    }
  }

  /** tmset binds its own timer to the time given, and tmclear unbinds its own; no other
      timer's remaining time changes. */
  lemma AsMap(q: seq<Timer>, k: Key, time: int, now: int, k': Key)
    requires Ok(q)
    ensures Remaining(Set(q, k, time, now), k') == if k' == k then Some(time) else Remaining(q, k')
    ensures Remaining(Clear(q, k), k') == if k' == k then None else Remaining(q, k')
  {
    AbsUnique(q);
    SetAbs(q, k, time, now);
    ClearAbs(q, k, 0);
    LookupWithout(Abs(q, 0), k, k);
    LookupWithout(Abs(q, 0), k, k');
    LookupInserted(Without(Abs(q, 0), k), Due(k, time), k');
  }

  // ----- order and expiry -----

  /** Timers stand in the order in which they expire. */
  lemma {:induction false} AbsSorted(q: seq<Timer>, base: int, i: nat, j: nat)
    requires NonNeg(q) && i <= j < |q|
    ensures base <= Abs(q, base)[i].at <= Abs(q, base)[j].at
    decreases j
  {
    AbsAt(q, base, j);
    if i < j { AbsSorted(q, base, i, j - 1); } else if j > 0 { AbsSorted(q, base, 0, j - 1); }
  }

  /** Of the timers due at `ds`, the first `n` are due by `t` and no others. */
  predicate DueFirst(ds: seq<Due>, t: int, n: nat) {
    n <= |ds| && forall i :: 0 <= i < |ds| ==> (ds[i].at <= t <==> i < n)
  }

  lemma DueMore(d: Due, ds: seq<Due>, t: int, n: nat)
    requires DueFirst(ds, t, n) && d.at <= t
    ensures DueFirst([d] + ds, t, n + 1) && ([d] + ds)[n + 1..] == ds[n..]
  {
    var all := [d] + ds;
    forall i | 0 <= i < |all| ensures all[i].at <= t <==> i < n + 1 {
      if i > 0 { assert all[i] == ds[i - 1]; }
    }
  }

  lemma DueNone(q: seq<Timer>, t: int, base: int)
    requires NonNeg(q) && q != [] && base + q[0].left > t
    ensures DueFirst(Abs(q, base), t, 0)
  {
    forall i | 0 <= i < |q| ensures Abs(q, base)[i].at > t { AbsSorted(q, base, 0, i); }
  }

  /** Expiry after `d`: exactly the timers with at most `d` left go off, in the order in which
      they expire, and every other expires when it would have. */
  lemma {:induction false} ExpireExact(q: seq<Timer>, d: int, base: int) returns (n: nat)
    requires NonNeg(q)
    ensures n <= |q| && NonNeg(Expire(q, d).1) && Expire(q, d).0 == Keys(q)[..n]
    ensures Abs(Expire(q, d).1, base + d) == Abs(q, base)[n..]
    ensures DueFirst(Abs(q, base), base + d, n)
    decreases |q|
  {
    if q == [] {
      n := 0;
    } else if q[0].left <= d {
      var m := ExpireExact(q[1..], d - q[0].left, base + q[0].left);
      n := m + 1;
      assert Keys(q) == [q[0].key] + Keys(q[1..]);
      DueMore(Due(q[0].key, base + q[0].left), Abs(q[1..], base + q[0].left), base + d, m);
    } else {
      n := 0;
      assert Expire(q, d).1[1..] == q[1..];
      DueNone(q, base + d, base);
    }
  }

  /** Expiry keeps the list well formed. */
  lemma {:induction false} ExpireOk(q: seq<Timer>, d: int)
    requires Ok(q)
    ensures Ok(Expire(q, d).1)
    decreases |q|
  {
    if q != [] {
      if q[0].left <= d {
        assert Ok(q[1..]);
        ExpireOk(q[1..], d - q[0].left);
      } else {
        var r := Expire(q, d).1;
        assert forall i :: 0 <= i < |r| ==> r[i].key == q[i].key;
      }
    }
  }

  /** A new timer stands behind every one that expires no later, and in front of all others. */
  lemma {:induction false} InsertedBehind(ds: seq<Due>, d: Due) returns (p: nat)
    requires forall i, j :: 0 <= i <= j < |ds| ==> ds[i].at <= ds[j].at
    ensures p <= |ds| && Inserted(ds, d) == ds[..p] + [d] + ds[p..]
    ensures forall i :: 0 <= i < |ds| ==> (ds[i].at <= d.at <==> i < p)
    decreases |ds|
  {
    p := 0;
    if ds != [] && d.at >= ds[0].at {
      var rest := ds[1..];
      forall i, j | 0 <= i <= j < |rest| ensures rest[i].at <= rest[j].at { assert ds[i + 1].at <= ds[j + 1].at; }
      var m := InsertedBehind(rest, d);
      p := m + 1;
      assert Inserted(ds, d) == [ds[0]] + (rest[..m] + [d] + rest[m..]);
      assert ds[..p] == [ds[0]] + rest[..m] && ds[p..] == rest[m..];
      forall i | 0 <= i < |ds| ensures ds[i].at <= d.at <==> i < p {
        if i > 0 { assert ds[i] == rest[i - 1]; }
      }
    }
  }

  /** So among timers set for the same moment the one set first goes off first. */
  lemma SetBehind(q: seq<Timer>, k: Key, time: int, now: int, i: nat)
    requires Ok(q) && time >= 0 && i < |Clear(q, k)|
    ensures var was, r := Abs(Clear(q, k), 0), Abs(Set(q, k, time, now), 0);
            if was[i].at <= time then r[i] == was[i]
            else |r| == |was| + 1 && r[i + 1] == was[i]
  {
    ClearOk(q, k);
    var c := Clear(q, k);
    var was := Abs(c, 0);
    forall a, b | 0 <= a <= b < |was| ensures was[a].at <= was[b].at { AbsSorted(c, 0, a, b); }
    PlaceAbs(c, Timer(k, time, now), 0);
    var p := InsertedBehind(was, Due(k, time));
  }

  // ----- when a timer was set -----

  function SetAt(q: seq<Timer>, k: Key): Option<int> {
    if q == [] then None else if q[0].key == k then Some(q[0].since) else SetAt(q[1..], k)
  }

  lemma {:induction false} SetAtPlace(q: seq<Timer>, t: Timer, k: Key)
    requires !Has(q, t.key)
    ensures SetAt(Place(q, t), k) == if k == t.key then Some(t.since) else SetAt(q, k)
    decreases |q|
  {
    if q == [] {
      assert Place(q, t)[1..] == [];
    } else if t.left < q[0].left {
      assert q[0].key != t.key;
      var r := Place(q, t);
      assert r[1..][1..] == q[1..];
      if k == t.key { NotSet(q, k); }
    } else {
      assert q[0].key != t.key;
      var rest := q[1..];
      assert forall i :: 0 <= i < |rest| ==> rest[i] == q[i + 1];
      SetAtPlace(rest, t.(left := t.left - q[0].left), k);
      assert Place(q, t)[1..] == Place(rest, t.(left := t.left - q[0].left));
    }
  }

  lemma {:induction false} NotSet(q: seq<Timer>, k: Key)
    requires !Has(q, k)
    ensures SetAt(q, k) == None
    decreases |q|
  {
    if q != [] {
      assert q[0].key != k;
      assert forall i :: 0 <= i < |q[1..]| ==> q[1..][i] == q[i + 1];
      NotSet(q[1..], k);
    }
  }

  lemma {:induction false} SetAtClear(q: seq<Timer>, k: Key, k': Key)
    requires Unique(q)
    ensures SetAt(Clear(q, k), k') == if k' == k then None else SetAt(q, k')
    decreases |q|
  {
    if q != [] {
      var rest := q[1..];
      assert forall i :: 0 <= i < |rest| ==> rest[i] == q[i + 1];
      if q[0].key == k {
        assert !Has(rest, k);
        NotSet(rest, k);
        if |q| > 1 { assert Clear(q, k)[1..] == rest[1..]; }
      } else {
        SetAtClear(rest, k, k');
        assert Clear(q, k)[1..] == Clear(rest, k);
      }
    }
  }

  /** The list knows when each timer was set, whatever is set or cleared besides: what tmclear returns,
      and tcprtt takes for the round trip, is the time since then. */
  lemma SetAtExact(q: seq<Timer>, k: Key, time: int, now: int, k': Key)
    requires Ok(q) && time >= 0
    ensures SetAt(Set(q, k, time, now), k') == if k' == k then Some(now) else SetAt(q, k')
    ensures SetAt(Clear(q, k), k') == if k' == k then None else SetAt(q, k')
  {
    ClearOk(q, k);
    SetAtClear(q, k, k');
    SetAtPlace(Clear(q, k), Timer(k, time, now), k');
  }

  // ----- any run, against the clock -----

  /** The time a round counts down: what has gone by since the last one, or an estimate when the clock
      was set back or more than a second went by. */
  function Elapsed(d: int): int { if 0 <= d <= TIMERGRAN * 100 then d else TIMERGRAN * 10 }

  /** What can happen: `Pass` is the clock going on, or being set, and `Round` a round of the timer
      process. */
  datatype Op = SetTimer(k: Key, time: int) | ClearTimer(k: Key) | Pass(n: int) | Round

  /** The list, the clock, what it said in the last round, and everything that went off so far. */
  datatype World = World(q: seq<Timer>, clock: int, lastrun: int, fired: seq<Key>)

  function Step(w: World, op: Op): World {
    match op
    case SetTimer(k, time) => w.(q := Set(w.q, k, time, w.clock))
    case ClearTimer(k) => w.(q := Clear(w.q, k))
    case Pass(n) => w.(clock := w.clock + n)
    case Round =>
      var (fired, q) := Expire(w.q, Elapsed(w.clock - w.lastrun));
      World(q, w.clock, w.clock, w.fired + fired)
  }

  function Run(w: World, ops: seq<Op>): World
    decreases |ops|
  {
    if ops == [] then w else Run(Step(w, ops[0]), ops[1..])
  }

  /** The same with no differences anywhere: every timer has a point on the clock, and goes off in the
      first round in which the clock has reached it. A timer's time counts from the last round before it
      was set; and time that a round does not count moves every point by as much. */
  datatype Calendar = Calendar(dues: seq<Due>, clock: int, lastrun: int, fired: seq<Key>)

  function Reached(ds: seq<Due>, t: int): seq<Due> {
    if ds == [] then [] else (if ds[0].at <= t then [ds[0]] else []) + Reached(ds[1..], t)
  }

  function Ahead(ds: seq<Due>, t: int): seq<Due> {
    if ds == [] then [] else (if ds[0].at > t then [ds[0]] else []) + Ahead(ds[1..], t)
  }

  function Moved(ds: seq<Due>, n: int): seq<Due> {
    seq(|ds|, i requires 0 <= i < |ds| => ds[i].(at := ds[i].at + n))
  }

  function DueKeys(ds: seq<Due>): seq<Key> {
    seq(|ds|, i requires 0 <= i < |ds| => ds[i].key)
  }

  function CalendarStep(c: Calendar, op: Op): Calendar {
    match op
    case SetTimer(k, time) => c.(dues := Inserted(Without(c.dues, k), Due(k, c.lastrun + time)))
    case ClearTimer(k) => c.(dues := Without(c.dues, k))
    case Pass(n) => c.(clock := c.clock + n)
    case Round =>
      var d := c.clock - c.lastrun;
      var ds := Moved(c.dues, d - Elapsed(d));
      Calendar(Ahead(ds, c.clock), c.clock, c.clock, c.fired + DueKeys(Reached(ds, c.clock)))
  }

  function CalendarRun(c: Calendar, ops: seq<Op>): Calendar
    decreases |ops|
  {
    if ops == [] then c else CalendarRun(CalendarStep(c, ops[0]), ops[1..])
  }

  predicate Sane(op: Op) { op.SetTimer? ==> op.time >= 0 }

  lemma {:induction false} SplitAt(ds: seq<Due>, t: int, n: nat)
    requires DueFirst(ds, t, n)
    ensures Reached(ds, t) == ds[..n] && Ahead(ds, t) == ds[n..]
    decreases |ds|
  {
    if ds != [] {
      if n > 0 {
        SplitAt(ds[1..], t, n - 1);
        assert ds[..n] == [ds[0]] + ds[1..][..n - 1] && ds[n..] == ds[1..][n - 1..];
      } else {
        SplitAt(ds[1..], t, 0);
        assert ds == [ds[0]] + ds[1..];
      }
    }
  }

  lemma ElapseRefines(q: seq<Timer>, d: int, clock: int)
    requires NonNeg(q)
    ensures var (fired, r) := Expire(q, d); var ds := Abs(q, clock);
            fired == DueKeys(Reached(ds, clock + d)) && Abs(r, clock + d) == Ahead(ds, clock + d)
  {
    var n := ExpireExact(q, d, clock);
    var ds := Abs(q, clock);
    SplitAt(ds, clock + d, n);
    forall i | 0 <= i < n ensures ds[i].key == q[i].key { AbsAt(q, clock, i); }
    assert DueKeys(ds[..n]) == Expire(q, d).0;
  }

  lemma {:induction false} AbsMoved(q: seq<Timer>, base: int, n: int)
    ensures Abs(q, base + n) == Moved(Abs(q, base), n)
    decreases |q|
  {
    if q != [] {
      var b := base + q[0].left;
      AbsMoved(q[1..], b, n);
      assert Moved(Abs(q, base), n) == [Due(q[0].key, b + n)] + Moved(Abs(q[1..], b), n);
    }
  }

  /** The list is the calendar: the same timers, due at the same points on the clock and in the same
      order, and the same timers gone off, in the same order. */
  ghost predicate Refines(w: World, c: Calendar) {
    Ok(w.q) && w.clock == c.clock && w.lastrun == c.lastrun && w.fired == c.fired && Abs(w.q, w.lastrun) == c.dues
  }

  lemma RoundRefines(w: World, c: Calendar)
    requires Refines(w, c)
    ensures Refines(Step(w, Round), CalendarStep(c, Round))
  {
    var d := w.clock - w.lastrun;
    var e := Elapsed(d);
    ExpireOk(w.q, e);
    AbsMoved(w.q, w.lastrun, d - e);
    ElapseRefines(w.q, e, w.clock - e);
  }

  lemma StepRefines(w: World, c: Calendar, op: Op)
    requires Refines(w, c) && Sane(op)
    ensures Refines(Step(w, op), CalendarStep(c, op))
  {
    match op
    case SetTimer(k, time) =>
      SetOk(w.q, k, time, w.clock);
      ClearAbs(w.q, k, w.lastrun);
      PlaceAbs(Clear(w.q, k), Timer(k, time, w.clock), w.lastrun);
    case ClearTimer(k) =>
      ClearOk(w.q, k);
      ClearAbs(w.q, k, w.lastrun);
    case Pass(_) =>
    case Round => RoundRefines(w, c);
  }

  /** Over any run, with the clock set as it may be, the differential list is the calendar. */
  lemma {:induction false} RunRefines(w: World, c: Calendar, ops: seq<Op>)
    requires Refines(w, c) && forall op :: op in ops ==> Sane(op)
    ensures Refines(Run(w, ops), CalendarRun(c, ops))
    decreases |ops|
  {
    if ops != [] {
      StepRefines(w, c, ops[0]);
      RunRefines(Step(w, ops[0]), CalendarStep(c, ops[0]), ops[1..]);
    }
  }

  /** What a round does to every timer: one with more left than is counted has that much less, any other
      goes off. What is counted is the time since the last round, up to a second, and a tenth of a second
      when it is more or the clock was set back. */
  lemma RoundExact(w: World, k: Key)
    requires Ok(w.q)
    ensures var gap := w.clock - w.lastrun; var counted := if gap < 0 || gap > 100 then 10 else gap;
            var v := Step(w, Round);
            && Ok(v.q) && v.clock == v.lastrun == w.clock
            && Remaining(v.q, k) == match Remaining(w.q, k)
                                    case None => None
                                    case Some(t) => if t > counted then Some(t - counted) else None
  {
    ExpireOk(w.q, Elapsed(w.clock - w.lastrun));
    RemainingExpire(w.q, Elapsed(w.clock - w.lastrun), k);
  }

  // ----- whether a timer is on time -----

  lemma {:induction false} LookupMoved(ds: seq<Due>, n: int, k: Key)
    ensures Lookup(Moved(ds, n), k) == match Lookup(ds, k) case None => None case Some(t) => Some(t + n)
    decreases |ds|
  {
    if ds != [] {
      LookupMoved(ds[1..], n, k);
      assert Moved(ds, n)[1..] == Moved(ds[1..], n);
    }
  }

  lemma {:induction false} LookupAhead(ds: seq<Due>, t: int, k: Key)
    requires forall i, j :: 0 <= i < j < |ds| ==> ds[i].key != ds[j].key
    ensures Lookup(Ahead(ds, t), k) == match Lookup(ds, k) case None => None
                                                           case Some(at) => if at > t then Some(at) else None
    decreases |ds|
  {
    if ds != [] {
      LookupAhead(ds[1..], t, k);
      if ds[0].key == k { NotFound(ds[1..], k); }
      var rest := Ahead(ds[1..], t);
      if ds[0].at > t { assert Ahead(ds, t)[1..] == rest; } else { assert Ahead(ds, t) == [] + rest == rest; }
    }
  }

  /** What a round does to one timer. */
  lemma RemainingExpire(q: seq<Timer>, d: int, k: Key)
    requires Ok(q)
    ensures Remaining(Expire(q, d).1, k) == match Remaining(q, k)
                                            case None => None
                                            case Some(t) => if t > d then Some(t - d) else None
  {
    var r := Expire(q, d).1;
    ElapseRefines(q, d, 0);
    AbsUnique(q);
    LookupAhead(Abs(q, 0), d, k);
    AbsMoved(r, 0, d);
    LookupMoved(Abs(r, 0), d, k);
  }

  /** The clock goes on, rounds come at most a second apart, and no one touches the timer `k`. */
  predicate Regular(w: World, k: Key, ops: seq<Op>)
    decreases |ops|
  {
    ops != [] ==>
      && (match ops[0]
          case SetTimer(k', time) => k' != k && time >= 0
          case ClearTimer(k') => k' != k
          case Pass(n) => n >= 0
          case Round => 0 <= w.clock - w.lastrun <= TIMERGRAN * 100)
      && Regular(Step(w, ops[0]), k, ops[1..])
  }

  lemma RegularStep(w: World, k: Key, ops: seq<Op>)
    requires ops != [] && Regular(w, k, ops) && Ok(w.q) && w.lastrun <= w.clock
    ensures var v := Step(w, ops[0]);
            && Ok(v.q) && w.lastrun <= v.lastrun <= v.clock && w.clock <= v.clock
            && v.lastrun == (if ops[0].Round? then w.clock else w.lastrun)
            && Remaining(v.q, k) == match Remaining(w.q, k)
                                    case None => None
                                    case Some(t) =>
                                      if ops[0].Round? && t <= w.clock - w.lastrun then None
                                      else Some(t - (v.lastrun - w.lastrun))
  {
    match ops[0]
    case SetTimer(k', time) =>
      SetOk(w.q, k', time, w.clock);
      AsMap(w.q, k', time, w.clock, k);
    case ClearTimer(k') =>
      ClearOk(w.q, k');
      AsMap(w.q, k', 0, w.clock, k);
    case Pass(_) =>
    case Round =>
      ExpireOk(w.q, w.clock - w.lastrun);
      RemainingExpire(w.q, w.clock - w.lastrun, k);
  }

  lemma {:induction false} StaysGone(w: World, k: Key, ops: seq<Op>)
    requires Regular(w, k, ops) && Ok(w.q) && w.lastrun <= w.clock && Remaining(w.q, k) == None
    ensures var v := Run(w, ops); Remaining(v.q, k) == None && w.lastrun <= v.lastrun <= v.clock && w.clock <= v.clock
    decreases |ops|
  {
    if ops != [] {
      RegularStep(w, k, ops);
      StaysGone(Step(w, ops[0]), k, ops[1..]);
    }
  }

  /** A timer due at `due` has gone off if and only if some round was held with the clock there. */
  lemma {:induction false} PendingIff(w: World, k: Key, due: int, ops: seq<Op>)
    requires Regular(w, k, ops) && Ok(w.q) && w.lastrun <= w.clock && Remaining(w.q, k) == Some(due - w.lastrun)
    ensures var v := Run(w, ops);
            && w.lastrun <= v.lastrun <= v.clock && w.clock <= v.clock
            && (Remaining(v.q, k).Some? <==> Round !in ops || v.lastrun < due)
            && (Round !in ops ==> v.lastrun == w.lastrun)
    decreases |ops|
  {
    if ops != [] {
      RegularStep(w, k, ops);
      var v := Step(w, ops[0]);
      if Remaining(v.q, k) == None {
        StaysGone(v, k, ops[1..]);
      } else {
        PendingIff(v, k, due, ops[1..]);
      }
    }
  }

  /** Rounds a hundredth of a second apart. */
  function Rounds(n: nat): seq<Op> {
    if n == 0 then [] else [Pass(1), Round] + Rounds(n - 1)
  }

  lemma {:induction false} RoundsRegular(w: World, k: Key, n: nat)
    requires w.lastrun == w.clock
    ensures Regular(w, k, Rounds(n))
    ensures var v := Run(w, Rounds(n)); v.clock == v.lastrun == w.clock + n
    decreases n
  {
    if n > 0 {
      var ops := Rounds(n);
      var w1 := Step(w, ops[0]);
      assert ops[1..][1..] == Rounds(n - 1) && ops[1..][0] == Round;
      RoundsRegular(Step(w1, Round), k, n - 1);
    }
  }

  /** The same, but the first round may come after any time: with nothing on its list the timer process
      waits, and the clock may have been set before. */
  predicate Resumed(w: World, k: Key, ops: seq<Op>)
    decreases |ops|
  {
    ops != [] ==>
      if ops[0].Round? then Regular(Step(w, Round), k, ops[1..])
      else
        && (match ops[0]
            case SetTimer(k', time) => k' != k && time >= 0
            case ClearTimer(k') => k' != k
            case Pass(n) => n >= 0
            case Round => true)
        && Resumed(Step(w, ops[0]), k, ops[1..])
  }

  /** Until there is a round only the clock moves. */
  lemma QuietStep(w: World, k: Key, ops: seq<Op>)
    requires ops != [] && !ops[0].Round? && Resumed(w, k, ops) && Ok(w.q)
    ensures var v := Step(w, ops[0]);
            Ok(v.q) && v.lastrun == w.lastrun && w.clock <= v.clock && Remaining(v.q, k) == Remaining(w.q, k)
  {
    match ops[0]
    case SetTimer(k', time) =>
      SetOk(w.q, k', time, w.clock);
      AsMap(w.q, k', time, w.clock, k);
    case ClearTimer(k') =>
      ClearOk(w.q, k');
      AsMap(w.q, k', 0, w.clock, k);
    case _ =>
  }

  /** A timer with `time` left, set when the clock said `at` and with no round since: the first round
      counts at most what one at `at` would have, and the time that has gone by. */
  lemma {:induction false} NotBefore(w: World, k: Key, time: int, ops: seq<Op>, at: int)
    requires Ok(w.q) && Remaining(w.q, k) == Some(time) && time >= 0 && Resumed(w, k, ops) && at <= w.clock
    ensures var v := Run(w, ops);
            && w.clock <= v.clock
            && (Remaining(v.q, k) == None ==> v.clock >= at + time - Elapsed(at - w.lastrun))
    decreases |ops|
  {
    if ops != [] {
      var v := Step(w, ops[0]);
      if ops[0].Round? {
        var e := Elapsed(w.clock - w.lastrun);
        ExpireOk(w.q, e);
        RemainingExpire(w.q, e, k);
        if time <= e {
          StaysGone(v, k, ops[1..]);
        } else {
          PendingIff(v, k, v.clock + (time - e), ops[1..]);
        }
      } else {
        QuietStep(w, k, ops);
        NotBefore(v, k, time, ops[1..], at);
      }
    }
  }

  /** The earliest a timer can go off: short by what a round at the moment it is set would count. That is
      the time since the last round, or a tenth of a second if that is more than a second or if the clock
      was set back. */
  function Earliest(w: World, time: int): int {
    var e := Elapsed(w.clock - w.lastrun);
    w.clock + if time <= e then 0 else time - e
  }

  /** No timer goes off before then. */
  lemma NeverEarlier(w: World, k: Key, time: int, ops: seq<Op>)
    requires Ok(w.q) && time >= 0 && Resumed(Step(w, SetTimer(k, time)), k, ops)
    ensures var v := Run(Step(w, SetTimer(k, time)), ops);
            Remaining(v.q, k) == None ==> v.clock >= Earliest(w, time)
  {
    SetOk(w.q, k, time, w.clock);
    AsMap(w.q, k, time, w.clock, k);
    NotBefore(Step(w, SetTimer(k, time)), k, time, ops, w.clock);
  }

  /** And every timer can go off just then: if a round is held at once, and then others. */
  lemma EarliestReached(w: World, k: Key, time: int) returns (ops: seq<Op>)
    requires Ok(w.q) && time >= 0
    ensures var u := Step(w, SetTimer(k, time)); var v := Run(u, ops);
            Resumed(u, k, ops) && Remaining(v.q, k) == None && v.clock == Earliest(w, time)
  {
    SetOk(w.q, k, time, w.clock);
    AsMap(w.q, k, time, w.clock, k);
    ops := RoundsReach(Step(w, SetTimer(k, time)), k, time);
  }

  lemma RoundsReach(u: World, k: Key, time: int) returns (ops: seq<Op>)
    requires Ok(u.q) && Remaining(u.q, k) == Some(time)
    ensures Resumed(u, k, ops) && Remaining(Run(u, ops).q, k) == None && Run(u, ops).clock == Earliest(u, time)
  {
    var e := Elapsed(u.clock - u.lastrun);
    ExpireOk(u.q, e);
    RemainingExpire(u.q, e, k);
    var v := Step(u, Round);
    var n: nat := if time <= e then 0 else time - e;
    ops := [Round] + Rounds(n);
    assert ops[1..] == Rounds(n);
    RoundsRegular(v, k, n);
    if n > 0 {
      PendingIff(v, k, v.clock + n, Rounds(n));
      assert Rounds(n)[1] == Round;
    }
  }

  ghost predicate CanBeEarly(w: World, k: Key, time: int) {
    var u := Step(w, SetTimer(k, time));
    exists ops :: Resumed(u, k, ops) && EarlyAfter(w, k, time, Run(u, ops))
  }

  predicate EarlyAfter(w: World, k: Key, time: int, v: World) {
    Remaining(v.q, k) == None && v.clock < w.clock + time
  }

  /** So a timer can be early if and only if it is not set at the moment of a round. */
  lemma EarlyIff(w: World, k: Key, time: int)
    requires Ok(w.q) && time > 0
    ensures CanBeEarly(w, k, time) <==> w.lastrun != w.clock
  {
    var u := Step(w, SetTimer(k, time));
    forall ops | Resumed(u, k, ops) ensures EarlyAfter(w, k, time, Run(u, ops)) ==> Earliest(w, time) < w.clock + time {
      NeverEarlier(w, k, time, ops);
    }
    var ops := EarliestReached(w, k, time);
    assert w.lastrun != w.clock ==> EarlyAfter(w, k, time, Run(u, ops));
  }

  // ----- the code -----

  class TqEnt {
    const key: Key
    const since: int
    var timeleft: int
    var next: TqEnt?

    constructor (key: Key, timeleft: int, since: int)
      ensures this.key == key && this.since == since && this.timeleft == timeleft && next == null
    {
      this.key, this.since, this.timeleft, this.next := key, since, timeleft, null;
    }

    function View(): Timer
      reads this
    {
      Timer(key, timeleft, since)
    }
  }

  ghost function NodeAt(ns: seq<TqEnt>, i: nat): TqEnt? {
    if i < |ns| then ns[i] else null
  }

  ghost predicate Differ(ns: seq<TqEnt>, i: nat, j: nat)
    requires i < |ns| && j < |ns|
  {
    ns[i] != ns[j]
  }

  ghost predicate Distinct(ns: seq<TqEnt>) {
    forall i, j :: 0 <= i < j < |ns| ==> Differ(ns, i, j)
  }

  lemma DistinctCut(was: seq<TqEnt>, i: nat)
    requires i < |was| && Distinct(was)
    ensures Distinct(was[..i] + was[i + 1..])
  {
    var ns := was[..i] + was[i + 1..];
    forall j, k | 0 <= j < k < |ns| ensures Differ(ns, j, k) {
      var m, n := if j < i then j else j + 1, if k < i then k else k + 1;
      assert ns[j] == was[m] && ns[k] == was[n] && Differ(was, m, n);
    }
  }

  lemma DistinctSplice(was: seq<TqEnt>, n: TqEnt, i: nat)
    requires i <= |was| && Distinct(was) && n !in was
    ensures Distinct(was[..i] + [n] + was[i..])
  {
    var ns := was[..i] + [n] + was[i..];
    forall j, k | 0 <= j < k < |ns| ensures Differ(ns, j, k) {
      var a, b := if j < i then j else j - 1, if k < i then k else k - 1;
      if j != i && k != i { assert ns[j] == was[a] && ns[k] == was[b] && Differ(was, a, b); }
      else if j == i { assert ns[k] == was[k - 1]; } else { assert ns[j] == was[j]; }
    }
  }

  /** The timer process's list: `nodes` is the chain of entries from tqhead on, and `list` what
      they say. */
  class TimerList {
    var tqhead: TqEnt?
    var ctr100: int
    var lastrun: int
    ghost var nodes: seq<TqEnt>
    ghost var list: seq<Timer>

    ghost predicate Valid()
      reads this`tqhead, this`nodes, this`list, nodes
    {
      && tqhead == NodeAt(nodes, 0) && |list| == |nodes|
      && (forall i: nat :: i < |nodes| ==> EntryAt(i))
      && Distinct(nodes)
    }

    ghost predicate EntryAt(i: nat)
      requires |list| == |nodes|
      reads this`nodes, this`list, nodes
    {
      i < |nodes| && nodes[i].next == NodeAt(nodes, i + 1) && list[i] == nodes[i].View()
    }

    constructor ()
      ensures Valid() && list == []
    {
      tqhead, nodes, list, ctr100, lastrun := null, [], [], 0, 0;
    }

    /** tmclear: how long ago the timer was set, or None if it is not. */
    method TmClear(k: Key) returns (spent: Option<int>)
      requires Valid()
      modifies this`tqhead, this`nodes, this`list, nodes
      ensures Valid() && list == Clear(old(list), k)
      ensures forall i :: 0 <= i < |nodes| ==> nodes[i] in old(nodes)
      ensures spent.Some? <==> Has(old(list), k)
      ensures spent.Some? ==> exists i :: 0 <= i < |old(list)| && old(list)[i].key == k
                                          && spent.value == ctr100 - old(list)[i].since
    {
      ghost var i := 0;
      var prev: TqEnt? := null;
      var ptq := tqhead;
      while ptq != null
        invariant nodes == old(nodes) && list == old(list) && tqhead == old(tqhead) && Valid()
        invariant i <= |nodes| && ptq == NodeAt(nodes, i) && prev == if i == 0 then null else nodes[i - 1]
        invariant forall j :: 0 <= j < i ==> list[j].key != k
        decreases |nodes| - i
      {
        assert EntryAt(i);
        if ptq.key == k {
          spent := Some(ctr100 - ptq.since);
          ClearIs(list, k, i);
          Remove(prev, ptq, i);
          return;
        }
        prev, ptq := ptq, ptq.next;
        i := i + 1;
      }
      ClearNothing(list, k);
      spent := None;
    }

    /** Entry `i`, at `ptq` behind `prev`, is unlinked, and what it had left goes to the next. */
    method Remove(prev: TqEnt?, ptq: TqEnt, ghost i: nat)
      requires Valid() && i < |nodes| && ptq == nodes[i] && prev == (if i == 0 then null else nodes[i - 1])
      modifies this`tqhead, this`nodes, this`list, nodes
      ensures Valid() && list == Cut(old(list), i)
      ensures nodes == old(nodes)[..i] + old(nodes)[i + 1..]
    {
      assert EntryAt(i);
      CutIs(list, i);
      var next := ptq.next;
      Unlink(prev, ptq, i);
      if next != null {
        Add(next, ptq.timeleft, i);
      }
    }

    method Unlink(prev: TqEnt?, ptq: TqEnt, ghost i: nat)
      requires Valid() && i < |nodes| && ptq == nodes[i] && prev == (if i == 0 then null else nodes[i - 1])
      modifies this`tqhead, this`nodes, this`list, nodes`next
      ensures Valid() && list == old(list)[..i] + old(list)[i + 1..]
      ensures nodes == old(nodes)[..i] + old(nodes)[i + 1..]
    {
      ghost var was := nodes;
      assert EntryAt(i) && (i > 0 ==> EntryAt(i - 1) && Differ(nodes, i - 1, i));
      DistinctCut(nodes, i);
      if prev != null {
        prev.next := ptq.next;
      } else {
        tqhead := ptq.next;
      }
      nodes := nodes[..i] + nodes[i + 1..];
      list := list[..i] + list[i + 1..];
      forall j: nat | j < |nodes| ensures EntryAt(j) {
        var m := if j < i then j else j + 1;
        assert nodes[j] == was[m] && old(EntryAt(m));
        assert i > 0 && m < i - 1 ==> Differ(was, m, i - 1);
        assert i > 0 && m > i ==> Differ(was, i - 1, m);
      }
    }

    /** Entry `i`, at `n`, gets `d` more. */
    method Add(n: TqEnt, d: int, ghost i: nat)
      requires Valid() && i < |nodes| && n == nodes[i]
      modifies this`list, n`timeleft
      ensures Valid() && list == old(list)[i := old(list)[i].(left := old(list)[i].left + d)]
    {
      assert EntryAt(i);
      n.timeleft := n.timeleft + d;
      list := list[i := list[i].(left := list[i].left + d)];
      forall j: nat | j < |nodes| ensures EntryAt(j) {
        assert old(EntryAt(j));
        assert j < i ==> Differ(nodes, j, i);
        assert i < j ==> Differ(nodes, i, j);
      }
    }

    /** tmset: the timer is set to go off after `time`, and only once. */
    method TmSet(k: Key, time: int)
      requires Valid()
      modifies this`tqhead, this`nodes, this`list, nodes
      ensures Valid() && list == Set(old(list), k, time, ctr100)
      ensures forall i :: 0 <= i < |nodes| ==> nodes[i] in old(nodes) || fresh(nodes[i])
    {
      var newtq := new TqEnt(k, time, ctr100);
      var spent := TmClear(k);
      var ptq, tq, i := Search(newtq);
      Insert(ptq, newtq, tq, i);
    }

    /** The search loop of tmset: between which two entries the new one belongs, having counted
        down what those before it take. */
    method Search(newtq: TqEnt) returns (ptq: TqEnt?, tq: TqEnt?, ghost i: nat)
      requires Valid() && newtq !in nodes
      modifies newtq`timeleft
      ensures Valid() && i <= |nodes| && tq == NodeAt(nodes, i)
      ensures ptq == (if i == 0 then null else nodes[i - 1]) && (tq != null ==> newtq.timeleft < tq.timeleft)
      ensures Searching(list, newtq.View(), i, Place(list, old(newtq.View())))
    {
      i := 0;
      ptq, tq := null, tqhead;
      ghost var all := Place(list, newtq.View());
      SearchStart(list, newtq.View());
      while tq != null && newtq.timeleft >= tq.timeleft
        invariant Valid()
        invariant i <= |nodes| && tq == NodeAt(nodes, i) && ptq == if i == 0 then null else nodes[i - 1]
        invariant Searching(list, newtq.View(), i, all)
        decreases |nodes| - i
      {
        assert EntryAt(i);
        SearchStep(list, newtq.View(), i, all);
        newtq.timeleft := newtq.timeleft - tq.timeleft;
        ptq, tq := tq, tq.next;
        i := i + 1;
      }
    }

    /** The end of tmset: the entry is linked in, and the one after it counts from it. */
    method Insert(ptq: TqEnt?, newtq: TqEnt, tq: TqEnt?, ghost i: nat)
      requires Valid() && i <= |nodes| && tq == NodeAt(nodes, i) && newtq !in nodes
      requires (ptq == if i == 0 then null else nodes[i - 1]) && (tq != null ==> newtq.timeleft < tq.timeleft)
      modifies this`tqhead, this`nodes, this`list, nodes, newtq`next
      ensures Valid() && nodes == old(nodes)[..i] + [newtq] + old(nodes)[i..]
      ensures list == old(list)[..i] + Place(old(list)[i..], old(newtq.View()))
    {
      assert tq != null ==> EntryAt(i);
      PlaceHere(list, newtq.View(), i);
      LinkIn(ptq, newtq, tq, i);
      if tq != null {
        Add(tq, -newtq.timeleft, i + 1);
      }
    }

    /** A new entry between `ptq` and `tq`. */
    method LinkIn(ptq: TqEnt?, newtq: TqEnt, tq: TqEnt?, ghost i: nat)
      requires Valid() && i <= |nodes| && tq == NodeAt(nodes, i) && newtq !in nodes
      requires ptq == if i == 0 then null else nodes[i - 1]
      modifies this`tqhead, this`nodes, this`list, nodes`next, newtq`next
      ensures Valid() && list == old(list)[..i] + [newtq.View()] + old(list)[i..]
      ensures nodes == old(nodes)[..i] + [newtq] + old(nodes)[i..]
    {
      ghost var was := nodes;
      DistinctSplice(nodes, newtq, i);
      assert i > 0 ==> EntryAt(i - 1);
      newtq.next := tq;
      if ptq != null {
        ptq.next := newtq;
      } else {
        tqhead := newtq;
      }
      nodes := nodes[..i] + [newtq] + nodes[i..];
      list := list[..i] + [newtq.View()] + list[i..];
      assert EntryAt(i);
      forall j: nat | j < i ensures EntryAt(j) {
        assert nodes[j] == was[j] && old(EntryAt(j));
        assert j < i - 1 ==> Differ(was, j, i - 1);
      }
      forall j: nat | i < j < |nodes| ensures EntryAt(j) {
        assert nodes[j] == was[j - 1] && old(EntryAt(j - 1));
        if i > 0 { assert Differ(was, i - 1, j - 1); }
      }
    }

    /** tmleft: the time left for a timer, 0 when it is not set. */
    method TmLeft(k: Key) returns (left: int)
      requires Valid()
      ensures left == match Remaining(list, k) case None => 0 case Some(t) => t
    {
      ghost var i := 0;
      left := 0;
      var tq := tqhead;
      assert list[0..] == list;
      while tq != null
        invariant i <= |nodes| && tq == NodeAt(nodes, i)
        invariant Remaining(list, k) == Lookup(Abs(list[i..], left), k)
        decreases |nodes| - i
      {
        assert EntryAt(i) && list[i..][1..] == list[i + 1..];
        left := left + tq.timeleft;
        if tq.key == k {
          return;
        }
        tq := tq.next;
        i := i + 1;
      }
      left := 0;
    }

    /** One round of tcptimer: the time since the last round, or an estimate when the clock
        jumped, is counted down; the timers that expire are taken off and signalled. */
    method Tick() returns (fired: seq<Key>, elapsed: int)
      requires Valid()
      modifies this`tqhead, this`nodes, this`list, this`lastrun, nodes
      ensures Valid() && lastrun == ctr100
      ensures elapsed == Elapsed(ctr100 - old(lastrun))
      ensures (fired, list) == Expire(old(list), elapsed)
    {
      var delta := ctr100 - lastrun;
      if delta < 0 || delta > TIMERGRAN * 100 {
        delta := TIMERGRAN * 10;
      }
      elapsed := delta;
      lastrun := ctr100;
      fired := CountDown(delta);
    }

    /** The expiry loop. */
    method CountDown(d: int) returns (fired: seq<Key>)
      requires Valid()
      modifies this`tqhead, this`nodes, this`list, nodes
      ensures Valid() && (fired, list) == Expire(old(list), d)
    {
      var delta := d;
      fired := [];
      ghost var ns := nodes;
      ghost var all := Expire(list, delta);
      while tqhead != null && tqhead.timeleft <= delta
        invariant Valid() && (forall i :: 0 <= i < |nodes| ==> nodes[i] in ns)
        invariant var r := Expire(list, delta); all.1 == r.1 && all.0 == fired + r.0
        decreases |nodes|
      {
        assert EntryAt(0);
        delta := delta - tqhead.timeleft;
        fired := fired + [tqhead.key];
        PopHead();
      }
      assert fired + [] == fired;
      if tqhead != null {
        assert EntryAt(0);
        ghost var v := list;
        Add(tqhead, -delta, 0);
        assert list == [v[0].(left := v[0].left - delta)] + v[1..];
      }
    }

    /** The head leaves the list; nothing is carried over, its time has gone by. */
    method PopHead()
      requires Valid() && tqhead != null
      modifies this`tqhead, this`nodes, this`list
      ensures Valid() && nodes == old(nodes)[1..] && list == old(list)[1..]
    {
      assert EntryAt(0);
      DistinctCut(nodes, 0);
      assert nodes[..0] + nodes[1..] == nodes[1..];
      tqhead := tqhead.next;
      nodes, list := nodes[1..], list[1..];
      forall j: nat | j < |nodes| ensures EntryAt(j) { assert old(EntryAt(j + 1)); }
    }
  }
}
