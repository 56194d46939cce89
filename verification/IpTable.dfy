/** The table of fragment queues over any run of arrivals and timer ticks: what each entry waits for,
    and when it is given back. */
module IpTable {
  import opened Wrappers
  import opened Ring
  import opened Gpq
  import opened IpFragment
  import opened IpReassemble
  import opened IpRoundTrip

  // ----- what a queue waits for -----

  /** The fragment at place `k` begins beyond the end of the one before it. */
  predicate HoleAt(q: PacketQ, k: nat)
    requires k < |q|
  {
    (if k == 0 then 0 else q[k - 1].elt.End()) < q[k].elt.Start()
  }

  ghost predicate HasHole(q: PacketQ) { exists k :: 0 <= k < |q| && HoleAt(q, k) }

  /** A hole, or the last fragment says that more follow and does not reach too far. */
  ghost predicate Waits(q: PacketQ)
    requires q != []
  {
    HasHole(q) || (q[|q| - 1].elt.End() <= MAXLRGBUF && q[|q| - 1].elt.mf)
  }

  predicate HoleFrom(q: PacketQ, off: nat, k: nat)
    requires k < |q|
  {
    (if k == 0 then off else q[k - 1].elt.End()) < q[k].elt.Start()
  }

  lemma {:induction false} WalkFrom(q: PacketQ, off: nat)
    ensures Walk(q, off) == None <==> exists k :: 0 <= k < |q| && HoleFrom(q, off, k)
    ensures Walk(q, off).Some? ==> Walk(q, off).value == if q == [] then off else q[|q| - 1].elt.End()
    decreases |q|
  {
    if q != [] {
      var rest, e := q[1..], q[0].elt.End();
      WalkFrom(rest, e);
      assert HoleFrom(q, off, 0) <==> off < q[0].elt.Start();
      assert forall k :: 0 <= k < |rest| ==> (HoleFrom(rest, e, k) <==> HoleFrom(q, off, k + 1));
      if k :| 1 <= k < |q| && HoleFrom(q, off, k) { assert HoleFrom(rest, e, k - 1); }
    }
  }

  /** The walk is the hole test. */
  lemma {:induction false} WalkIff(q: PacketQ, z: nat)
    requires q != [] && z == 0
    ensures Walk(q, z) == None <==> HasHole(q)
    ensures Walk(q, z).Some? ==> Walk(q, z).value == q[|q| - 1].elt.End()
  {
    WalkFrom(q, z);
    assert forall k :: 0 <= k < |q| ==> (HoleFrom(q, z, k) <==> HoleAt(q, k));
  }

  /** Joining leaves an entry that waits as it is. Any other is given back, with its queue drained: for
      nothing if the datagram is too large or no buffer can be had, and otherwise for the datagram, which
      has the first fragment's header. */
  lemma {:induction false} JoinExact(e: Entry, large: bool)
    requires e.q != []
    ensures var (e', o) := Join(e, large);
            && (Waits(e.q) ==> e' == e && o == Nothing)
            && (!Waits(e.q) ==> e' == e.(state := QState.Free, q := []))
            && (!Waits(e.q) ==> (o == Nothing <==> !large || e.q[|e.q| - 1].elt.End() > MAXLRGBUF))
            && (!o.Nothing? ==> o.pkt == e.q[0].elt.(df := false, mf := false, off := 0, data := o.pkt.data))
            && (!o.Nothing? ==> (o.Overrun? <==> |o.pkt.data| > LRG_DATA))
  {
    WalkIff(e.q, 0);
  }

  /** The first fragment of the queue that reaches past `x`. */
  predicate FirstPast(q: PacketQ, x: int, k: nat)
    requires k < |q|
  {
    x < q[k].elt.End() && forall j :: 0 <= j < k ==> q[j].elt.End() <= x
  }

  /** Each octet put together is that of the first fragment, in order of offset, that reaches past it,
      also where fragments disagree. */
  lemma {:induction false} AssembleAt(q: PacketQ, at: nat, x: nat, k: nat)
    requires Rising(q, at) && Walk(q, at).Some? && at <= x && k < |q| && FirstPast(q, x, k)
    ensures Given(q[k].elt, Assemble(q, at), at, x)
    decreases |q|
  {
    var p := q[0].elt;
    RisingReach(q, at);
    var front, back := p.data[at - p.Start()..], Assemble(q[1..], p.End());
    assert Assemble(q, at) == front + back;
    if k > 0 {
      FirstPastTail(q, x, k);
      AssembleAt(q[1..], p.End(), x, k - 1);
      assert q[1..][k - 1] == q[k] && (front + back)[x - at] == back[x - p.End()];
    } else {
      assert front[x - at] == p.data[x - p.Start()];
    }
  }

  /** Octet `x` of what begins with octet `at` is the packet's. */
  predicate Given(p: Packet, out: seq<byte>, at: nat, x: nat) {
    at <= x < at + |out| && p.Start() <= x < p.End() && out[x - at] == p.data[x - p.Start()]
  }

  lemma FirstPastTail(q: PacketQ, x: int, k: nat)
    requires 0 < k < |q| && FirstPast(q, x, k)
    ensures FirstPast(q[1..], x, k - 1) && q[0].elt.End() <= x
  {
    assert forall j :: 0 <= j < k - 1 ==> q[1..][j] == q[j + 1];
  }

  // ----- adding to a queue -----

  /** Queueing: an entry given up takes nothing, a full one is given up with its queue drained, and any
      other gets the fragment, in order, and its time back. */
  lemma AddExact(e: Entry, p: Packet)
    requires Sorted(e.q)
    ensures var (e', taken) := Add(e, p);
            && (taken <==> e.state.Valid? && |e.q| < IP_FQSIZE)
            && (taken ==> e' == e.(q := e'.q, ttl := IP_FTTL) && Sorted(e'.q)
                          && multiset(e'.q) == multiset(e.q) + multiset{Item(0 - p.off, p)})
            && (!taken && e.state.Valid? ==> e' == e.(state := Bogus, q := []))
            && (!e.state.Valid? ==> e' == e)
  {
    InsertSorted(e.q, Entered(p));
    InsertElements(e.q, Entered(p));
  }

  // ----- the timer -----

  /** One turn of ipftimer. */
  function Age(e: Entry, gran: int): Entry {
    if e.state.Free? then e
    else if e.ttl - gran > 0 then e.(ttl := e.ttl - gran)
    else e.(ttl := e.ttl - gran, state := QState.Free, q := if e.state.Bogus? then e.q else [])
  }

  /** ipftimer */
  method IpfTimer(table: ReassemblyTable, gran: int)
    requires table.Valid()
    modifies table.ipfqt
    ensures table.Valid()
    ensures forall i :: 0 <= i < table.ipfqt.Length ==> table.ipfqt[i] == Age(old(table.ipfqt[i]), gran)
  {
    var i := 0;
    while i < table.ipfqt.Length
      invariant 0 <= i <= table.ipfqt.Length && table.Valid()
      invariant forall k :: 0 <= k < i ==> table.ipfqt[k] == Age(old(table.ipfqt[k]), gran)
      invariant forall k :: i <= k < table.ipfqt.Length ==> table.ipfqt[k] == old(table.ipfqt[k])
    {
      var iq := table.ipfqt[i];
      if !iq.state.Free? {
        iq := iq.(ttl := iq.ttl - gran);
        if iq.ttl <= 0 {
          if iq.state.Bogus? {
            iq := iq.(state := QState.Free);
          } else {
            iq := iq.(state := QState.Free, q := []);
          }
        }
        table.ipfqt[i] := iq;
      }
      i := i + 1;
    }
  }

  // ----- runs -----

  datatype TableOp = Arrive(a: Arrival) | Timer(gran: nat)

  function TableStep(t: seq<Entry>, op: TableOp): seq<Entry> {
    match op
    case Arrive(a) => Reass(t, a.pkt, a.room, a.large).0
    case Timer(gran) => seq(|t|, i requires 0 <= i < |t| => Age(t[i], gran))
  }

  function TableRun(t: seq<Entry>, ops: seq<TableOp>): seq<Entry>
    decreases |ops|
  {
    if ops == [] then t else TableRun(TableStep(t, ops[0]), ops[1..])
  }

  /** An entry in use holds fragments in order and still waits for more, or was given up with its queue
      drained; one that is free holds nothing. Its time has not run out. */
  ghost predicate EntryOk(e: Entry) {
    && Sorted(e.q)
    && (e.state.Valid? ==> 0 < |e.q| <= IP_FQSIZE && (|e.q| > 1 ==> Waits(e.q)))
    && (!e.state.Valid? ==> e.q == [])
    && (!e.state.Free? ==> 0 < e.ttl <= IP_FTTL)
  }

  ghost predicate Distinct(e: Entry, e': Entry) {
    !e.state.Free? && !e'.state.Free? ==> e.src != e'.src || e.id != e'.id
  }

  ghost predicate TableOk(t: seq<Entry>) {
    && (forall k :: 0 <= k < |t| ==> EntryOk(t[k]))
    && (forall j, k :: 0 <= j < k < |t| ==> Distinct(t[j], t[k]))
  }

  /** A new table is such. */
  lemma NewOk(t: seq<Entry>)
    requires forall i :: 0 <= i < |t| ==> t[i].state.Free? && t[i].q == []
    ensures TableOk(t)
  {
  }

  lemma {:induction false} AddJoinOk(e: Entry, p: Packet, large: bool)
    requires EntryOk(e) && !e.state.Free?
    ensures var e' := AddJoin(e, p, large).0; EntryOk(e') && e'.src == e.src && e'.id == e.id
  {
    AddExact(e, p);
    var (e', taken) := Add(e, p);
    if taken {
      assert |multiset(e'.q)| == |e.q| + 1;
      JoinExact(e', large);
    }
  }

  lemma NewEntryOk(p: Packet)
    ensures var e := Add(Entry(QState.Valid, p.src, p.id, IP_FTTL, [], -1), p).0;
            EntryOk(e) && e == Entry(QState.Valid, p.src, p.id, IP_FTTL, [Item(0 - p.off, p)], -1)
  {
    assert Insert([], Entered(p)) == [Entered(p)];
  }

  lemma OneEntry(t: seq<Entry>, p: Packet, j: nat, k: nat)
    requires TableOk(t) && j < |t| && k < |t| && Matches(t[j], p) && Matches(t[k], p)
    ensures j == k
  {
    assert j < k ==> Distinct(t[j], t[k]);
    assert k < j ==> Distinct(t[k], t[j]);
  }

  /** What a packet does to the table. A whole datagram does nothing. A fragment goes to the entry of its
      datagram, or opens the first free one if there is one and a queue can be had; no other entry
      changes. */
  lemma {:induction false} ReassExact(t: seq<Entry>, a: Arrival)
    requires TableOk(t)
    ensures var (t', o) := Reass(t, a.pkt, a.room, a.large);
            && |t'| == |t|
            && (a.pkt.off == 0 && !a.pkt.mf ==> t' == t && o == Whole(a.pkt))
            && (a.pkt.off != 0 || a.pkt.mf ==>
                  && (forall k :: 0 <= k < |t| && Matches(t[k], a.pkt) ==>
                        t' == t[k := AddJoin(t[k], a.pkt, a.large).0] && o == AddJoin(t[k], a.pkt, a.large).1)
                  && ((forall k :: 0 <= k < |t| ==> !Matches(t[k], a.pkt)) ==> o == Nothing && Opened(t, t', a)))
  {
    var i := Find(t, a.pkt);
    forall k | 0 <= k < |t| && Matches(t[k], a.pkt) ensures k == i { OneEntry(t, a.pkt, i, k); }
    if i == |t| && (a.pkt.off != 0 || a.pkt.mf) { OpenedExact(t, a); }
  }

  lemma {:induction false} OpenedExact(t: seq<Entry>, a: Arrival)
    requires Find(t, a.pkt) == |t| && (a.pkt.off != 0 || a.pkt.mf)
    ensures Opened(t, Reass(t, a.pkt, a.room, a.large).0, a)
  {
    NewEntryOk(a.pkt);
    var f := FirstFree(t);
    assert forall k :: 0 <= k < |t| && IsFree(t, k) ==> f <= k;
    assert f < |t| ==> IsFree(t, f);
  }

  predicate IsFree(t: seq<Entry>, k: nat)
    requires k < |t|
  {
    t[k].state.Free?
  }

  /** The first free entry holds the packet alone; nothing changed if there is none or no queue. */
  ghost predicate Opened(t: seq<Entry>, t': seq<Entry>, a: Arrival) {
    && (!a.room || (forall k :: 0 <= k < |t| ==> !IsFree(t, k)) ==> t' == t)
    && (forall k :: a.room && 0 <= k < |t| && IsFree(t, k) && (forall j :: 0 <= j < k ==> !IsFree(t, j)) ==>
          t' == t[k := Entry(QState.Valid, a.pkt.src, a.pkt.id, IP_FTTL, [Item(0 - a.pkt.off, a.pkt)], -1)])
  }

  lemma UpdateOk(t: seq<Entry>, i: nat, e: Entry)
    requires TableOk(t) && i < |t| && EntryOk(e)
    requires forall k :: 0 <= k < |t| && k != i ==> Distinct(e, t[k])
    ensures TableOk(t[i := e])
  {
    var t' := t[i := e];
    forall j, k | 0 <= j < k < |t| ensures Distinct(t'[j], t'[k]) { assert Distinct(t[j], t[k]); }
  }

  lemma {:induction false} ArriveOk(t: seq<Entry>, a: Arrival)
    requires TableOk(t)
    ensures TableOk(TableStep(t, Arrive(a)))
  {
    if a.pkt.off != 0 || a.pkt.mf {
      var i := Find(t, a.pkt);
      if i < |t| {
        AddJoinOk(t[i], a.pkt, a.large);
        forall k | 0 <= k < |t| && k != i ensures Distinct(AddJoin(t[i], a.pkt, a.large).0, t[k]) {
          assert Distinct(t[i], t[k]) || Distinct(t[k], t[i]);
        }
        UpdateOk(t, i, AddJoin(t[i], a.pkt, a.large).0);
      } else if a.room && FirstFree(t) < |t| {
        NewEntryOk(a.pkt);
        UpdateOk(t, FirstFree(t), Add(Entry(QState.Valid, a.pkt.src, a.pkt.id, IP_FTTL, [], -1), a.pkt).0);
      }
    }
  }

  lemma TimerOk(t: seq<Entry>, gran: nat)
    requires TableOk(t)
    ensures TableOk(TableStep(t, Timer(gran)))
  {
    var t' := TableStep(t, Timer(gran));
    forall j, k | 0 <= j < k < |t| ensures Distinct(t'[j], t'[k]) { assert Distinct(t[j], t[k]); }
  }

  /** Over every run, from a table in which it is so: every entry in use is waiting or given up, no two
      are for one datagram, and what is given back holds no fragment. */
  lemma {:induction false} RunOk(t: seq<Entry>, ops: seq<TableOp>)
    requires TableOk(t)
    ensures TableOk(TableRun(t, ops)) && |TableRun(t, ops)| == |t|
    decreases |ops|
  {
    if ops != [] {
      match ops[0] {
        case Arrive(a) => ArriveOk(t, a); ReassExact(t, a);
        case Timer(gran) => TimerOk(t, gran);
      }
      RunOk(TableStep(t, ops[0]), ops[1..]);
    }
  }

  function Total(ops: seq<TableOp>): nat
    decreases |ops|
  {
    if ops == [] then 0 else (if ops[0].Timer? then ops[0].gran else 0) + Total(ops[1..])
  }

  ghost predicate NoneOf(ops: seq<TableOp>, p: Packet) {
    forall k :: 0 <= k < |ops| && ops[k].Arrive? ==> !Own(ops[k].a, p)
  }

  ghost predicate Forgotten(t: seq<Entry>, p: Packet) { forall k :: 0 <= k < |t| ==> !Matches(t[k], p) }

  lemma {:induction false} OtherArrives(t: seq<Entry>, a: Arrival, p: Packet)
    requires TableOk(t) && !Own(a, p)
    ensures var t' := TableStep(t, Arrive(a));
            |t'| == |t| && forall k :: 0 <= k < |t| && (Matches(t[k], p) || Matches(t'[k], p)) ==> t'[k] == t[k]
  {
    if a.pkt.off != 0 || a.pkt.mf {
      var i := Find(t, a.pkt);
      if i < |t| { AddJoinOk(t[i], a.pkt, a.large); } else { NewEntryOk(a.pkt); }
    }
  }

  lemma {:induction false} StaysForgotten(t: seq<Entry>, ops: seq<TableOp>, p: Packet)
    requires TableOk(t) && Forgotten(t, p) && NoneOf(ops, p)
    ensures Forgotten(TableRun(t, ops), p)
    decreases |ops|
  {
    if ops != [] {
      RunOk(t, ops[..1]);
      assert TableRun(t, ops[..1]) == TableStep(t, ops[0]) by { assert ops[..1][1..] == []; }
      if ops[0].Arrive? { OtherArrives(t, ops[0].a, p); }
      StaysForgotten(TableStep(t, ops[0]), ops[1..], p);
    }
  }

  /** An entry of whose datagram no fragment comes keeps what it has as long as the timer has counted off
      less than its time; once it has counted that, the datagram is forgotten. A fragment that is taken
      sets the time to 60 (AddExact). */
  lemma {:induction false} KeptIff(t: seq<Entry>, ops: seq<TableOp>, i: nat, p: Packet)
    requires TableOk(t) && i < |t| && Matches(t[i], p) && NoneOf(ops, p)
    ensures var t' := TableRun(t, ops);
            if Total(ops) < t[i].ttl then |t'| == |t| && t'[i] == t[i].(ttl := t[i].ttl - Total(ops))
            else Forgotten(t', p)
    decreases |ops|
  {
    if ops != [] {
      var t1 := TableStep(t, ops[0]);
      match ops[0] {
        case Arrive(a) => ArriveOk(t, a); OtherArrives(t, a, p);
        case Timer(gran) => TimerOk(t, gran); Aged(t, gran, i, p);
      }
      if Matches(t1[i], p) { KeptIff(t1, ops[1..], i, p); } else { StaysForgotten(t1, ops[1..], p); }
    }
  }

  lemma Aged(t: seq<Entry>, gran: nat, i: nat, p: Packet)
    requires TableOk(t) && i < |t| && Matches(t[i], p)
    ensures var t' := TableStep(t, Timer(gran));
            if gran < t[i].ttl then t'[i] == t[i].(ttl := t[i].ttl - gran) else Forgotten(t', p)
  {
    forall k | 0 <= k < |t| && Matches(t[k], p) ensures k == i { OneEntry(t, p, i, k); }
  }
}
