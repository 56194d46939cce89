/** Putting fragments together again: the table of fragment queues, the hole test, and the
    copying that skips what is there already. */
module IpReassemble {
  import opened Wrappers
  import opened Ring
  import opened Gpq
  import opened IpFragment

  const IP_FQSIZE := 10
  const IP_FTTL := 60

  /** A large buffer, and what in it stands before the data: the frame header and the IP header. */
  const MAXLRGBUF := 2048
  const EP_HLEN := 24
  const LRG_HEAD := EP_HLEN + HLEN

  /** The data that a large buffer has room for. */
  const LRG_DATA := MAXLRGBUF - LRG_HEAD

  type PacketQ = seq<Item<Packet>>

  function Entered(p: Packet): Item<Packet> { Item(0 - p.off, p) }

  datatype QState = Valid | Bogus | Free

  /** One entry of ipfqt; `seen` is its queue's cursor. */
  datatype Entry = Entry(state: QState, src: int, id: int, ttl: int, q: PacketQ, seen: int)

  // ----- completeness -----

  /** How far the queued fragments reach from `off` on, or None at a hole. */
  function Walk(q: PacketQ, off: nat): Option<nat>
    decreases |q|
  {
    if q == [] then Some(off)
    else if off < q[0].elt.Start() then None
    else Walk(q[1..], q[0].elt.End())
  }

  /** No hole, and the last fragment is the end of the datagram. */
  predicate Complete(q: PacketQ) {
    q != [] && Walk(q, 0).Some? && !q[|q| - 1].elt.mf
  }

  /** Offsets and ends both rise: no fragment lies strictly inside another. */
  ghost predicate Chain(q: PacketQ) {
    forall i, j :: 0 <= i < j < |q| ==>
      q[i].elt.off <= q[j].elt.off && q[i].elt.End() <= q[j].elt.End()
  }

  /** The octets from `at` on that the fragments give, each octet once. */
  function Assemble(q: PacketQ, at: nat): seq<byte>
    decreases |q|
  {
    if q == [] then []
    else
      var p := q[0].elt;
      if p.Start() <= at <= p.End() then p.data[at - p.Start()..] + Assemble(q[1..], p.End())
      else Assemble(q[1..], at)
  }

  function Rebuilt(q: PacketQ): Packet
    requires q != []
  {
    q[0].elt.(df := false, mf := false, off := 0, data := Assemble(q, 0))
  }

  /** What comes out of ipreass: nothing, a packet, or a packet whose end was copied over what lies
      behind its buffer. */
  datatype Outcome = Nothing | Whole(pkt: Packet) | Overrun(pkt: Packet) {
    function Pkt(): Option<Packet> {
      if Nothing? then None else Some(pkt)
    }
  }

  function Built(p: Packet): Outcome { if |p.data| <= LRG_DATA then Whole(p) else Overrun(p) }

  // ----- the large buffer -----

  /** `mem` with its front written over. */
  function Overlay(mem: seq<byte>, s: seq<byte>): (r: seq<byte>)
    requires |s| <= |mem|
    ensures |r| == |mem|
  {
    s + mem[|s|..]
  }

  /** What ipfcons makes of the buffer: head and data at its front, and all else as it was. */
  ghost predicate LaidIn(now: seq<byte>, was: seq<byte>, head: seq<byte>, o: Outcome) {
    match o.Pkt()
    case None => now == was
    case Some(p) => |head + p.data| <= |was| && now == Overlay(was, head + p.data)
  }

  /** What lies behind the buffer is as it was, but for an overrun. */
  ghost predicate KeptBehind(now: seq<byte>, was: seq<byte>, o: Outcome)
    requires LargeMem(now) && LargeMem(was)
  {
    o.Overrun? || now[MAXLRGBUF..] == was[MAXLRGBUF..]
  }

  lemma LaidInKeeps(now: seq<byte>, was: seq<byte>, head: seq<byte>, o: Outcome)
    requires LaidIn(now, was, head, o) && LargeMem(was) && |head| == LRG_HEAD
    requires o.Whole? ==> |o.pkt.data| <= LRG_DATA
    ensures LargeMem(now) && KeptBehind(now, was, o)
  {
  }

  lemma OverlayMore(mem: seq<byte>, s: seq<byte>, more: seq<byte>)
    requires |s| + |more| <= |mem|
    ensures Overlay(mem, s)[..|s|] + more + Overlay(mem, s)[|s| + |more|..] == Overlay(mem, s + more)
  {
  }

  /** A large buffer and the octets behind it that ipfcons can reach. */
  ghost predicate LargeMem(mem: seq<byte>) { |mem| == MAXLRGBUF + LRG_HEAD }

  /** The copy leaves what lies behind the buffer alone if and only if the data leaves room for the
      two headers. The hole test allows 44 octets more. */
  lemma StaysInside(head: seq<byte>, data: seq<byte>)
    requires |head| == LRG_HEAD && |data| <= MAXLRGBUF
    ensures (forall mem :: LargeMem(mem) ==> Overlay(mem, head + data)[MAXLRGBUF..] == mem[MAXLRGBUF..])
            <==> |data| <= LRG_DATA
  {
    if |data| > LRG_DATA {
      var other: byte := if data[LRG_DATA] == 0 then 1 else 0;
      var mem := seq(MAXLRGBUF + LRG_HEAD, _ => other);
      assert LargeMem(mem);
      assert Overlay(mem, head + data)[MAXLRGBUF..][0] == data[LRG_DATA];
    }
  }

  // ----- the table -----

  function Matches(e: Entry, p: Packet): bool {
    !e.state.Free? && e.id == p.id && e.src == p.src
  }

  /** Index of the first entry for the packet's datagram, or the size of the table. */
  function Find(t: seq<Entry>, p: Packet): (i: nat)
    ensures i <= |t| && (i < |t| ==> Matches(t[i], p)) && forall k :: 0 <= k < i ==> !Matches(t[k], p)
  {
    if t == [] || Matches(t[0], p) then 0 else 1 + Find(t[1..], p)
  }

  function FirstFree(t: seq<Entry>): (i: nat)
    ensures i <= |t| && (i < |t| ==> t[i].state.Free?) && forall k :: 0 <= k < i ==> !t[k].state.Free?
  {
    if t == [] || t[0].state.Free? then 0 else 1 + FirstFree(t[1..])
  }

  /** ipfadd: the entry with the fragment queued, its time to live restarted; given up when
      the queue is full. Says whether the fragment was taken. */
  function Add(e: Entry, p: Packet): (Entry, bool) {
    if !e.state.Valid? then (e, false)
    else if |e.q| >= IP_FQSIZE then (e.(state := Bogus, q := []), false)
    else (e.(q := Insert(e.q, Entered(p)), ttl := IP_FTTL), true)
  }

  /** ipfjoin and ipfcons: nothing while there is a hole or no end; too much is dropped; a
      complete datagram comes out, if `large` says a buffer can be had, and frees the entry. */
  function Join(e: Entry, large: bool): (r: (Entry, Outcome))
    ensures r.1.Whole? ==> |r.1.pkt.data| <= LRG_DATA
  {
    var w := Walk(e.q, 0);
    var empty := e.(state := QState.Free, q := []);
    if w == None then (e, Nothing)
    else if w.value > MAXLRGBUF then (empty, Nothing)
    else if !Complete(e.q) then (e, Nothing)
    else if !large then (empty, Nothing)
    else (empty, Built(Rebuilt(e.q)))
  }

  function AddJoin(e: Entry, p: Packet, large: bool): (r: (Entry, Outcome))
    ensures r.0.seen == e.seen && (r.1.Whole? ==> |r.1.pkt.data| <= LRG_DATA)
  {
    var (e', taken) := Add(e, p);
    if taken then Join(e', large) else (e', Nothing)
  }

  /** ipreass for a fragment. `room` says whether a queue can be had. */
  function Reass(t: seq<Entry>, p: Packet, room: bool, large: bool): (seq<Entry>, Outcome) {
    if p.off == 0 && !p.mf then (t, Whole(p))
    else
      var i := Find(t, p);
      if i < |t| then
        var (e, r) := AddJoin(t[i], p, large);
        (t[i := e], r)
      else
        var f := FirstFree(t);
        if f == |t| || !room then (t, Nothing)
        else (t[f := Add(Entry(QState.Valid, p.src, p.id, IP_FTTL, [], -1), p).0], Nothing)
  }

  /** From `at` on each fragment ends no earlier than the one before. */
  predicate Rising(q: PacketQ, at: nat)
    decreases |q|
  {
    q == [] || (at <= q[0].elt.End() && Rising(q[1..], q[0].elt.End()))
  }

  /** If the queue is put together, the copying never has to step back. */
  predicate NoStepBack(q: PacketQ, large: bool) {
    large && Complete(q) && Walk(q, 0).value <= MAXLRGBUF ==> Rising(q, 0)
  }

  lemma ChainTail(q: PacketQ)
    requires q != [] && Chain(q)
    ensures Chain(q[1..]) && (|q| > 1 ==> q[0].elt.End() <= q[1].elt.End())
  {
    forall i, j | 0 <= i < j < |q[1..]|
      ensures q[1..][i].elt.off <= q[1..][j].elt.off && q[1..][i].elt.End() <= q[1..][j].elt.End()
    {
      assert q[1..][i] == q[i + 1] && q[1..][j] == q[j + 1];
    }
  }

  lemma {:induction false} ChainRises(q: PacketQ, at: nat)
    requires Chain(q) && (q != [] ==> at <= q[0].elt.End())
    ensures Rising(q, at)
    decreases |q|
  {
    if q != [] {
      ChainTail(q);
      ChainRises(q[1..], q[0].elt.End());
    }
  }

  /** A walk without a hole over rising ends does not fall short of any. */
  lemma {:induction false} RisingReach(q: PacketQ, at: nat)
    requires Rising(q, at) && Walk(q, at).Some?
    ensures at <= Walk(q, at).value && (q != [] ==> q[0].elt.End() <= Walk(q, at).value)
    decreases |q|
  {
    if q != [] {
      RisingReach(q[1..], q[0].elt.End());
    }
  }

  /** The copying at any point: `data` is copied, `q` is still to come. */
  ghost predicate Copying(whole: seq<byte>, end: nat, q: PacketQ, data: seq<byte>, sq: nat) {
    && sq == |data| <= end && data + Assemble(q, sq) == whole
    && Rising(q, sq) && Walk(q, sq) == Some(end)
  }

  lemma {:induction false} CopyStart(all: PacketQ, end: nat, z: nat)
    requires z == 0 && Rising(all, z) && Walk(all, z) == Some(end)
    ensures Copying(Assemble(all, z), end, all, [], z)
  {
    RisingReach(all, z);
    assert [] + Assemble(all, z) == Assemble(all, z);
  }

  lemma {:induction false} CopyBounds(whole: seq<byte>, end: nat, q: PacketQ, data: seq<byte>, sq: nat, p: Packet)
    requires Copying(whole, end, q, data, sq) && q != [] && p == q[0].elt
    ensures p.Start() <= sq <= p.End() <= end
  {
    RisingReach(q, sq);
  }

  lemma {:induction false} CopyTurn(whole: seq<byte>, end: nat, q: PacketQ, data: seq<byte>, sq: nat, from: seq<byte>)
    requires Copying(whole, end, q, data, sq) && q != []
    requires var p := q[0].elt; p.Start() <= sq <= p.End() && from == p.data[sq - p.Start()..|p.data|]
    ensures Copying(whole, end, q[1..], data + from, sq + |from|)
  {
    var p := q[0].elt;
    RisingReach(q, sq);
    assert from == p.data[sq - p.Start()..];
    Regroup(data, from, Assemble(q[1..], p.End()));
  }

  lemma CopyEnd(whole: seq<byte>, end: nat, data: seq<byte>, sq: nat)
    requires Copying(whole, end, [], data, sq)
    ensures data == whole && sq == |data| <= end
  {
    assert data + [] == data;
  }

  // ----- the code -----

  class ReassemblyTable {
    const ipfqt: array<Entry>

    ghost predicate Valid()
      reads ipfqt
    {
      ipfqt.Length == IP_FQSIZE && forall i :: 0 <= i < ipfqt.Length ==> ipfqt[i].seen == -1
    }

    /** ipfinit */
    constructor ()
      ensures Valid() && fresh(ipfqt)
      ensures forall i :: 0 <= i < ipfqt.Length ==> ipfqt[i].state.Free? && ipfqt[i].q == []
    {
      ipfqt := new Entry[IP_FQSIZE](_ => Entry(QState.Free, 0, 0, 0, [], -1));
    }

    /** ipfadd */
    method IpfAdd(i: nat, p: Packet) returns (taken: bool)
      requires i < ipfqt.Length
      modifies ipfqt
      ensures ipfqt[..] == old(ipfqt[..])[i := Add(old(ipfqt[i]), p).0] && taken == Add(old(ipfqt[i]), p).1
    {
      var iq := ipfqt[i];
      if !iq.state.Valid? {
        return false;
      }
      if |iq.q| >= IP_FQSIZE {
        ipfqt[i] := iq.(state := Bogus, q := []);
        return false;
      }
      ipfqt[i] := iq.(q := Insert(iq.q, Item(0 - p.off, p)), ttl := IP_FTTL);
      taken := true;
    }

    /** seeq on the queue of entry `i`. */
    method SeeQ(i: nat) returns (r: Option<Packet>)
      requires i < ipfqt.Length && -1 <= ipfqt[i].seen
      modifies ipfqt
      ensures var (o, c) := See(old(ipfqt[i]).q, old(ipfqt[i]).seen);
              r == o && ipfqt[..] == old(ipfqt[..])[i := old(ipfqt[i]).(seen := c)]
    {
      var iq := ipfqt[i];
      var (o, c) := See(iq.q, iq.seen);
      r := o;
      ipfqt[i] := iq.(seen := c);
    }

    /** The hole test of ipfjoin: a pass over the queue that always runs to the end, so that
        the cursor is reset. `last` is the last fragment looked at. */
    method Scan(i: nat) returns (off: Option<nat>, last: Option<Packet>)
      requires i < ipfqt.Length && ipfqt[i].seen == -1
      modifies ipfqt
      ensures ipfqt[..] == old(ipfqt[..])
      ensures off == Walk(ipfqt[i].q, 0)
      ensures off.Some? ==> last == if ipfqt[i].q == [] then None else Some(ipfqt[i].q[|ipfqt[i].q| - 1].elt)
    {
      ghost var was, q := ipfqt[..], ipfqt[i].q;
      var reach: nat := 0;
      last := None;
      var pep := SeeQ(i);
      while pep.Some?
        invariant ipfqt[..] == was[i := was[i].(seen := ipfqt[i].seen)]
        invariant pep.Some? ==> 0 <= ipfqt[i].seen < |q| && pep == Some(q[ipfqt[i].seen].elt)
        invariant pep.Some? ==> Walk(q, 0) == Walk(q[ipfqt[i].seen..], reach)
        invariant pep == None ==> ipfqt[i].seen == -1 && Walk(q, 0) == Some(reach)
                                  && last == if q == [] then None else Some(q[|q| - 1].elt)
        decreases pep.Some?, |q| - ipfqt[i].seen
      {
        var p := pep.value;
        last := pep;
        if reach < p.Start() {
          var more := SeeQ(i);
          while more.Some?
            invariant ipfqt[..] == was[i := was[i].(seen := ipfqt[i].seen)]
            invariant more.Some? ==> 0 <= ipfqt[i].seen < |q|
            invariant more == None ==> ipfqt[i].seen == -1
            decreases more.Some?, |q| - ipfqt[i].seen
          {
            more := SeeQ(i);
          }
          assert ipfqt[..] == was;
          return None, last;
        }
        reach := p.End();
        ghost var k := ipfqt[i].seen;
        assert q[k..][0] == q[k] && q[k..][1..] == q[k + 1..];
        pep := SeeQ(i);
      }
      assert ipfqt[..] == was;
      off := Some(reach);
    }

    /** The memcpy of ipfcons: `from` goes behind the octets already laid over `mem`. */
    method CopyBehind(pep: array<byte>, from: seq<byte>, ghost mem: seq<byte>, ghost s: seq<byte>, at: nat)
      requires |s| == at && at + |from| <= |mem| == pep.Length && pep[..] == Overlay(mem, s)
      modifies pep
      ensures pep[..] == Overlay(mem, s + from)
    {
      ghost var was := pep[..];
      forall k | at <= k < at + |from| {
        pep[k] := from[k - at];
      }
      assert pep[..] == was[..at] + from + was[at + |from|..];
      OverlayMore(mem, s, from);
    }

    /** One turn of the loop of ipfcons: what was not copied yet of one fragment. */
    method CopyOne(p: Packet, sq: nat, off: nat, pep: array<byte>,
                   ghost head: seq<byte>, ghost data: seq<byte>, ghost mem: seq<byte>)
      returns (dlen: nat)
      requires p.Start() <= sq <= p.End() && EP_HLEN + off == |head + data| <= |mem| - (p.End() - sq)
      requires pep.Length == |mem| && pep[..] == Overlay(mem, head + data)
      modifies pep
      ensures dlen == p.End() - sq
      ensures pep[..] == Overlay(mem, head + (data + p.data[sq - p.Start()..|p.data|]))
    {
      // where in this fragment the octets not yet copied begin, and how many there are
      var doff: nat := sq - p.Start();
      dlen := |p.data| - doff;
      var from := p.data[doff..doff + dlen];
      CopyBehind(pep, from, mem, head + data, EP_HLEN + off);
      Regroup(head, data, from);
    }

    /** The loop of ipfcons: each fragment from where the last ended. */
    method CopyData(all: PacketQ, pep: array<byte>, start: nat,
                    ghost head: seq<byte>, ghost mem: seq<byte>, ghost end: nat)
      returns (n: nat)
      requires start == 0 && Rising(all, start) && Walk(all, start) == Some(end)
      requires |head| == LRG_HEAD && |head| + end <= |mem| == pep.Length && pep[..] == Overlay(mem, head)
      modifies pep
      ensures n == |Assemble(all, start)| <= end
      ensures pep[..] == Overlay(mem, head + Assemble(all, start))
    {
      var q := all;
      ghost var data: seq<byte> := [];
      var off: nat, sq: nat := HLEN, start;
      ghost var whole := Assemble(all, start);
      CopyStart(all, end, start);
      assert head + data == head;
      while q != []
        invariant pep.Length == |mem| && off == HLEN + sq && sq == |data| <= end
        invariant Copying(whole, end, q, data, sq) && pep[..] == Overlay(mem, head + data)
        decreases |q|
      {
        var p := q[0].elt;
        CopyBounds(whole, end, q, data, sq, p);
        var dlen := CopyOne(p, sq, off, pep, head, data, mem);
        ghost var from := p.data[sq - p.Start()..|p.data|];
        CopyTurn(whole, end, q, data, sq, from);
        data := data + from;
        off, sq := off + dlen, sq + dlen;
        q := q[1..];
      }
      CopyEnd(whole, end, data, sq);
      n := sq;
    }

    /** ipfcons: the queue drained into one large buffer. `pep` is that buffer and the octets
        behind it, `head` what stands in front of the data in the first fragment's own. */
    method IpfCons(i: nat, large: bool, pep: array<byte>, head: seq<byte>) returns (r: Option<Packet>)
      requires i < ipfqt.Length && Complete(ipfqt[i].q) && (large ==> Rising(ipfqt[i].q, 0))
      requires Walk(ipfqt[i].q, 0).value <= MAXLRGBUF && |head| == LRG_HEAD && LargeMem(pep[..])
      modifies ipfqt, pep
      ensures ipfqt[..] == old(ipfqt[..])[i := old(ipfqt[i]).(state := QState.Free, q := [])]
      ensures var o := if large then Built(Rebuilt(old(ipfqt[i]).q)) else Nothing;
              r == o.Pkt() && LaidIn(pep[..], old(pep[..]), head, o)
    {
      ghost var mem := pep[..];
      var q := ipfqt[i].q;
      ipfqt[i] := ipfqt[i].(state := QState.Free, q := []);
      if !large {
        return None;
      }
      var first := q[0].elt;
      assert Overlay(mem, []) == mem && [] + head == head;
      CopyBehind(pep, head, mem, [], 0);
      var n := CopyData(q, pep, 0, head, mem, Walk(q, 0).value);
      assert pep[LRG_HEAD..LRG_HEAD + n] == Assemble(q, 0);
      r := Some(first.(df := false, mf := false, off := 0, data := pep[LRG_HEAD..LRG_HEAD + n]));
    }

    /** ipfjoin */
    method IpfJoin(i: nat, large: bool, pep: array<byte>, head: seq<byte>) returns (r: Option<Packet>)
      requires i < ipfqt.Length && ipfqt[i].seen == -1
      requires ipfqt[i].state.Valid? && ipfqt[i].q != [] && NoStepBack(ipfqt[i].q, large)
      requires |head| == LRG_HEAD && LargeMem(pep[..])
      modifies ipfqt, pep
      ensures ipfqt[..] == old(ipfqt[..])[i := Join(old(ipfqt[i]), large).0]
      ensures var o := Join(old(ipfqt[i]), large).1;
              && r == o.Pkt() && LaidIn(pep[..], old(pep[..]), head, o)
              && LargeMem(pep[..]) && KeptBehind(pep[..], old(pep[..]), o)
    {
      var off, last := Scan(i);
      if off == None {
        assert ipfqt[..] == old(ipfqt[..])[i := old(ipfqt[i])];
        return None;
      }
      if off.value > MAXLRGBUF {
        ipfqt[i] := ipfqt[i].(state := QState.Free, q := []);
        return None;
      }
      if !last.value.mf {
        ghost var mem := pep[..];
        r := IpfCons(i, large, pep, head);
        LaidInKeeps(pep[..], mem, head, Join(old(ipfqt[i]), large).1);
        return;
      }
      assert ipfqt[..] == old(ipfqt[..])[i := old(ipfqt[i])];
      r := None;
    }

    /** What ipreass does once it has found the datagram's entry. */
    method AddAndJoin(i: nat, p: Packet, large: bool, pep: array<byte>, head: seq<byte>) returns (r: Option<Packet>)
      requires Valid() && i < ipfqt.Length && NoStepBack(Insert(ipfqt[i].q, Entered(p)), large)
      requires |head| == LRG_HEAD && LargeMem(pep[..])
      modifies ipfqt, pep
      ensures ipfqt[..] == old(ipfqt[..])[i := AddJoin(old(ipfqt[i]), p, large).0]
      ensures var o := AddJoin(old(ipfqt[i]), p, large).1; r == o.Pkt() && KeptBehind(pep[..], old(pep[..]), o)
    {
      var taken := IpfAdd(i, p);
      if !taken {
        return None;
      }
      r := IpfJoin(i, large, pep, head);
    }

    /** ipreass. No fragment of a datagram that is put together may end before an earlier one: the copy
        would have a negative length. What lies behind the large buffer is touched only in the outcome
        named for that. */
    method IpReass(p: Packet, room: bool, large: bool, pep: array<byte>, head: seq<byte>) returns (r: Option<Packet>)
      requires Valid()
      requires var i := Find(ipfqt[..], p); i < ipfqt.Length ==> NoStepBack(Insert(ipfqt[i].q, Entered(p)), large)
      requires |head| == LRG_HEAD && LargeMem(pep[..])
      modifies ipfqt, pep
      ensures Valid()
      ensures ipfqt[..] == Reass(old(ipfqt[..]), p, room, large).0
      ensures var o := Reass(old(ipfqt[..]), p, room, large).1;
              r == o.Pkt() && KeptBehind(pep[..], old(pep[..]), o)
    {
      if p.off == 0 && !p.mf {
        return Some(p);
      }
      var i, firstfree := Lookup(p);
      if i < ipfqt.Length {
        r := AddAndJoin(i, p, large, pep, head);
        return;
      }
      if firstfree < 0 || !room {
        return None;
      }
      Open(firstfree, p);
      r := None;
    }

    /** The scan of the table in ipreass: the entry for the fragment's datagram, or the first that
        is free. */
    method Lookup(p: Packet) returns (i: nat, firstfree: int)
      requires Valid()
      ensures i == Find(ipfqt[..], p)
      ensures i == ipfqt.Length ==> firstfree == var f := FirstFree(ipfqt[..]); if f == ipfqt.Length then -1 else f
    {
      ghost var t := ipfqt[..];
      firstfree, i := -1, 0;
      while i < ipfqt.Length
        invariant i <= ipfqt.Length
        invariant forall k :: 0 <= k < i ==> !Matches(t[k], p)
        invariant if firstfree == -1 then forall k :: 0 <= k < i ==> !t[k].state.Free?
                  else 0 <= firstfree < i && firstfree == FirstFree(t)
      {
        if ipfqt[i].state.Free? {
          if firstfree == -1 {
            FirstFreeIs(t, i);
            firstfree := i;
          }
        } else if ipfqt[i].id == p.id && ipfqt[i].src == p.src {
          FindIs(t, p, i);
          return;
        }
        i := i + 1;
      }
      FindIs(t, p, i);
      if firstfree == -1 { FirstFreeIs(t, i); }
    }

    /** A free entry is taken for a new datagram. */
    method Open(f: nat, p: Packet)
      requires Valid() && f < ipfqt.Length
      modifies ipfqt
      ensures Valid()
      ensures ipfqt[..] == old(ipfqt[..])[f := Add(Entry(QState.Valid, p.src, p.id, IP_FTTL, [], -1), p).0]
    {
      ghost var t := ipfqt[..];
      ghost var e := Entry(QState.Valid, p.src, p.id, IP_FTTL, [], -1);
      ipfqt[f] := Entry(QState.Valid, p.src, p.id, IP_FTTL, [], -1);
      assert ipfqt[..] == t[f := e];
      assert t[f := e][f := Add(e, p).0] == t[f := Add(e, p).0];
      var _ := IpfAdd(f, p);
    }
  }

  lemma FindIs(t: seq<Entry>, p: Packet, i: nat)
    requires i <= |t| && (i < |t| ==> Matches(t[i], p)) && forall k :: 0 <= k < i ==> !Matches(t[k], p)
    ensures Find(t, p) == i
  {
  }

  lemma FirstFreeIs(t: seq<Entry>, i: nat)
    requires i <= |t| && (i < |t| ==> t[i].state.Free?)
    requires forall k :: 0 <= k < i ==> !t[k].state.Free?
    ensures FirstFree(t) == i
  {
  }
}
