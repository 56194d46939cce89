/** The receiving half of a TCB: the acceptance test, the receive ring that segments are
    copied into ahead of rnext, and the queue that only remembers which stretches came. */
module TcpReceive {
  import opened Wrappers
  import opened Ring
  import opened Gpq

  const NTCPFRAG := 10

  /** The parts of a TCP segment that the data phase looks at. */
  datatype Segment = Segment(seqno: int, data: seq<byte>, fin: bool, psh: bool) {
    function End(): int { seqno + |data| }

    /** Sequence space used: the data, and one for a FIN. */
    function Len(): nat { |data| + if fin then 1 else 0 }
  }

  /** A remembered stretch of sequence space (struct tcpfrag). */
  datatype Frag = Frag(start: int, len: int) {
    function End(): int { start + len }
  }

  type FragQ = seq<Item<Frag>>

  function Keyed(f: Frag): Item<Frag> { Item(-f.start, f) }

  /** The receive fields of a TCB, as a value. No queue allocated is None. */
  datatype Rcv = Rcv(buf: seq<byte>, start: nat, count: nat, rnext: int, queue: Option<FragQ>,
                     finseq: int, pushseq: int, rdone: bool, push: bool, needout: bool,
                     cwin: int, rmss: nat) {
    ghost predicate RingOk() { start < |buf| && count <= |buf| }

    function Window(): int { |buf| - count }

    function Frags(): FragQ { match queue case None => [] case Some(q) => q }

    /** Stretches are keyed by where they start, and none reaches past the window. */
    ghost predicate QueueOk() {
      FragsOk(Frags(), rnext + Window())
    }
  }

  predicate FragOk(it: Item<Frag>, limit: int) {
    it.key == -it.elt.start && it.elt.len > 0 && it.elt.End() <= limit
  }

  ghost predicate FragsOk(q: FragQ, limit: int) {
    forall i :: 0 <= i < |q| ==> FragOk(q[i], limit)
  }

  function Min(a: int, b: int): int { if a < b then a else b }
  function Max(a: int, b: int): int { if a > b then a else b }

  // ----- acceptance -----

  /** The four-row acceptability table of section 3.3 of RFC 793. */
  predicate Acceptable(r: Rcv, s: Segment) {
    if s.Len() == 0 then
      if r.Window() == 0 then s.seqno == r.rnext
      else r.rnext <= s.seqno < r.rnext + r.Window()
    else
      r.Window() > 0 &&
      (r.rnext <= s.seqno < r.rnext + r.Window()
       || r.rnext <= s.seqno + s.Len() - 1 < r.rnext + r.Window())
  }

  // ----- what an acceptable segment leaves behind -----

  /** The part of a segment that falls in the window; a FIN goes with what is cut off the end. */
  datatype Arrival = Arrival(first: int, data: seq<byte>, fin: bool)

  lemma AcceptableOverlaps(r: Rcv, s: Segment)
    requires r.count <= |r.buf| && Acceptable(r, s)
    ensures s.seqno <= Max(s.seqno, r.rnext) <= Min(s.End(), r.rnext + r.Window()) <= s.End()
  {
  }

  function Trim(r: Rcv, s: Segment): (a: Arrival)
    requires r.count <= |r.buf| && Acceptable(r, s)
    ensures r.rnext <= a.first && a.first + |a.data| <= r.rnext + r.Window()
  {
    AcceptableOverlaps(r, s);
    var first := Max(s.seqno, r.rnext);
    var last := Min(s.End(), r.rnext + r.Window());
    Arrival(first, s.data[first - s.seqno..last - s.seqno], s.fin && last == s.End())
  }

  /** What advancing through the queue yields: the new rnext, the stretches still ahead of a
      hole, whether the recorded FIN was reached, and the fate of the recorded push. */
  datatype Absorbed = Absorbed(rnext: int, rest: FragQ, fin: bool, psh: bool, pushseq: int)

  /** Advance from `n` over every queued stretch that starts at or before the point reached,
      stopping for good at a recorded FIN. The first stretch beyond a hole was already taken
      off, and goes back in behind those that start where it does. */
  function Absorb(n: int, q: FragQ, finseq: int, pushseq: int, psh: bool): (a: Absorbed)
    ensures n <= a.rnext && |a.rest| <= |q| && (a.fin ==> a.rest == [])
    decreases |q|
  {
    if n == finseq then Absorbed(n, [], true, psh, pushseq)
    else
      var (p, h) := if n >= pushseq then (0, true) else (pushseq, psh);
      if q == [] then Absorbed(n, [], false, h, p)
      else if q[0].elt.start > n then Absorbed(n, Insert(q[1..], Keyed(q[0].elt)), false, h, p)
      else Absorb(Max(n, q[0].elt.End()), q[1..], finseq, p, h)
  }

  /** Checking again a point already checked changes nothing. */
  lemma AbsorbAgain(n: int, q: FragQ, finseq: int, pushseq: int, psh: bool)
    requires n != finseq && n >= pushseq
    ensures Absorb(n, q, finseq, pushseq, psh) == Absorb(n, q, finseq, 0, true)
  {
  }

  /** One turn of the loop, and its end, at a point already checked. */
  function Turn(n: int, tf: Frag, q: FragQ, finseq: int, pushseq: int, psh: bool): Absorbed {
    if tf.start > n then Absorbed(n, Insert(q, Keyed(tf)), false, psh, pushseq)
    else Absorb(Max(n, tf.End()), q, finseq, pushseq, psh)
  }

  lemma AbsorbTurn(n: int, q: FragQ, finseq: int, pushseq: int, psh: bool)
    requires q != [] && n != finseq && (n >= pushseq ==> psh && pushseq == 0)
    ensures Absorb(n, q, finseq, pushseq, psh) == Turn(n, q[0].elt, q[1..], finseq, pushseq, psh)
  {
  }

  lemma InsertFragsOk(q: FragQ, it: Item<Frag>, limit: int)
    requires FragsOk(q, limit) && FragOk(it, limit)
    ensures FragsOk(Insert(q, it), limit)
  {
    InsertByIndex(q, it, EnqPos(q, it.key));
  }

  /** Absorbing never goes past a limit that all stretches respect, nor does what it leaves. */
  lemma {:induction false} AbsorbKeeps(n: int, q: FragQ, finseq: int, pushseq: int, psh: bool, limit: int)
    requires n <= limit && FragsOk(q, limit)
    ensures var a := Absorb(n, q, finseq, pushseq, psh); a.rnext <= limit && FragsOk(a.rest, limit)
    decreases |q|
  {
    if n != finseq && q != [] {
      var (p, h) := if n >= pushseq then (0, true) else (pushseq, psh);
      assert FragOk(q[0], limit);
      if q[0].elt.start > n {
        InsertFragsOk(q[1..], Keyed(q[0].elt), limit);
      } else {
        AbsorbKeeps(Max(n, q[0].elt.End()), q[1..], finseq, p, h, limit);
      }
    }
  }

  /** The queue after a drain: given back when it ran empty or the FIN was reached. */
  function QueueAfter(queue: Option<FragQ>, a: Absorbed): Option<FragQ> {
    if a.fin then None
    else if queue.None? || queue.value == [] then queue
    else if a.rest == [] then None
    else Some(a.rest)
  }

  function Coalesce(r: Rcv, len: nat): (c: (Rcv, Absorbed)) {
    var a := Absorb(r.rnext + len, r.Frags(), r.finseq, r.pushseq, false);
    (r.(rnext := a.rnext, count := r.count + (a.rnext - r.rnext),
        queue := QueueAfter(r.queue, a), pushseq := a.pushseq), a)
  }

  /** tfinsert: a stretch is dropped when no queue can be had or the queue is full. */
  function Remember(queue: Option<FragQ>, f: Frag, room: bool): Option<FragQ> {
    if f.len == 0 then queue
    else match queue
      case None => if room then Some([Keyed(f)]) else None
      case Some(q) => if |q| >= NTCPFRAG then Some(q) else Some(Insert(q, Keyed(f)))
  }

  /** tcpdodat, once `len` octets from `first` on are in the ring. */
  function Account(r: Rcv, first: int, len: nat, fin: bool, psh: bool, room: bool): Rcv {
    if r.rnext == first then
      var (c, got) := if len > 0 then Coalesce(r, len)
                      else (r, Absorbed(r.rnext, [], false, false, r.pushseq));
      var end := fin || got.fin;
      c.(rnext := if end then c.rnext + 1 else c.rnext,
         rdone := r.rdone || end,
         needout := r.needout || len > 0 || end,
         push := r.push || psh || got.psh)
    else
      r.(finseq := if fin then first + len else r.finseq,
         pushseq := if psh then first + len else r.pushseq,
         queue := Remember(r.queue, Frag(first, len), room))
  }

  lemma AccountFrame(r: Rcv, first: int, len: nat, fin: bool, psh: bool, room: bool)
    ensures var c := Account(r, first, len, fin, psh, room);
            c.buf == r.buf && c.start == r.start && c.cwin == r.cwin && c.rmss == r.rmss
  {
  }

  /** A segment's in-window part laid into the ring where it belongs. */
  function Laid(r: Rcv, a: Arrival): (l: Rcv)
    requires r.start < |r.buf| && r.count <= |r.buf|
    requires r.rnext <= a.first && a.first + |a.data| <= r.rnext + r.Window()
    ensures l.RingOk() && l.rnext == r.rnext && l.count == r.count && |l.buf| == |r.buf|
  {
    r.(buf := LaidBuf(r, a))
  }

  function LaidBuf(r: Rcv, a: Arrival): (b: seq<byte>)
    requires r.start < |r.buf| && r.count <= |r.buf|
    requires r.rnext <= a.first && a.first + |a.data| <= r.rnext + r.Window()
    ensures |b| == |r.buf|
  {
    Deposit(r.buf, Slot(|r.buf|, r.start, r.count + (a.first - r.rnext)), a.data)
  }

  /** The place of the in-window part in the segment and in the ring. */
  lemma TrimmedFits(r: Rcv, s: Segment, first: int, len: nat)
    requires r.RingOk() && Acceptable(r, s) && first == Trim(r, s).first && len == |Trim(r, s).data|
    ensures 0 <= first - s.seqno && first - s.seqno + len <= |s.data| && 0 <= first - r.rnext
    ensures r.count + (first - r.rnext) <= |r.buf| && len <= |r.buf|
    ensures Deposit(r.buf, Slot(|r.buf|, r.start, r.count + (first - r.rnext)),
                    s.data[first - s.seqno..first - s.seqno + len])
            == LaidBuf(r, Trim(r, s))
  {
    AcceptableOverlaps(r, s);
  }

  /** The state after an acceptable segment. */
  function Arrive(r: Rcv, s: Segment, room: bool): Rcv
    requires r.start < |r.buf| && r.count <= |r.buf| && Acceptable(r, s)
  {
    Settle(r, Trim(r, s), s.psh, room)
  }

  function Settle(r: Rcv, a: Arrival, psh: bool, room: bool): Rcv
    requires r.start < |r.buf| && r.count <= |r.buf|
    requires r.rnext <= a.first && a.first + |a.data| <= r.rnext + r.Window()
  {
    Account(Laid(r, a), a.first, |a.data|, a.fin, psh, room)
  }

  // ----- reading and advertising -----

  /** Receiver-side silly window avoidance (section 4.2.3.3 of RFC 1122), in ESTABLISHED or later. */
  function Offer(r: Rcv): (w: int)
  {
    var w := r.Window();
    Max(if w * 4 < |r.buf| || w < r.rmss then 0 else w, r.cwin - r.rnext)
  }

  function Advertise(r: Rcv): Rcv { r.(cwin := r.rnext + Offer(r)) }

  /** Take `k` octets off the front of the ring. */
  function Consume(r: Rcv, k: nat): Rcv
    requires r.start < |r.buf| && k <= r.count <= |r.buf|
  {
    r.(start := Slot(|r.buf|, r.start, k), count := r.count - k, push := r.push && k != r.count)
  }

  function Read(r: Rcv, len: nat): (c: (Rcv, seq<byte>))
    requires r.start < |r.buf| && r.count <= |r.buf|
  {
    var k := Min(len, r.count);
    var r' := Consume(r, k);
    (if r'.cwin > r'.rnext then r'
     else
       var r'' := Advertise(r');
       if Offer(r') != 0 then r''.(needout := true) else r'',
     Contents(r.buf, r.start, r.count)[..k])
  }

  // ----- the code -----

  class ReceiveTcb {
    var rcvbuf: array<byte>
    var rbstart: nat
    var rbcount: nat
    var rnext: int
    var rsegq: Option<FragQ>
    var finseq: int
    var pushseq: int
    var rdone: bool
    var push: bool
    var needout: bool
    var cwin: int
    var rmss: nat

    ghost predicate Valid()
      reads this, rcvbuf
    {
      View().RingOk() && View().QueueOk()
    }

    ghost function View(): Rcv
      reads this, rcvbuf
    {
      Rcv(rcvbuf[..], rbstart, rbcount, rnext, rsegq, finseq, pushseq, rdone, push, needout, cwin, rmss)
    }

    /** Every field but the ring's octets is as in `r`. */
    ghost predicate Matches(r: Rcv)
      reads this
    {
      && rbstart == r.start && rbcount == r.count && rnext == r.rnext && rsegq == r.queue
      && finseq == r.finseq && pushseq == r.pushseq && rdone == r.rdone && push == r.push
      && needout == r.needout && cwin == r.cwin && rmss == r.rmss
    }

    /** tcpok. The second result is the data the segment is left with: none when the window is
        closed and the segment has a length. */
    method TcpOk(s: Segment) returns (ok: bool, stripped: Segment)
      requires Valid()
      ensures ok == Acceptable(View(), s)
      ensures stripped == if View().Window() == 0 && s.Len() > 0 then s.(data := []) else s
    {
      stripped := s;
      var seglen := |s.data|;
      if s.fin {
        seglen := seglen + 1;
      }
      var rwindow := rcvbuf.Length - rbcount;
      if rwindow == 0 && seglen == 0 {
        return s.seqno == rnext, stripped;
      }
      var wlast := rnext + rwindow - 1;
      ok := s.seqno - rnext >= 0 && s.seqno - wlast <= 0;
      if seglen == 0 {
        return;
      }
      var slast := s.seqno + seglen - 1;
      ok := ok || (slast - rnext >= 0 && slast - wlast <= 0);
      if rwindow == 0 {
        stripped := s.(data := []);
      }
    }

    /** tfcoalesce: `len` more octets lie at rnext. Says whether the recorded FIN was reached
        and whether the segment now counts as pushed. */
    method TfCoalesce(len: nat) returns (fin: bool, psh: bool)
      modifies this`rnext, this`rbcount, this`pushseq, this`rsegq
      ensures var a := Absorb(old(rnext) + len, old(View()).Frags(), finseq, old(pushseq), false);
              && rnext == a.rnext && fin == a.fin && psh == a.psh && pushseq == a.pushseq
              && rsegq == QueueAfter(old(rsegq), a)
      ensures rbcount - rnext == old(rbcount - rnext)
    {
      ghost var was := View();
      fin, psh := false, false;
      rnext := rnext + len;
      rbcount := rbcount + len;
      if rnext == finseq {
        rsegq := None;
        return true, psh;
      }
      if rnext - pushseq >= 0 {
        AbsorbAgain(rnext, was.Frags(), finseq, pushseq, psh);
        psh := true;
        pushseq := 0;
      }
      if rsegq == None || rsegq.value == [] {
        return;
      }
      AbsorbTurn(rnext, rsegq.value, finseq, pushseq, psh);
      fin, psh := CloseHoles(rsegq.value[0].elt, rsegq.value[1..], psh);
    }

    /** The loop of tfcoalesce, entered with the first stretch taken off the queue, `rest` left
        on it, and the point rnext already checked for the FIN and the push. */
    method CloseHoles(first: Frag, rest: FragQ, pushed: bool) returns (fin: bool, psh: bool)
      requires rnext != finseq && (rnext >= pushseq ==> pushed && pushseq == 0)
      modifies this`rnext, this`rbcount, this`pushseq, this`rsegq
      ensures var a := Turn(old(rnext), first, rest, finseq, old(pushseq), pushed);
              && rnext == a.rnext && fin == a.fin && psh == a.psh && pushseq == a.pushseq
              && rsegq == if a.rest == [] then None else Some(a.rest)
      ensures rbcount - rnext == old(rbcount - rnext)
    {
      fin, psh := false, pushed;
      var tf, q := first, rest;
      while tf.start - rnext <= 0
        invariant rnext != finseq && (rnext >= pushseq ==> psh && pushseq == 0)
        invariant rbcount - rnext == old(rbcount - rnext)
        invariant Turn(rnext, tf, q, finseq, pushseq, psh)
               == Turn(old(rnext), first, rest, finseq, old(pushseq), pushed)
        decreases |q|
      {
        var newcount := tf.len - (rnext - tf.start);
        if newcount > 0 {
          rnext := rnext + newcount;
          rbcount := rbcount + newcount;
        }
        if rnext == finseq {
          rsegq := None;
          return true, psh;
        }
        if rnext - pushseq >= 0 {
          AbsorbAgain(rnext, q, finseq, pushseq, psh);
          psh := true;
          pushseq := 0;
        }
        if q == [] {
          rsegq := None;
          return;
        }
        AbsorbTurn(rnext, q, finseq, pushseq, psh);
        tf, q := q[0].elt, q[1..];
      }
      rsegq := Some(Insert(q, Item(-tf.start, tf)));
    }

    /** tfinsert: remember a stretch; `room` says whether a new queue can be had. */
    method TfInsert(start: int, len: nat, room: bool)
      modifies this`rsegq
      ensures rsegq == Remember(old(rsegq), Frag(start, len), room)
    {
      if len == 0 {
        return;
      }
      if rsegq == None && room {
        rsegq := Some([]);
        assert Insert([], Keyed(Frag(start, len))) == [Keyed(Frag(start, len))];
      }
      if rsegq.Some? && |rsegq.value| < NTCPFRAG {
        rsegq := Some(Insert(rsegq.value, Item(-start, Frag(start, len))));
      }
    }

    /** tcpdodat: data before a hole advances rnext; data beyond one is remembered, and its
        FIN and push are put off. */
    method TcpDoDat(s: Segment, first: int, len: nat, cutfin: bool, room: bool)
      requires s.seqno == first || rnext == first
      modifies this`rnext, this`rbcount, this`pushseq, this`finseq, this`rsegq,
               this`rdone, this`push, this`needout
      ensures Matches(Account(old(View()), first, len, s.fin && !cutfin, s.psh, room))
    {
      var fin, psh := s.fin && !cutfin, s.psh;
      if rnext == first {
        if len > 0 {
          var gotfin, gotpsh := TfCoalesce(len);
          fin, psh := fin || gotfin, psh || gotpsh;
          needout := true;
        }
        if fin {
          rdone, needout := true, true;
          rnext := rnext + 1;
        }
        if psh {
          push := true;
        }
      } else {
        if fin {
          finseq := s.seqno + len;
        }
        if psh {
          pushseq := s.seqno + len;
        }
        TfInsert(first, len, room);
      }
    }

    /** The trimming in tcpdata: where the in-window data starts, how long it is, and whether
        a FIN was cut off with what lies beyond the window. */
    method TrimToWindow(s: Segment) returns (first: int, datalen: int, cutfin: bool)
      requires Valid() && Acceptable(View(), s)
      ensures var a := Trim(View(), s);
              && first == a.first && datalen == |a.data| && a.fin == (s.fin && !cutfin)
              && a.data == s.data[first - s.seqno..first - s.seqno + datalen]
    {
      datalen := |s.data|;
      cutfin := false;
      var rwindow := rcvbuf.Length - rbcount;
      var wlast := rnext + rwindow - 1;
      first := s.seqno;
      var last := first + datalen - 1;
      if rnext - first > 0 {
        datalen := datalen - (rnext - first);
        first := rnext;
      }
      if last - wlast > 0 {
        datalen := datalen - (last - wlast);
        cutfin := true;
      }
    }

    /** The copying in tcpdata: the ring index is as far past the one for rnext as the octets are. */
    method CopyToPlace(data: seq<byte>, from: nat, n: nat, dist: nat)
      requires rbstart < rcvbuf.Length && from + n <= |data|
      requires rbcount + dist <= rcvbuf.Length && n <= rcvbuf.Length
      modifies rcvbuf
      ensures rcvbuf[..] == Deposit(old(rcvbuf[..]), Slot(rcvbuf.Length, rbstart, rbcount + dist), data[from..from + n])
    {
      SlotIsRemainder(rcvbuf.Length, rbstart, rbcount + dist);
      var pb := (rbstart + rbcount + dist) % rcvbuf.Length;
      CopyIn(data, from, n, pb);
    }

    /** The first half of tcpdata: the in-window part of a segment goes into the ring where it
        belongs, ahead of the unread octets, and nothing else changes. */
    method StoreSegment(s: Segment) returns (first: int, datalen: nat, cutfin: bool)
      requires Valid() && Acceptable(View(), s)
      modifies rcvbuf
      ensures var a := Trim(old(View()), s); first == a.first && datalen == |a.data| && a.fin == (s.fin && !cutfin)
      ensures rcvbuf[..] == LaidBuf(old(View()), Trim(old(View()), s))
    {
      first, datalen, cutfin := TrimToWindow(s);
      TrimmedFits(View(), s, first, datalen);
      CopyToPlace(s.data, first - s.seqno, datalen, first - rnext);
    }

    /** tcpdata: trims a segment to the receive window, copies it into the ring, and has it
        accounted for. */
    method TcpData(s: Segment, room: bool)
      requires Valid() && Acceptable(View(), s)
      modifies this`rnext, this`rbcount, this`pushseq, this`finseq, this`rsegq,
               this`rdone, this`push, this`needout, rcvbuf
      ensures View() == Arrive(old(View()), s, room)
    {
      var first, datalen, cutfin := StoreSegment(s);
      ghost var laid := View();
      assert laid == Laid(old(View()), Trim(old(View()), s));
      TcpDoDat(s, first, datalen, cutfin, room);
      AccountFrame(laid, first, datalen, s.fin && !cutfin, s.psh, room);
    }

    /** The copy loop of tcpdata: `n` octets of the packet from `from` on, into the ring from
        `at` on. */
    method CopyIn(data: seq<byte>, from: nat, n: nat, at: nat)
      requires from + n <= |data| && at < rcvbuf.Length && n <= rcvbuf.Length
      modifies rcvbuf
      ensures rcvbuf[..] == Deposit(old(rcvbuf[..]), at, data[from..from + n])
    {
      ghost var was, d := rcvbuf[..], data[from..from + n];
      var pb, pp, i := at, from, 0;
      while i < n
        invariant 0 <= i <= n && pp == from + i && pb == Slot(rcvbuf.Length, at, i)
        invariant rcvbuf[..] == Deposit(was, at, d[..i])
      {
        DepositExtend(was, at, d, i);
        rcvbuf[pb] := data[pp];
        pp := pp + 1;
        pb := pb + 1;
        if pb >= rcvbuf.Length {
          pb := 0;
        }
        i := i + 1;
      }
      assert d[..n] == d;
    }

    /** tcprwindow in ESTABLISHED or later: never shrinks an advertised window, and opens a
        closed one only by a quarter of the buffer and one maximal segment at least. */
    method TcpRWindow() returns (window: int)
      requires Valid()
      modifies this`cwin
      ensures window == Offer(old(View())) && cwin == rnext + window
    {
      window := rcvbuf.Length - rbcount;
      if window * 4 < rcvbuf.Length || window < rmss {
        window := 0;
      }
      if window <= cwin - rnext {
        window := cwin - rnext;
      }
      cwin := rnext + window;
    }

    /** The copy loop of tcpgetdata. */
    method CopyOut(len: nat) returns (data: seq<byte>)
      requires Valid()
      modifies this`rbstart, this`rbcount
      ensures var was := old(View()); var k := Min(len, was.count);
              && data == Contents(was.buf, was.start, was.count)[..k]
              && rbstart == Slot(|was.buf|, was.start, k) && rbcount == was.count - k
    {
      ghost var n, start, count := rcvbuf.Length, rbstart, rbcount;
      ghost var all := Contents(rcvbuf[..], start, count);
      data := [];
      var cc := 0;
      while rbcount != 0 && cc < len
        invariant 0 <= cc <= count && cc <= len && rbcount == count - cc
        invariant rbstart == Slot(n, start, cc) && data == all[..cc]
      {
        assert all[cc] == rcvbuf[rbstart];
        data := data + [rcvbuf[rbstart]];
        rbcount := rbcount - 1;
        rbstart := rbstart + 1;
        if rbstart >= rcvbuf.Length {
          rbstart := 0;
        }
        cc := cc + 1;
      }
    }

    /** tcpgetdata without urgent data: drains the ring to the reader and reopens a closed
        window when enough room came free. */
    method TcpGetData(len: nat) returns (data: seq<byte>)
      requires Valid()
      modifies this`rbstart, this`rbcount, this`push, this`cwin, this`needout
      ensures var c := Read(old(View()), len); Matches(c.0) && data == c.1
    {
      data := CopyOut(len);
      if rbcount == 0 {
        push := false;
      }
      if cwin - rnext <= 0 {
        var window := TcpRWindow();
        if window != 0 {
          needout := true;
        }
      }
    }
  }
}
