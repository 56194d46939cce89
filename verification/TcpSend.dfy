/** The sending half of a TCB in the data phase: the ring of unacknowledged octets, the
    segments cut from it, and the transmit loop. */
module TcpSend {
  import opened Ring
  import opened TcpReceive

  /** The send fields of a TCB, as a value. */
  datatype Snd = Snd(buf: seq<byte>, start: nat, count: nat, suna: int, snext: int) {
    ghost predicate Ok() {
      start < |buf| && count <= |buf| && suna <= snext <= suna + count
    }

    /** Octets sent and not yet acknowledged. */
    function InFlight(): int { snext - suna }

    /** Everything the ring holds, the oldest unacknowledged octet first. */
    ghost function Held(): seq<byte>
      requires Ok()
    {
      Contents(buf, start, count)
    }
  }

  /** How many octets the next segment carries, from `off` octets into the ring. */
  function SendLen(s: Snd, off: nat, swindow: nat, smss: nat): (len: nat)
    requires off <= s.count
    ensures off + len <= s.count
  {
    Min(Min(s.count - off, swindow), smss)
  }

  /** tcpsend: a retransmission starts at the oldest unacknowledged octet, a new segment at
      the first unsent one; either may push snext forward, never back. */
  ghost function Send(s: Snd, rexmt: bool, swindow: nat, smss: nat): (r: (Snd, Segment))
    requires s.Ok()
    ensures r.0.Ok() && r.0.Held() == s.Held() && s.snext <= r.0.snext
  {
    var off := if rexmt then 0 else s.InFlight();
    var len := SendLen(s, off, swindow, smss);
    (s.(snext := Max(s.snext, s.suna + off + len)),
     Segment(s.suna + off, s.Held()[off..off + len], false, len > 0))
  }

  /** What a segment carries, for both kinds of transmission: octets of the ring from its number on, as
      many as fit in the peer's window and in a segment, unless that is all there is; and snext is where
      what was ever sent ends. */
  lemma SendExact(s: Snd, rexmt: bool, swindow: nat, smss: nat)
    requires s.Ok()
    ensures var (t, seg) := Send(s, rexmt, swindow, smss);
            && seg.seqno == (if rexmt then s.suna else s.snext) && seg.End() <= s.suna + s.count
            && seg.data == s.Held()[seg.seqno - s.suna..seg.End() - s.suna]
            && |seg.data| <= swindow && |seg.data| <= smss
            && (seg.End() == s.suna + s.count || |seg.data| == swindow || |seg.data| == smss)
            && !seg.fin && (seg.psh <==> seg.data != [])
            && t.suna == s.suna && t.snext == Max(s.snext, seg.End()) && t.Held() == s.Held()
  {
  }

  /** A retransmission carries at least what any earlier segment with the same start carried, as long as
      the windows are what they were: `s` is the ring when that one was cut, `t` the ring now. */
  lemma RexmtCovers(s: Snd, t: Snd, rexmt: bool, swindow: nat, smss: nat)
    requires s.Ok() && t.Ok() && s.suna <= t.suna <= s.suna + s.count
    requires s.Held()[t.suna - s.suna..] <= t.Held()
    requires Send(s, rexmt, swindow, smss).1.seqno == t.suna
    ensures Send(s, rexmt, swindow, smss).1.data <= Send(t, true, swindow, smss).1.data
  {
    SendExact(s, rexmt, swindow, smss);
    SendExact(t, true, swindow, smss);
    var a, b := Send(s, rexmt, swindow, smss).1, Send(t, true, swindow, smss).1;
    StartsAlike(s.Held(), t.Held(), t.suna - s.suna, |a.data|, |b.data|);
  }

  lemma StartsAlike(h: seq<byte>, k: seq<byte>, d: nat, n: nat, m: nat)
    requires d + n <= |h| && h[d..] <= k && n <= m <= |k|
    ensures h[d..d + n] <= k[0..m]
  {
    assert h[d..d + n] == h[d..][..n] == k[..n];
  }

  /** tcpacked: only an acknowledgement of something sent and outstanding counts. */
  function Acked(s: Snd, ack: int): (r: Snd)
    requires s.Ok()
    ensures r.Ok() && |r.buf| == |s.buf|
  {
    if s.suna < ack <= s.snext then
      s.(suna := ack, start := Slot(|s.buf|, s.start, ack - s.suna), count := s.count - (ack - s.suna))
    else s
  }

  /** tcpwr, once there is room. */
  function Append(s: Snd, data: seq<byte>): (r: Snd)
    requires s.Ok() && s.count + |data| <= |s.buf|
    ensures r.Ok()
  {
    s.(buf := Deposit(s.buf, Slot(|s.buf|, s.start, s.count), data), count := s.count + |data|)
  }

  lemma AckedHolds(s: Snd, ack: int)
    requires s.Ok()
    ensures var t := Acked(s, ack);
            && t.Held() == (if s.suna < ack <= s.snext then s.Held()[ack - s.suna..] else s.Held())
            && t.suna == (if s.suna < ack <= s.snext then ack else s.suna) && t.snext == s.snext
  {
    if s.suna < ack <= s.snext {
      ContentsDrop(s.buf, s.start, s.count, ack - s.suna);
    }
  }

  lemma AppendHolds(s: Snd, data: seq<byte>)
    requires s.Ok() && s.count + |data| <= |s.buf|
    ensures var t := Append(s, data); t.Held() == s.Held() + data && t.suna == s.suna && t.snext == s.snext
  {
    ContentsAppend(s.buf, s.start, s.count, data);
  }

  // ----- the transmit loop -----

  /** The loop of tcpxmit: new segments while something is unsent and fewer than `window`
      octets are in flight. */
  ghost function Xmit(s: Snd, window: nat, swindow: nat, smss: nat): (r: (Snd, seq<Segment>))
    requires s.Ok() && swindow > 0 && smss > 0
    ensures r.0.Ok() && r.0.Held() == s.Held() && r.0.suna == s.suna
    decreases s.suna + s.count - s.snext
  {
    if s.suna + s.count - s.snext > 0 && s.InFlight() < window then
      var (t, seg) := Send(s, false, swindow, smss);
      var (u, segs) := Xmit(t, window, swindow, smss);
      (u, [seg] + segs)
    else (s, [])
  }

  function Chunk(swindow: nat, smss: nat): nat { Min(swindow, smss) }

  /** The loop fills the window if there is enough to send, and never has more than
      window - 1 octets and one chunk in flight unless that many were before. */
  lemma {:induction false} XmitBound(s: Snd, window: nat, swindow: nat, smss: nat)
    requires s.Ok() && swindow > 0 && smss > 0
    ensures var t := Xmit(s, window, swindow, smss).0;
            && Min(s.count, window) <= t.InFlight()
            && s.InFlight() <= t.InFlight() <= Max(s.InFlight(), window - 1 + Chunk(swindow, smss))
    decreases s.suna + s.count - s.snext
  {
    if s.suna + s.count - s.snext > 0 && s.InFlight() < window {
      XmitBound(Send(s, false, swindow, smss).0, window, swindow, smss);
    }
  }

  /** How many chunks it takes to cover `room`. */
  function ChunksFor(room: int, chunk: nat): (n: nat)
    requires chunk > 0
    ensures room <= 0 ==> n == 0
    ensures room > 0 ==> chunk * (n - 1) < room <= chunk * n
    decreases room
  {
    if room <= 0 then 0
    else
      var n := ChunksFor(room - chunk, chunk);
      assert chunk * (n + 1) == chunk * n + chunk;
      1 + n
  }

  /** What is in flight after the loop, from what can be seen before it: nothing is added to a full
      window, and otherwise whole chunks until it is covered or nothing is left to send. */
  function Filled(inflight: int, count: nat, window: nat, chunk: nat): int
    requires chunk > 0
  {
    if inflight >= window then inflight
    else Min(count, inflight + chunk * ChunksFor(window - inflight, chunk))
  }

  /** Exactly how far the loop goes. */
  lemma {:induction false} XmitExact(s: Snd, window: nat, swindow: nat, smss: nat)
    requires s.Ok() && swindow > 0 && smss > 0
    ensures Xmit(s, window, swindow, smss).0.InFlight() == Filled(s.InFlight(), s.count, window, Chunk(swindow, smss))
    decreases s.suna + s.count - s.snext
  {
    var c := Chunk(swindow, smss);
    if s.suna + s.count - s.snext > 0 && s.InFlight() < window {
      var t := Send(s, false, swindow, smss).0;
      XmitExact(t, window, swindow, smss);
      FilledStep(s.InFlight(), s.count, window, c);
    } else if s.InFlight() < window {
      assert c * ChunksFor(window - s.InFlight(), c) > 0;
    }
  }

  lemma FilledStep(p: nat, count: nat, window: nat, c: nat)
    requires p < window && p < count && c > 0
    ensures Filled(p, count, window, c) == Filled(Min(count, p + c), count, window, c)
  {
    var n := ChunksFor(window - p, c);
    var n' := ChunksFor(window - p - c, c);
    assert n == 1 + n' && c * n == c + c * n';
    if count <= p + c {
      assert c * n' >= 0;
      if count < window { assert c * ChunksFor(window - count, c) > 0; }
    }
  }

  /** The loop does not take what is in flight off the peer's window when it sizes a segment. It
      stays within that window, with the congestion window `cwnd` besides, if and only if what
      Filled says does. */
  lemma XmitWithinWindow(s: Snd, cwnd: nat, swindow: nat, smss: nat)
    requires s.Ok() && swindow > 0 && smss > 0
    ensures var w, c := Min(swindow, cwnd), Chunk(swindow, smss);
            && (Xmit(s, w, swindow, smss).0.InFlight() <= Max(s.InFlight(), swindow)
                <==> (s.InFlight() >= w || s.count <= swindow
                      || s.InFlight() + c * ChunksFor(w - s.InFlight(), c) <= swindow))
  {
    XmitExact(s, Min(swindow, cwnd), swindow, smss);
  }

  /** A run over the window that the peer offered: 3 octets in flight on an offer of 2. */
  lemma XmitOverrunsWindow()
    ensures var s := Snd([0, 1, 2, 3], 0, 3, 1, 2);
            s.Ok() && Xmit(s, 2, 2, 2).0.InFlight() == 3
  {
    var s := Snd([0, 1, 2, 3], 0, 3, 1, 2);
    var t := Send(s, false, 2, 2).0;
    assert t.snext == 4;
    assert Xmit(t, 2, 2, 2) == (t, []);
  }

  ghost function Payload(segs: seq<Segment>): seq<byte> {
    if segs == [] then [] else segs[0].data + Payload(segs[1..])
  }

  /** The segments are numbered one after the other from snext on, and together carry exactly
      the octets of the ring between the old and the new snext. */
  lemma {:induction false} XmitPayload(s: Snd, window: nat, swindow: nat, smss: nat)
    requires s.Ok() && swindow > 0 && smss > 0
    ensures var (t, segs) := Xmit(s, window, swindow, smss);
            && s.snext <= t.snext
            && Payload(segs) == s.Held()[s.InFlight()..t.InFlight()]
            && (segs != [] ==> segs[0].seqno == s.snext)
            && InTurn(segs, Chunk(swindow, smss))
    decreases s.suna + s.count - s.snext
  {
    if s.suna + s.count - s.snext > 0 && s.InFlight() < window {
      var (t, seg) := Send(s, false, swindow, smss);
      XmitPayload(t, window, swindow, smss);
      var (u, segs) := Xmit(t, window, swindow, smss);
      PayloadMore(seg, segs, s.Held(), s.InFlight(), t.InFlight(), u.InFlight());
      NumberedMore(seg, segs, Chunk(swindow, smss));
    }
  }

  lemma PayloadMore(seg: Segment, segs: seq<Segment>, h: seq<byte>, a: nat, b: nat, c: nat)
    requires a <= b <= c <= |h| && seg.data == h[a..b] && Payload(segs) == h[b..c]
    ensures Payload([seg] + segs) == h[a..c]
  {
    assert ([seg] + segs)[1..] == segs;
  }

  /** One after the other, none empty and none too long. */
  predicate InTurn(segs: seq<Segment>, chunk: nat) {
    && (forall i :: 0 < i < |segs| ==> segs[i].seqno == segs[i - 1].End())
    && (forall i :: 0 <= i < |segs| ==> 0 < |segs[i].data| <= chunk)
  }

  lemma NumberedMore(seg: Segment, segs: seq<Segment>, chunk: nat)
    requires InTurn(segs, chunk) && 0 < |seg.data| <= chunk && (segs != [] ==> segs[0].seqno == seg.End())
    ensures InTurn([seg] + segs, chunk)
  {
  }

  /** All are pushed, and all but the last are full. */
  lemma {:induction false} XmitFull(s: Snd, window: nat, swindow: nat, smss: nat)
    requires s.Ok() && swindow > 0 && smss > 0
    ensures Full(Xmit(s, window, swindow, smss).1, Chunk(swindow, smss))
    decreases s.suna + s.count - s.snext
  {
    if s.suna + s.count - s.snext > 0 && s.InFlight() < window {
      var (t, seg) := Send(s, false, swindow, smss);
      SendExact(s, false, swindow, smss);
      XmitFull(t, window, swindow, smss);
      FullOneMore(seg, Xmit(t, window, swindow, smss).1, Chunk(swindow, smss));
    }
  }

  predicate Full(segs: seq<Segment>, chunk: nat) {
    && (forall i :: 0 <= i < |segs| ==> segs[i].psh && !segs[i].fin)
    && (forall i :: 0 <= i < |segs| - 1 ==> |segs[i].data| == chunk)
  }

  lemma FullOneMore(seg: Segment, segs: seq<Segment>, chunk: nat)
    requires Full(segs, chunk) && seg.psh && !seg.fin && (segs != [] ==> |seg.data| == chunk)
    ensures Full([seg] + segs, chunk)
  {
  }

  // ----- the code -----

  datatype OState = Persist | Transmit | Rexmt

  datatype WriteResult = Wrote(len: nat) | TooBig | WouldWait

  class SendTcb {
    var sndbuf: array<byte>
    var sbstart: nat
    var sbcount: nat
    var suna: int
    var snext: int
    var swindow: nat
    var cwnd: nat
    var smss: nat
    var ostate: OState
    var needout: bool

    ghost function View(): Snd
      reads this, sndbuf
    {
      Snd(sndbuf[..], sbstart, sbcount, suna, snext)
    }

    ghost predicate Valid()
      reads this, sndbuf
    {
      View().Ok()
    }

    /** tcpwr with tcpgetspace in front of it: too much for the buffer is refused, and what
        does not fit now has to wait. */
    method TcpWr(data: seq<byte>) returns (r: WriteResult)
      requires Valid()
      modifies sndbuf, this`sbcount, this`needout
      ensures Valid()
      ensures if |data| > sndbuf.Length then r == TooBig && View() == old(View())
              else if |data| > sndbuf.Length - old(sbcount) then r == WouldWait && View() == old(View())
              else r == Wrote(|data|) && View() == Append(old(View()), data)
    {
      if |data| > sndbuf.Length {
        return TooBig;
      }
      if |data| > sndbuf.Length - sbcount {
        return WouldWait;
      }
      ghost var was := View();
      ghost var at := Slot(sndbuf.Length, sbstart, sbcount);
      SlotIsRemainder(sndbuf.Length, sbstart, sbcount);
      var sboff := (sbstart + sbcount) % sndbuf.Length;
      var i := 0;
      while i < |data|
        invariant 0 <= i <= |data| && sbcount == was.count + i
        invariant sboff == Slot(sndbuf.Length, at, i)
        invariant sndbuf[..] == Deposit(was.buf, at, data[..i])
      {
        DepositExtend(was.buf, at, data, i);
        sndbuf[sboff] := data[i];
        sbcount := sbcount + 1;
        sboff := sboff + 1;
        if sboff >= sndbuf.Length {
          sboff := 0;
        }
        i := i + 1;
      }
      assert data[..|data|] == data;
      needout := true;
      r := Wrote(|data|);
    }

    /** tcpsndlen: how much to send, and from where in the ring. */
    method TcpSndLen(rexmt: bool) returns (datalen: nat, off: nat)
      requires Valid()
      ensures off == (if rexmt then 0 else snext - suna) && datalen == SendLen(View(), off, swindow, smss)
    {
      if rexmt {
        off := 0;
      } else {
        off := snext - suna;
      }
      datalen := sbcount - off;
      datalen := if datalen < swindow then datalen else swindow;
      datalen := if datalen < smss then datalen else smss;
    }

    /** tcphowmuch: what is written and not yet sent. */
    function TcpHowMuch(): (n: int)
      requires Valid()
      reads this, sndbuf
      ensures 0 <= n && View().InFlight() + n == sbcount
    {
      suna + sbcount - snext
    }

    /** The copy loop of tcpsend. */
    method CopyFrom(off: nat, n: nat) returns (data: seq<byte>)
      requires Valid() && off + n <= sbcount
      ensures data == View().Held()[off..off + n]
    {
      SlotIsRemainder(sndbuf.Length, sbstart, off);
      var i := (sbstart + off) % sndbuf.Length;
      data := [];
      var tocopy := n;
      while tocopy > 0
        invariant 0 <= tocopy <= n && i == Slot(sndbuf.Length, sbstart, off + n - tocopy)
        invariant data == View().Held()[off..off + n - tocopy]
      {
        assert View().Held()[off + n - tocopy] == sndbuf[i];
        data := data + [sndbuf[i]];
        i := i + 1;
        if i >= sndbuf.Length {
          i := 0;
        }
        tocopy := tocopy - 1;
      }
    }

    /** tcpsend, with no FIN to send and the SYN acknowledged. */
    method TcpSend(rexmt: bool) returns (seg: Segment)
      requires Valid()
      modifies this`snext, this`needout
      ensures Valid() && (View(), seg) == Send(old(View()), rexmt, swindow, smss) && !needout
    {
      var datalen, off := TcpSndLen(rexmt);
      var sq := if rexmt then suna else snext;
      var data := CopyFrom(off, datalen);
      seg := Segment(sq, data, false, datalen > 0);
      needout := false;
      var newdata := datalen;
      if rexmt {
        newdata := suna + datalen - snext;
        if newdata < 0 {
          newdata := 0;
        }
      }
      snext := snext + newdata;
    }

    /** tcpacked, as far as the send ring goes: says how many octets were retired. */
    method TcpAcked(ack: int) returns (acked: nat)
      requires Valid()
      modifies this`suna, this`sbstart, this`sbcount
      ensures View() == Acked(old(View()), ack) && acked == suna - old(suna)
    {
      acked := 0;
      if ack - suna <= 0 {
        return;
      }
      if ack - snext > 0 {
        return;
      }
      acked := ack - suna;
      suna := ack;
      SlotIsRemainder(sndbuf.Length, sbstart, acked);
      sbstart := (sbstart + acked) % sndbuf.Length;
      sbcount := sbcount - acked;
    }

    /** tcpxmit: on RETRANSMIT the oldest octets are sent again. Otherwise, with nothing to send an
        empty segment goes out if output was asked for, a closed window is probed with an empty segment,
        and everything else goes through the loop. */
    method TcpXmit(retransmit: bool) returns (segs: seq<Segment>)
      requires Valid() && smss > 0
      modifies this`snext, this`needout, this`ostate
      ensures Valid()
      ensures if retransmit
              then |segs| == 1 && (View(), segs[0]) == Send(old(View()), true, swindow, smss) && ostate == Rexmt
              else if old(TcpHowMuch()) > 0 && swindow > 0
              then (View(), segs) == Xmit(old(View()), Min(swindow, cwnd), swindow, smss) && ostate == Transmit
              else
                && View() == old(View()) && ostate == (if old(TcpHowMuch()) > 0 then Persist else old(ostate))
                && segs == if old(TcpHowMuch()) > 0 || old(needout) then [Segment(snext, [], false, false)] else []
      ensures needout == (old(needout) && segs == [])
    {
      if retransmit {
        var seg := TcpSend(true);
        ostate := Rexmt;
        return [seg];
      }
      segs := [];
      var tosend := TcpHowMuch();
      if tosend == 0 {
        if needout {
          var seg := TcpSend(false);
          assert seg.data == [];
          segs := [seg];
        }
        return;
      } else if swindow == 0 {
        ostate := Persist;
        var seg := TcpSend(false);
        assert seg.data == [];
        segs := [seg];
        return;
      }
      ostate := Transmit;
      segs := TransmitLoop(if swindow < cwnd then swindow else cwnd);
    }

    /** The loop of tcpxmit. */
    method TransmitLoop(window: nat) returns (segs: seq<Segment>)
      requires Valid() && smss > 0 && swindow > 0
      modifies this`snext, this`needout
      ensures Valid() && (View(), segs) == Xmit(old(View()), window, swindow, smss)
      ensures needout == (old(needout) && segs == [])
    {
      segs := [];
      var pending := snext - suna;
      ghost var all := Xmit(View(), window, swindow, smss);
      while TcpHowMuch() > 0 && pending < window
        invariant Valid() && pending == snext - suna
        invariant var rest := Xmit(View(), window, swindow, smss);
                  all.0 == rest.0 && all.1 == segs + rest.1
        invariant needout == (old(needout) && segs == [])
        decreases TcpHowMuch()
      {
        ghost var was := View();
        var seg := TcpSend(false);
        XmitTurn(was, segs, window, swindow, smss);
        segs := segs + [seg];
        pending := snext - suna;
      }
      assert segs + [] == segs;
    }
  }

  lemma XmitTurn(s: Snd, before: seq<Segment>, window: nat, swindow: nat, smss: nat)
    requires s.Ok() && swindow > 0 && smss > 0
    requires s.suna + s.count - s.snext > 0 && s.InFlight() < window
    ensures var (t, seg) := Send(s, false, swindow, smss);
            var here, rest := Xmit(s, window, swindow, smss), Xmit(t, window, swindow, smss);
            here.0 == rest.0 && before + here.1 == before + [seg] + rest.1
  {
  }
}
