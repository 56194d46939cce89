/** What the receiver answers to a segment it does not accept, and when it takes data for pushed. */
module TcpReply {
  import opened Wrappers
  import opened Ring
  import opened TcpReceive

  /** An acknowledgement: what is expected next, and the window. */
  datatype Ack = Ack(ackno: int, window: int)

  /** tcpackit, for a segment without RST or SYN: an empty one is taken for a duplicate
      acknowledgement. */
  method TcpAckIt(tcb: ReceiveTcb, s: Segment) returns (reply: Option<Ack>)
    requires tcb.Valid()
    modifies tcb`cwin
    ensures reply == if s.data == [] && !s.fin then None else Some(Ack(tcb.rnext, Offer(old(tcb.View()))))
    ensures tcb.cwin == if reply.None? then old(tcb.cwin) else tcb.rnext + reply.value.window
  {
    if |s.data| <= 0 && !s.fin {
      return None;
    }
    var window := tcb.TcpRWindow();
    reply := Some(Ack(tcb.rnext, window));
  }

  /** What is answered to a segment: nothing here if it is accepted. */
  function Reply(r: Rcv, s: Segment): Option<Ack> {
    if Acceptable(r, s) || (!s.fin && (s.data == [] || r.Window() == 0)) then None
    else Some(Ack(r.rnext, Offer(r)))
  }

  /** The part of tcpinp that takes a segment or answers it. */
  method TcpInput(tcb: ReceiveTcb, s: Segment, room: bool) returns (reply: Option<Ack>)
    requires tcb.Valid()
    modifies tcb, tcb.rcvbuf
    ensures var r := old(tcb.View());
            && reply == Reply(r, s)
            && tcb.View() == if Acceptable(r, s) then Arrive(r, s, room)
                             else if reply.Some? then Advertise(r) else r
  {
    var ok, stripped := tcb.TcpOk(s);
    if !ok {
      reply := TcpAckIt(tcb, stripped);
    } else {
      assert stripped == s;
      tcb.TcpData(s, room);
      reply := None;
    }
  }

  /** Section 3.9 of RFC 793 asks for an acknowledgement of every segment that is not acceptable.
      This receiver sends it exactly for those with a FIN, or with data while its window is open:
      tcpok has taken the data off when the window is closed, and tcpackit then sees none. */
  lemma AnsweredIff(r: Rcv, s: Segment)
    requires r.count <= |r.buf| && !Acceptable(r, s)
    ensures Reply(r, s).Some? <==> s.fin || (|s.data| > 0 && r.Window() > 0)
  {
  }

  /** So a probe of a closed window, with new data and no FIN, goes unanswered. */
  lemma ProbeUnanswered(r: Rcv, b: byte)
    requires r.count == |r.buf|
    ensures var probe := Segment(r.rnext, [b], false, false); !Acceptable(r, probe) && Reply(r, probe) == None
  {
  }

  /** In-order data counts as pushed though no one pushed it: with no push recorded, which is 0,
      every arrival passes it, unless it ends at a recorded FIN. */
  lemma {:induction false} PushedAnyway(r: Rcv, len: nat, room: bool)
    requires r.rnext > 0 && len > 0 && r.pushseq == 0 && !r.push
    ensures Account(r, r.rnext, len, false, false, room).push <==> r.rnext + len != r.finseq
  {
    if r.rnext + len != r.finseq {
      StaysPushed(r.rnext + len, r.Frags(), r.finseq, 0, true);
    }
  }

  lemma {:induction false} StaysPushed(n: int, q: FragQ, finseq: int, pushseq: int, psh: bool)
    requires psh
    ensures Absorb(n, q, finseq, pushseq, psh).psh
    decreases |q|
  {
    if n != finseq && q != [] && q[0].elt.start <= n {
      StaysPushed(Max(n, q[0].elt.End()), q[1..], finseq, if n >= pushseq then 0 else pushseq, true);
    }
  }
}
