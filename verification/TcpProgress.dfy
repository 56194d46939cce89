/** Whether a connection can still deliver what was written. Acknowledgements are not repeated
    unless something asks for one, and probes of a closed window are not answered, so losing the
    acknowledgement that reopens the window can stop a connection for good. */
module TcpProgress {
  import opened Wrappers
  import opened Ring
  import opened TcpReceive
  import TcpStream
  import opened TcpSend
  import opened TcpReply
  import opened TcpSession

  // ----- runs -----

  lemma ReachesFirst(s: Session, es: seq<Event>, t: Session) returns (n: Session)
    requires Inv(s) && es != [] && Reaches(s, es, t)
    ensures Enabled(s, es[0]) && n == Step(s, es[0]) && Inv(n) && Reaches(n, es[1..], t)
  {
    StepKeeps(s, es[0]);
    n := Step(s, es[0]);
  }

  /** `t` can come after `s`. */
  ghost predicate After(s: Session, t: Session) {
    Inv(s) && Inv(t) && exists es :: Reaches(s, es, t)
  }

  lemma AfterSelf(s: Session)
    requires Inv(s)
    ensures After(s, s)
  {
    assert Reaches(s, [], s);
  }

  lemma AfterFirst(s: Session, e: Event, t: Session)
    requires Inv(s) && Enabled(s, e) && After(Step(s, e), t)
    ensures After(s, t)
  {
    var es :| Reaches(Step(s, e), es, t);
    assert ([e] + es)[1..] == es;
    assert Reaches(s, [e] + es, t);
  }

  lemma {:induction false} AfterRun(s: Session, es: seq<Event>, t: Session, u: Session)
    requires Inv(s) && Reaches(s, es, t) && After(t, u)
    ensures After(s, u)
    decreases |es|
  {
    if es != [] {
      var n := ReachesFirst(s, es, t);
      AfterRun(n, es[1..], t, u);
      AfterFirst(s, es[0], u);
    }
  }

  lemma AfterAfter(s: Session, t: Session, u: Session)
    requires After(s, t) && After(t, u)
    ensures After(s, u)
  {
    var es :| Reaches(s, es, t);
    AfterRun(s, es, t, u);
  }

  lemma AfterStep(s: Session, t: Session, e: Event)
    requires After(s, t) && Enabled(t, e)
    ensures After(s, Step(t, e))
  {
    var u := Step(t, e);
    StepKeeps(t, e);
    AfterSelf(u);
    AfterFirst(t, e, u);
    AfterAfter(s, t, u);
  }

  /** `t` can come after `s` with nothing more written and the connection closed by no one. */
  ghost predicate Leads(s: Session, t: Session) {
    After(s, t) && t.written == s.written && t.isn == s.isn && t.closed == s.closed
  }

  lemma LeadsOn(s: Session, t: Session, u: Session)
    requires Leads(s, t) && Leads(t, u)
    ensures Leads(s, u)
  {
    AfterAfter(s, t, u);
  }

  lemma OneStep(s: Session, e: Event)
    requires Inv(s) && Enabled(s, e) && !e.Write? && !e.Close?
    ensures Leads(s, Step(s, e))
  {
    AfterSelf(s);
    AfterStep(s, s, e);
  }

  // ----- when nothing more can come of it -----

  /** A segment that the receiver neither answers nor moves rnext for: it carries nothing, or
      lies in the window beyond a hole. */
  predicate Harmless(r: Rcv, seg: Segment) {
    seg.data == [] || r.rnext < seg.seqno < r.rnext + r.Window()
  }

  /** An acknowledgement that does not open the sender's window. */
  predicate Useless(s: Session, a: Ack) { a.ackno < s.lwack || a.window == 0 }

  /** The sender believes the window closed, the receiver believes it open and has nothing to
      say, and nothing on the network will make either think again. */
  ghost predicate Stuck(s: Session) {
    && !s.fin && s.rcv.rnext < s.End() && s.swindow == 0
    && !s.rcv.needout && s.rcv.rnext < s.rcv.cwin
    && (forall a :: a in s.acks ==> Useless(s, a))
    && (forall seg :: seg in s.segs ==> Harmless(s.rcv, seg))
  }

  /** A harmless segment changes nothing but the record of what lies beyond the hole. */
  lemma HarmlessArrival(s: Session, seg: Segment, room: bool)
    requires Inv(s) && !s.fin && seg in s.segs && Harmless(s.rcv, seg) && s.rcv.rnext < s.rcv.cwin
    ensures var (c, reply) := Take(s.rcv, seg, room);
            && reply == None && c.rnext == s.rcv.rnext && c.count == s.rcv.count && |c.buf| == |s.rcv.buf|
            && c.cwin == s.rcv.cwin && c.needout == s.rcv.needout
  {
    if Acceptable(s.rcv, seg) && !s.rcv.rdone {
      var a := Trim(s.rcv, seg);
      AccountFrame(Laid(s.rcv, a), a.first, |a.data|, a.fin, seg.psh, room);
    }
  }

  lemma StuckStep(s: Session, e: Event)
    requires Inv(s) && Stuck(s) && Enabled(s, e) && !s.closed && !e.Close?
    ensures Stuck(Step(s, e)) && Step(s, e).rcv.rnext == s.rcv.rnext
  {
    match e
    case SegmentArrives(seg, room) => HarmlessArrival(s, seg, room);
    case Write(_) =>
    case Transmit(_) =>
    case AckArrives(_) =>
    case ReadSome(_) =>
    case _ =>
  }

  lemma CloseIsForGood(s: Session, e: Event)
    requires Inv(s) && Enabled(s, e) && (s.closed || e.Close?)
    ensures Step(s, e).closed
  {
  }

  lemma {:induction false} ClosedStays(s: Session, es: seq<Event>, t: Session)
    requires Inv(s) && Reaches(s, es, t) && s.closed
    ensures t.closed
    decreases |es|
  {
    if es != [] {
      StepKeeps(s, es[0]);
      CloseIsForGood(s, es[0]);
      ClosedStays(Step(s, es[0]), es[1..], t);
    }
  }

  /** Nothing that any party does, short of closing, gets a stuck connection going again. */
  lemma {:induction false} StuckForGood(s: Session, es: seq<Event>, t: Session)
    requires Inv(s) && Stuck(s) && Reaches(s, es, t) && !t.closed
    ensures Inv(t) && Stuck(t) && t.isn == s.isn && t.rcv.rnext == s.rcv.rnext && |t.delivered| < |s.written|
    decreases |es|
  {
    RunKeeps(s, es, t);
    if es != [] {
      StepKeeps(s, es[0]);
      if s.closed || es[0].Close? {
        CloseIsForGood(s, es[0]);
        ClosedStays(Step(s, es[0]), es[1..], t);
      } else {
        StuckStep(s, es[0]);
        StuckForGood(Step(s, es[0]), es[1..], t);
      }
    }
    assert |t.delivered| <= t.rcv.rnext - t.isn;
  }

  // ----- and when it can -----

  /** More has arrived in order, and an acknowledgement of it is owed: such a state is not stuck. */
  predicate Advanced(s: Session, t: Session) { t.rcv.rnext > s.rcv.rnext && t.rcv.needout }

  /** The reader takes all there is; the window is then open, as long as more can come. */
  lemma Drain(s: Session) returns (t: Session)
    requires Inv(s)
    ensures Leads(s, t) && t == s.(rcv := t.rcv, delivered := t.delivered)
    ensures t.rcv.count == 0 && t.rcv.rnext == s.rcv.rnext && t.rcv.rdone == s.rcv.rdone
    ensures |t.rcv.buf| == |s.rcv.buf| && (!s.rcv.rdone ==> t.rcv.rnext < t.rcv.cwin)
    ensures s.rcv.needout || (!s.rcv.rdone && s.rcv.cwin <= s.rcv.rnext) ==> t.rcv.needout
    ensures t.delivered == s.written[..TcpStream.DataNext(s.rcv) - s.isn]
  {
    AfterSelf(s);
    t := s;
    if s.rcv.count > 0 {
      var e := ReadSome(s.rcv.count);
      OneStep(s, e);
      t := Step(s, e);
      TcpStream.ReadKeeps(s.rcv, s.Sent(), s.rcv.count);
    }
  }

  /** An acknowledgement that opens the window is heard. */
  lemma HearWindow(s: Session, a: Ack) returns (t: Session)
    requires Inv(s) && a in s.acks && !Useless(s, a)
    ensures Leads(s, t) && t == Hear(s, a) && t.swindow > 0
  {
    OneStep(s, AckArrives(a));
    t := Step(s, AckArrives(a));
  }

  /** With an empty ring and output asked for, the sender learns of an open window. */
  lemma Acknowledge(s: Session) returns (t: Session)
    requires Inv(s) && !s.rcv.rdone && s.rcv.needout && s.rcv.count == 0
    ensures Leads(s, t) && t.swindow > 0 && t.rcv.rnext == s.rcv.rnext && t.fin == s.fin
  {
    var a := Ack(s.rcv.rnext, Offer(s.rcv));
    OneStep(s, SendAck);
    var s1 := Step(s, SendAck);
    t := HearWindow(s1, a);
    LeadsOn(s, s1, t);
  }

  lemma AcceptedMoves(r: Rcv, st: TcpStream.Stream, seg: Segment)
    requires TcpStream.Inv(r, st) && !st.closed && TcpStream.Agrees(seg, st) && !Harmless(r, seg) && Acceptable(r, seg)
    ensures !r.rdone && Arrive(r, seg, true).rnext > r.rnext && Arrive(r, seg, true).needout
  {
    TcpStream.ArriveKeeps(r, st, seg, true);
  }

  /** A segment that is not harmless is answered or moves rnext. */
  lemma HarmfulArrival(s: Session, seg: Segment) returns (t: Session)
    requires Inv(s) && !s.fin && seg in s.segs && !Harmless(s.rcv, seg) && s.rcv.rnext < s.rcv.cwin
    ensures Leads(s, t) && !t.fin
    ensures Advanced(s, t) || (t.rcv.rnext == s.rcv.rnext && t.swindow > 0 && t.snd.suna == s.rcv.rnext)
    ensures seg.seqno == s.rcv.rnext ==> Advanced(s, t)
  {
    var e := SegmentArrives(seg, true);
    OneStep(s, e);
    var s1 := Step(s, e);
    if Acceptable(s.rcv, seg) {
      AcceptedMoves(s.rcv, s.Sent(), seg);
      t := s1;
    } else {
      var a := Ack(s.rcv.rnext, Offer(s.rcv));
      t := HearWindow(s1, a);
      LeadsOn(s, s1, t);
    }
  }

  /** A FIN that ends in the window, on a segment that leaves no hole before it, ends the stream. */
  lemma FinArrival(s: Session, seg: Segment) returns (t: Session)
    requires Inv(s) && !s.rcv.rdone && seg in s.segs && seg.fin && seg.seqno <= s.rcv.rnext
    requires s.rcv.Window() > 0 && seg.End() <= s.rcv.rnext + s.rcv.Window()
    requires seg.seqno < s.rcv.rnext ==> seg.End() < s.rcv.rnext + s.rcv.Window()
    ensures Leads(s, t) && t.rcv.rdone
  {
    var e := SegmentArrives(seg, true);
    OneStep(s, e);
    t := Step(s, e);
    TcpStream.ArriveExact(s.rcv, s.Sent(), seg, true);
    TcpStream.ArriveKeeps(s.rcv, s.Sent(), seg, true);
    TcpStream.TrimEdges(s.rcv, seg);
  }

  /** Out of every state that is not stuck the sender comes to know of an open window, or rnext
      moves. */
  lemma Unstick(s: Session) returns (t: Session)
    requires Inv(s) && !s.fin && !Stuck(s) && s.rcv.rnext < s.End()
    ensures Leads(s, t) && !t.fin && (Advanced(s, t) || (t.rcv.rnext == s.rcv.rnext && t.swindow > 0))
  {
    AfterSelf(s);
    if s.swindow > 0 {
      t := s;
    } else if s.rcv.needout || s.rcv.cwin <= s.rcv.rnext {
      var s1 := Drain(s);
      t := Acknowledge(s1);
      LeadsOn(s, s1, t);
    } else if a :| a in s.acks && !Useless(s, a) {
      t := HearWindow(s, a);
    } else {
      var seg :| seg in s.segs && !Harmless(s.rcv, seg);
      t := HarmfulArrival(s, seg);
    }
  }

  /** The end was received, or the FIN has not been sent and more has arrived. */
  predicate Onward(s: Session, t: Session) { t.rcv.rdone || (!t.fin && Advanced(s, t)) }

  /** What is cut from the ring while its window is no more than the receiver's empty buffer. */
  lemma OutgoingFits(s: Session, rexmt: bool)
    requires Inv(s) && s.rcv.count == 0
    ensures var seg := Outgoing(s, rexmt).1;
            && seg.seqno == (if rexmt then s.snd.suna else s.snd.snext)
            && seg.End() <= seg.seqno + s.rcv.Window() && |seg.data| <= s.swindow
            && (s.swindow > 0 && seg.seqno < s.End() ==> seg.data != [])
  {
    SendExact(s.snd, rexmt, s.swindow, s.smss);
  }

  /** With the window known to be open, what is outstanding is sent again: either it was missing,
      or the answer says how far the receiver is. */
  lemma SendAgain(s: Session) returns (t: Session)
    requires Inv(s) && !s.fin && s.swindow > 0 && s.rcv.count == 0 && s.rcv.rnext < s.rcv.cwin
    requires s.snd.suna < s.snd.snext
    ensures Leads(s, t)
    ensures Onward(s, t) || (!t.fin && t.rcv.rnext == s.rcv.rnext && t.swindow > 0 && t.snd.suna == s.rcv.rnext)
    ensures s.snd.suna == s.rcv.rnext ==> Onward(s, t)
  {
    var e, seg := Event.Transmit(true), Outgoing(s, true).1;
    OutgoingFits(s, true);
    OneStep(s, e);
    var s1 := Step(s, e);
    if seg.fin { t := FinArrival(s1, seg); } else { t := HarmfulArrival(s1, seg); }
    LeadsOn(s, s1, t);
  }

  /** With everything acknowledged, new octets are sent and arrive. */
  lemma SendNew(s: Session) returns (t: Session)
    requires Inv(s) && !s.fin && s.swindow > 0 && s.rcv.count == 0 && s.rcv.rnext < s.rcv.cwin
    requires s.snd.suna == s.snd.snext == s.rcv.rnext < s.End()
    ensures Leads(s, t) && Onward(s, t)
  {
    var e, seg := Event.Transmit(false), Outgoing(s, false).1;
    OutgoingFits(s, false);
    OneStep(s, e);
    var s1 := Step(s, e);
    if seg.fin { t := FinArrival(s1, seg); } else { t := HarmfulArrival(s1, seg); }
    LeadsOn(s, s1, t);
  }

  /** One more octet gets through. */
  lemma Advance(s: Session) returns (t: Session)
    requires Inv(s) && !s.fin && s.swindow > 0 && s.rcv.rnext < s.End()
    ensures Leads(s, t) && Onward(s, t)
  {
    var s1 := Drain(s);
    var s2 := s1;
    if s1.snd.suna < s1.rcv.rnext {
      s2 := SendAgain(s1);
      LeadsOn(s, s1, s2);
    }
    if Onward(s, s2) {
      t := s2;
    } else {
      var s3 := Drain(s2);
      LeadsOn(s, s2, s3);
      if s3.snd.suna < s3.snd.snext {
        t := SendAgain(s3);
      } else {
        t := SendNew(s3);
      }
      LeadsOn(s, s3, t);
    }
  }

  /** With every octet received, the FIN goes out by itself. */
  lemma SendFinAlone(s: Session) returns (t: Session)
    requires Inv(s) && s.closed && !s.fin && s.rcv.count == 0 && s.rcv.rnext == s.End()
    requires s.swindow == 0 || s.snd.InFlight() < s.swindow
    ensures Leads(s, t) && t.rcv.rdone
  {
    var e, seg := Event.Transmit(false), Outgoing(s, false).1;
    OutgoingFits(s, false);
    OneStep(s, e);
    var s1 := Step(s, e);
    t := FinArrival(s1, seg);
    LeadsOn(s, s1, t);
  }

  /** Or on the last octets, or after they have been acknowledged. */
  lemma SendFin(s: Session) returns (t: Session)
    requires Inv(s) && s.closed && !s.fin && s.rcv.rnext == s.End()
    ensures Leads(s, t) && t.rcv.rdone
  {
    var s1 := Drain(s);
    if s1.swindow == 0 || s1.snd.InFlight() < s1.swindow {
      t := SendFinAlone(s1);
    } else {
      var s2 := SendAgain(s1);
      t := s2;
      if !s2.rcv.rdone {
        var s3 := Drain(s2);
        t := SendFinAlone(s3);
        LeadsOn(s2, s3, t);
        LeadsOn(s1, s2, t);
      }
    }
    LeadsOn(s, s1, t);
  }

  /** From every state that is not stuck and has not sent its FIN, whatever was lost so far, some run
      hands the reader everything that was written, and, if the writer has closed, the end too. */
  lemma {:induction false} Finish(s: Session) returns (t: Session)
    requires Inv(s) && !s.fin && !Stuck(s)
    ensures Leads(s, t) && t.delivered == s.written && (s.closed ==> t.rcv.rdone)
    decreases s.End() - s.rcv.rnext
  {
    if s.rcv.rnext == s.End() {
      t := FinishAtEnd(s);
    } else {
      var s1 := FinishOnward(s);
      if s1.rcv.rdone { t := Drain(s1); } else { t := Finish(s1); }
      LeadsOn(s, s1, t);
    }
  }

  lemma FinishAtEnd(s: Session) returns (t: Session)
    requires Inv(s) && !s.fin && s.rcv.rnext == s.End()
    ensures Leads(s, t) && t.delivered == s.written && (s.closed ==> t.rcv.rdone)
  {
    if s.closed {
      var s1 := SendFin(s);
      t := Drain(s1);
      LeadsOn(s, s1, t);
    } else {
      t := Drain(s);
    }
  }

  lemma FinishOnward(s: Session) returns (t: Session)
    requires Inv(s) && !s.fin && !Stuck(s) && s.rcv.rnext < s.End()
    ensures Leads(s, t) && Onward(s, t)
  {
    t := Unstick(s);
    if !Advanced(s, t) {
      var u := Advance(t);
      LeadsOn(s, t, u);
      t := u;
    }
  }

  /** And so does one from every state that has sent its FIN, as long as what is unacknowledged fits in
      one segment. */
  lemma FinishFin(s: Session) returns (t: Session)
    requires Inv(s) && s.fin && !Torn(s, true)
    ensures Leads(s, t) && t.delivered == s.written && t.rcv.rdone
  {
    var s1 := Drain(s);
    if !s1.rcv.rdone {
      var s2 := FinAgain(s1);
      LeadsOn(s, s1, s2);
      s1 := s2;
    }
    t := Drain(s1);
    LeadsOn(s, s1, t);
  }

  lemma FinAgain(s: Session) returns (t: Session)
    requires Inv(s) && s.fin && !Torn(s, true) && !s.rcv.rdone && s.rcv.count == 0
    ensures Leads(s, t) && t.rcv.rdone
  {
    var e, seg := Event.Transmit(true), Outgoing(s, true).1;
    OutgoingFits(s, true);
    OneStep(s, e);
    var s1 := Step(s, e);
    t := FinArrival(s1, seg);
    LeadsOn(s, s1, t);
  }

  /** If it does not fit, the FIN goes out on a segment that is cut off short, and a receiver to whom it
      brings the next octets takes them for the end: what was written after them is never handed over. */
  lemma TornEndsEarly(s: Session)
    requires Inv(s) && Torn(s, true) && !s.rcv.rdone && s.snd.suna == s.rcv.rnext
    requires s.rcv.Frags() == [] && s.snd.count <= s.rcv.Window()
    ensures var seg := Outgoing(s, true).1;
            && Acceptable(s.rcv, seg)
            && var c := Arrive(s.rcv, seg, true); c.rdone && TcpStream.DataNext(c) == seg.End() < s.End()
  {
    SendExact(s.snd, true, s.swindow, s.smss);
    TcpStream.TrimEdges(s.rcv, Outgoing(s, true).1);
  }

  /** A closed connection sends one octet more than a segment takes, in two segments. */
  lemma SendTwice(s: Session) returns (t: Session)
    requires Inv(s) && s.closed && !s.fin && s.snd.InFlight() == 0 && s.snd.count == s.smss + 1 <= s.swindow
    ensures After(s, t) && t.fin && t == s.(snd := t.snd, segs := t.segs, fin := t.fin)
    ensures t.snd.suna == s.snd.suna && t.snd.count == s.snd.count
  {
    var e := Event.Transmit(false);
    SendExact(s.snd, false, s.swindow, s.smss);
    OneStep(s, e);
    t := Step(s, e);
    SendExact(t.snd, false, s.swindow, s.smss);
    OneStep(t, e);
    AfterAfter(s, t, Step(t, e));
    t := Step(t, e);
  }

  lemma WriteAndClose(s: Session, data: seq<byte>) returns (t: Session)
    requires Init(s) && |data| <= |s.snd.buf|
    ensures Inv(s) && After(s, t) && t.closed && !t.fin && t.snd.InFlight() == 0 && t.snd.count == |data|
    ensures t.smss == s.smss && t.swindow == s.swindow && t.rcv == s.rcv && t.snd.suna == s.snd.suna
  {
    InitInv(s);
    AfterSelf(s);
    AfterStep(s, s, Write(data));
    t := Step(s, Write(data));
    AfterStep(s, t, Close);
    t := Step(t, Close);
  }

  lemma TornWhen(s: Session)
    requires Inv(s) && s.fin && s.smss < s.snd.count
    ensures Torn(s, true)
  {
    SendExact(s.snd, true, s.swindow, s.smss);
  }

  /** Every new connection whose buffers hold more than one maximal segment has such a run: it writes one
      octet more than that, closes, sends it all, and sends it again. */
  lemma AnyCanEndEarly(s: Session) returns (es: seq<Event>, t: Session)
    requires Init(s) && s.smss < |s.snd.buf| && s.smss < |s.rcv.buf|
    ensures Inv(s) && Reaches(s, es, t) && Inv(t) && Torn(t, true) && t.snd.suna == t.rcv.rnext && !t.rcv.rdone
    ensures t.rcv.Frags() == [] && t.snd.count <= t.rcv.Window()
  {
    InitInv(s);
    var s1 := WriteAndClose(s, seq(s.smss + 1, _ => 0));
    t := SendTwice(s1);
    AfterAfter(s, s1, t);
    es :| Reaches(s, es, t);
    TornWhen(t);
  }

  // ----- open connections -----

  /** All that was written so far can still be handed over, with the connection open. */
  ghost predicate CanFinish(s: Session)
    requires Inv(s)
  {
    exists es, t :: Reaches(s, es, t) && !t.closed && s.written <= t.delivered
  }

  /** An open connection can deliver what was written if and only if it is not stuck. */
  lemma FinishIff(s: Session)
    requires Inv(s) && !s.closed
    ensures CanFinish(s) <==> !Stuck(s)
  {
    if Stuck(s) {
      forall es, t | Reaches(s, es, t) && !t.closed ensures !(s.written <= t.delivered) {
        StuckForGood(s, es, t);
      }
    } else {
      var t := Finish(s);
      var es :| Reaches(s, es, t);
    }
  }

  // ----- every connection can get stuck -----

  /** All that was written is received and acknowledged. */
  ghost predicate Quiet(s: Session) {
    Inv(s) && !s.closed && s.snd.suna == s.rcv.rnext == s.End()
  }

  /** A segment of one octet, in order, with nothing more to come. */
  lemma OneArrives(s: Session, seg: Segment) returns (t: Session)
    requires Inv(s) && !s.closed && seg in s.segs && seg.seqno == s.rcv.rnext && |seg.data| == 1 && seg.End() == s.End()
    requires s.rcv.rnext < s.rcv.cwin
    ensures After(s, t) && !t.closed && t.rcv.rnext == t.End() == s.End() && t.rcv.needout
    ensures t.rcv.count == s.rcv.count + 1 && |t.rcv.buf| == |s.rcv.buf|
  {
    AfterSelf(s);
    var e := SegmentArrives(seg, true);
    AfterStep(s, s, e);
    t := Step(s, e);
    TcpStream.ArriveKeeps(s.rcv, s.Sent(), seg, true);
    AccountFrame(Laid(s.rcv, Trim(s.rcv, seg)), seg.seqno, 1, false, seg.psh, true);
  }

  /** One octet is written, sent and taken. */
  lemma OneOctet(s: Session) returns (t: Session)
    requires Quiet(s) && s.swindow > 0 && s.rcv.rnext < s.rcv.cwin
    ensures After(s, t) && !t.closed && t.rcv.rnext == t.End() && t.rcv.needout
    ensures t.rcv.count == s.rcv.count + 1 && |t.rcv.buf| == |s.rcv.buf|
  {
    AfterSelf(s);
    var w := Write([0]);
    AfterStep(s, s, w);
    var s1 := Step(s, w);
    var e := Event.Transmit(false);
    AfterStep(s, s1, e);
    var s2 := Step(s1, e);
    t := OneArrives(s2, Send(s1.snd, false, s1.swindow, s1.smss).1);
    AfterAfter(s, s2, t);
  }

  /** What is owed is acknowledged and heard. */
  lemma Heard(s: Session) returns (t: Session)
    requires Inv(s) && !s.closed && s.rcv.rnext == s.End() && s.rcv.needout
    ensures After(s, t) && Quiet(t) && t.rcv.rnext == s.rcv.rnext
    ensures t.rcv.count == s.rcv.count && |t.rcv.buf| == |s.rcv.buf|
    ensures t.swindow == 0 <==> t.rcv.cwin <= t.rcv.rnext
  {
    AfterSelf(s);
    AfterStep(s, s, SendAck);
    var s1 := Step(s, SendAck);
    var a := AckArrives(Ack(s.rcv.rnext, Offer(s.rcv)));
    AfterStep(s, s1, a);
    t := Step(s1, a);
  }

  /** While the reader is away the ring fills up and the window closes. */
  lemma {:induction false} FillsUp(s: Session) returns (t: Session)
    requires Quiet(s) && s.swindow > 0 && s.rcv.rnext < s.rcv.cwin
    ensures After(s, t) && Quiet(t) && t.swindow == 0 && t.rcv.cwin <= t.rcv.rnext
    decreases |s.rcv.buf| - s.rcv.count
  {
    var s1 := OneOctet(s);
    t := Heard(s1);
    AfterAfter(s, s1, t);
    if t.swindow > 0 {
      var u := FillsUp(t);
      AfterAfter(s, t, u);
      t := u;
    }
  }

  /** One more octet is written, the reader empties the ring, and the window is offered again. */
  lemma Reopens(s: Session) returns (t: Session)
    requires Quiet(s) && s.swindow == 0 && s.rcv.cwin <= s.rcv.rnext
    ensures After(s, t) && !t.closed && t.swindow == 0
    ensures t.rcv.rnext < t.End() && t.rcv.rnext < t.rcv.cwin && !t.rcv.needout
  {
    AfterSelf(s);
    var w := Write([0]);
    AfterStep(s, s, w);
    var s1 := Step(s, w);
    var r := ReadSome(s.rcv.count);
    AfterStep(s, s1, r);
    var s2 := Step(s1, r);
    AfterStep(s, s2, SendAck);
    t := Step(s2, SendAck);
    TcpStream.ReadKeeps(s1.rcv, s1.Sent(), s.rcv.count);
  }

  lemma {:induction false} LosesAcks(s: Session)
    requires Inv(s)
    ensures After(s, s.(acks := {}))
    decreases |s.acks|
  {
    AfterSelf(s);
    if a :| a in s.acks {
      AfterStep(s, s, LoseAck(a));
      var t := Step(s, LoseAck(a));
      LosesAcks(t);
      AfterAfter(s, t, t.(acks := {}));
    }
  }

  lemma {:induction false} LosesSegments(s: Session)
    requires Inv(s)
    ensures After(s, s.(segs := {}))
    decreases |s.segs|
  {
    AfterSelf(s);
    if seg :| seg in s.segs {
      AfterStep(s, s, LoseSegment(seg));
      var t := Step(s, LoseSegment(seg));
      LosesSegments(t);
      AfterAfter(s, t, t.(segs := {}));
    }
  }

  /** Every new connection has a run that gets it stuck: the ring fills up, the reader empties it,
      and the one acknowledgement that says so is lost. */
  lemma AnyCanStick(s: Session) returns (es: seq<Event>, t: Session)
    requires Init(s)
    ensures Inv(s) && Reaches(s, es, t) && Inv(t) && Stuck(t) && !CanFinish(t)
  {
    InitInv(s);
    var s2 := FillsUp(s);
    var s3 := Reopens(s2);
    AfterAfter(s, s2, s3);
    LosesAcks(s3);
    AfterAfter(s, s3, s3.(acks := {}));
    LosesSegments(s3.(acks := {}));
    t := s3.(acks := {}, segs := {});
    AfterAfter(s, s3.(acks := {}), t);
    es :| Reaches(s, es, t);
    FinishIff(t);
  }
}
