/** One direction of a TCP connection in the data phase: a writer, a sender, a network that
    loses, duplicates and reorders, a receiver and a reader. */
module TcpSession {
  import opened Wrappers
  import opened Ring
  import opened TcpReceive
  import opened TcpStream
  import opened TcpSend
  import opened TcpReply

  /** `segs` and `acks` are what travels on the network. Each may be taken from it any number of
      times, in any order, until it is lost. `swindow` is the window the sender was last told of,
      in the acknowledgement numbered `lwack`. `fin` is TCPF_FIN in tcb_code: once a segment carried
      the FIN, every later one does. */
  datatype Session = Session(isn: int, written: seq<byte>, closed: bool, fin: bool,
                             snd: Snd, swindow: nat, lwack: int, smss: nat,
                             rcv: Rcv, delivered: seq<byte>, segs: set<Segment>, acks: set<Ack>) {
    function End(): int { isn + |written| }

    /** The part of the stream that has been on the network. */
    function Sent(): Stream
      requires 0 <= snd.snext - isn <= |written|
    {
      Stream(isn, written[..snd.snext - isn], fin)
    }

    /** Octets written and not sent. */
    function ToSend(): int { snd.suna + snd.count - snd.snext }
  }

  datatype Event =
    | Write(data: seq<byte>)
    | Transmit(rexmt: bool)
    | AckArrives(ack: Ack)
    | SegmentArrives(seg: Segment, room: bool)
    | ReadSome(len: nat)
    | SendAck
    | LoseSegment(seg: Segment)
    | LoseAck(ack: Ack)
    | Close

  /** A new connection: both rings empty, nothing on the network. The handshake left the windows
      counted from the number of the SYN, one before the first octet. */
  ghost predicate Init(s: Session) {
    && s.isn > 0 && s.written == [] && !s.closed && !s.fin && s.delivered == [] && s.segs == {} && s.acks == {}
    && s.snd.start < |s.snd.buf| && s.snd.count == 0 && s.snd.suna == s.snd.snext == s.isn && s.smss > 0
    && s.rcv.start < |s.rcv.buf| && s.rcv.count == 0 && s.rcv.rnext == s.isn && s.rcv.queue == None
    && s.rcv.finseq == 0 && !s.rcv.rdone && s.rcv.rmss <= |s.rcv.buf| && 2 <= |s.rcv.buf|
    && s.lwack == s.isn - 1 && s.swindow == |s.rcv.buf| && s.rcv.cwin == s.lwack + s.swindow
  }

  /** What an acknowledgement says: a point reached, and no room past the right edge. */
  ghost predicate Offered(r: Rcv, a: Ack) {
    a.ackno <= r.rnext && 0 <= a.window <= |r.buf| && a.ackno + a.window <= r.cwin
  }

  /** With nothing left to read the window is open. */
  ghost predicate OpenWhenEmpty(r: Rcv) {
    r.rmss <= |r.buf| && (!r.rdone && r.count == 0 ==> r.rnext < r.cwin)
  }

  ghost predicate SenderInv(s: Session) {
    && s.snd.Ok() && s.isn <= s.snd.suna && s.snd.suna + s.snd.count == s.End() && s.smss > 0
    && s.snd.Held() == s.written[s.snd.suna - s.isn..]
    && (s.fin ==> s.closed && s.snd.snext == s.End())
    && Offered(s.rcv, Ack(s.lwack, s.swindow))
  }

  ghost predicate Inv(s: Session) {
    && SenderInv(s)
    && TcpStream.Inv(s.rcv, s.Sent()) && WindowOk(s.rcv) && OpenWhenEmpty(s.rcv)
    && s.snd.suna <= DataNext(s.rcv)
    && (forall seg :: seg in s.segs ==> Agrees(seg, s.Sent()))
    && (forall a :: a in s.acks ==> Offered(s.rcv, a))
    && s.delivered == s.written[..Base(s.rcv) - s.isn]
  }

  /** tcpsend with a FIN to send: the first segment that reaches the last octet written carries it. */
  ghost function Outgoing(s: Session, rexmt: bool): (r: (Snd, Segment))
    requires s.snd.Ok()
  {
    var (snd, seg) := Send(s.snd, rexmt, s.swindow, s.smss);
    (snd, seg.(fin := s.fin || (s.closed && seg.End() == s.End())))
  }

  /** What the code can do next. Octets are sent again when some are unacknowledged, the window is
      closed, or the FIN was sent; new ones, or the FIN, while the window is closed or not full. A
      FIN on a segment that does not reach the end is left aside (see TornIff). An acknowledgement
      goes out only when output was asked for, or in reply to a segment. */
  ghost predicate Enabled(s: Session, e: Event)
    requires Inv(s)
  {
    match e
    case Write(data) => !s.closed && s.snd.count + |data| <= |s.snd.buf|
    case Transmit(rexmt) =>
      && (if rexmt then s.snd.suna < s.snd.snext || s.swindow == 0 || s.fin
          else (s.ToSend() > 0 || (s.closed && !s.fin)) && (s.swindow == 0 || s.snd.InFlight() < s.swindow))
      && !Torn(s, rexmt)
    case AckArrives(a) => a in s.acks
    case SegmentArrives(seg, _) => seg in s.segs
    case ReadSome(_) => true
    case SendAck => s.rcv.needout
    case LoseSegment(seg) => true
    case LoseAck(a) => true
    case Close => true
  }

  /** The FIN was sent, and the next segment is cut off short of the end, but carries it. */
  ghost predicate Torn(s: Session, rexmt: bool)
    requires s.snd.Ok()
  {
    s.fin && Outgoing(s, rexmt).1.End() < s.End()
  }

  /** What the sender makes of an acknowledgement: it retires what is covered, and takes the window
      unless it heard a later one. */
  function Hear(s: Session, a: Ack): Session
    requires s.snd.Ok() && a.window >= 0
  {
    var t := s.(snd := Acked(s.snd, a.ackno));
    if a.ackno < s.lwack then t else t.(swindow := a.window, lwack := a.ackno)
  }

  /** What the receiver makes of a segment. Once the FIN was received no data is taken. */
  function Take(r: Rcv, seg: Segment, room: bool): (Rcv, Option<Ack>)
    requires r.RingOk()
  {
    if Acceptable(r, seg) then (if r.rdone then r else Arrive(r, seg, room), None)
    else
      var reply := Reply(r, seg);
      (if reply.Some? then Advertise(r) else r, reply)
  }

  function Sending(s: Session, ack: Option<Ack>): set<Ack> {
    match ack case None => s.acks case Some(a) => s.acks + {a}
  }

  ghost function Step(s: Session, e: Event): Session
    requires Inv(s) && Enabled(s, e)
  {
    match e
    case Write(data) => s.(snd := Append(s.snd, data), written := s.written + data)
    case Transmit(rexmt) =>
      var (snd, seg) := Outgoing(s, rexmt);
      s.(snd := snd, fin := seg.fin, segs := s.segs + {seg})
    case AckArrives(a) => Hear(s, a)
    case SegmentArrives(seg, room) =>
      var (rcv, reply) := Take(s.rcv, seg, room);
      s.(rcv := rcv, acks := Sending(s, reply))
    case ReadSome(len) =>
      var (rcv, data) := Read(s.rcv, len);
      s.(rcv := rcv, delivered := s.delivered + data)
    case SendAck =>
      s.(rcv := Advertise(s.rcv).(needout := false), acks := s.acks + {Ack(s.rcv.rnext, Offer(s.rcv))})
    case LoseSegment(seg) => s.(segs := s.segs - {seg})
    case LoseAck(a) => s.(acks := s.acks - {a})
    case Close => s.(closed := true)
  }

  // ----- every step keeps the invariant -----

  lemma InitInv(s: Session)
    requires Init(s)
    ensures Inv(s)
  {
  }

  lemma AgreesGrow(seg: Segment, st: Stream, st': Stream)
    requires Agrees(seg, st) && st.isn == st'.isn && st.octets <= st'.octets
    requires st.closed ==> st == st'
    ensures Agrees(seg, st')
  {
  }

  /** The sent part of the stream grows, or closes; the receiver does not notice. */
  lemma SentGrows(s: Session, s': Session)
    requires Inv(s) && s'.rcv == s.rcv && s'.segs == s.segs && s'.isn == s.isn
    requires s.written <= s'.written
    requires s.fin ==> s'.fin && s'.written == s.written
    requires 0 <= s.snd.snext - s.isn <= s'.snd.snext - s.isn <= |s'.written|
    ensures TcpStream.Inv(s'.rcv, s'.Sent()) && (forall seg :: seg in s'.segs ==> Agrees(seg, s'.Sent()))
    ensures s.delivered == s'.written[..Base(s'.rcv) - s'.isn]
  {
    var st, st' := s.Sent(), s'.Sent();
    assert st.octets <= st'.octets;
    if st.closed {
      assert st' == st;
    } else {
      GrowKeeps(s.rcv, st, st'.(closed := false));
      if st'.closed { CloseKeeps(s.rcv, st'.(closed := false)); }
    }
    forall seg | seg in s'.segs ensures Agrees(seg, st') { AgreesGrow(seg, st, st'); }
  }

  lemma WriteKeeps(s: Session, data: seq<byte>)
    requires Inv(s) && Enabled(s, Write(data))
    ensures Inv(Step(s, Write(data)))
  {
    var s' := Step(s, Write(data));
    AppendHolds(s.snd, data);
    assert s'.written[s.snd.suna - s.isn..] == s.written[s.snd.suna - s.isn..] + data;
    SentGrows(s, s');
  }

  /** A segment cut from the send ring says what the writer wrote, and a FIN on it that the stream ends
      there, if and only if it is not cut off short with the FIN on it. */
  lemma TornIff(s: Session, rexmt: bool)
    requires SenderInv(s)
    ensures var (snd, seg) := Outgoing(s, rexmt);
            Agrees(seg, s.(snd := snd, fin := seg.fin).Sent()) <==> !Torn(s, rexmt)
  {
    var (snd, seg) := Outgoing(s, rexmt);
    var off := seg.seqno - s.snd.suna;
    assert seg.data == s.snd.Held()[off..off + |seg.data|];
    SliceOf(s.written, s.snd.suna - s.isn, off, |seg.data|, snd.snext - s.isn);
  }

  lemma SliceOf(w: seq<byte>, a: nat, off: nat, n: nat, m: nat)
    requires a + off + n <= m <= |w|
    ensures w[a..][off..off + n] == w[..m][a + off..a + off + n]
  {
  }

  /** The sender's part of the invariant, when the receiver did not notice. */
  lemma SenderMoves(s: Session, s': Session)
    requires Inv(s) && SenderInv(s') && s'.rcv == s.rcv && s'.acks == s.acks
    requires s'.snd.suna <= DataNext(s.rcv) && TcpStream.Inv(s'.rcv, s'.Sent())
    requires forall seg :: seg in s'.segs ==> Agrees(seg, s'.Sent())
    requires s'.delivered == s'.written[..Base(s.rcv) - s'.isn]
    ensures Inv(s')
  {
  }

  lemma TransmitKeeps(s: Session, rexmt: bool)
    requires Inv(s) && Enabled(s, Event.Transmit(rexmt))
    ensures Inv(Step(s, Event.Transmit(rexmt)))
  {
    var (snd, seg) := Outgoing(s, rexmt);
    var t := s.(snd := snd, fin := seg.fin);
    SentGrows(s, t);
    TornIff(s, rexmt);
    var s' := t.(segs := s.segs + {seg});
    assert s'.Sent() == t.Sent();
    SenderMoves(s, s');
  }

  lemma HearSender(s: Session, a: Ack)
    requires SenderInv(s) && Offered(s.rcv, a)
    ensures SenderInv(Hear(s, a))
    ensures s.snd.suna <= Hear(s, a).snd.suna <= Max(s.snd.suna, Min(a.ackno, s.snd.snext))
    ensures Hear(s, a).snd.snext == s.snd.snext
  {
    HearHolds(s.snd, s.written, s.isn, a.ackno);
  }

  lemma HearHolds(snd: Snd, w: seq<byte>, isn: int, ack: int)
    requires snd.Ok() && isn <= snd.suna && snd.suna - isn + snd.count == |w| && snd.Held() == w[snd.suna - isn..]
    ensures var t := Acked(snd, ack);
            && snd.suna <= t.suna <= Max(snd.suna, Min(ack, snd.snext)) && t.snext == snd.snext
            && t.suna - isn + t.count == |w| && t.Held() == w[t.suna - isn..]
  {
    AckedHolds(snd, ack);
    if snd.suna < ack <= snd.snext { DropDrop(w, snd.suna - isn, ack - snd.suna); }
  }

  lemma DropDrop(w: seq<byte>, a: nat, b: nat)
    requires a + b <= |w|
    ensures w[a..][b..] == w[a + b..]
  {
  }

  lemma AckKeeps(s: Session, a: Ack)
    requires Inv(s) && a in s.acks
    ensures Inv(Hear(s, a))
  {
    HearSender(s, a);
    assert DataNext(s.rcv) <= s.snd.snext;
    SentGrows(s, Hear(s, a));
    SenderMoves(s, Hear(s, a));
  }

  /** The receiver's part of the invariant, when no unread octet moved. */
  lemma ReceiverMoves(s: Session, c: Rcv, acks: set<Ack>)
    requires Inv(s) && TcpStream.Inv(c, s.Sent()) && WindowOk(c) && OpenWhenEmpty(c)
    requires Base(c) == Base(s.rcv) && DataNext(s.rcv) <= DataNext(c) && s.rcv.rnext <= c.rnext
    requires s.rcv.cwin <= c.cwin && |c.buf| == |s.rcv.buf|
    requires forall a :: a in acks ==> a in s.acks || Offered(c, a)
    ensures Inv(s.(rcv := c, acks := acks))
  {
    assert s.(rcv := c, acks := acks).Sent() == s.Sent();
  }

  /** Advertising, with what is then said. */
  lemma AdvertiseMoves(s: Session, needout: bool)
    requires Inv(s)
    ensures var c := Advertise(s.rcv).(needout := needout);
            Inv(s.(rcv := c, acks := s.acks + {Ack(s.rcv.rnext, Offer(s.rcv))}))
  {
    var c := Advertise(s.rcv).(needout := needout);
    AdvertiseKeepsWindow(s.rcv);
    FlagsKeep(s.rcv, c, s.Sent());
    ReceiverMoves(s, c, s.acks + {Ack(s.rcv.rnext, Offer(s.rcv))});
  }

  lemma ArrivalKeepsSession(s: Session, seg: Segment, room: bool)
    requires Inv(s) && seg in s.segs
    ensures Inv(Step(s, SegmentArrives(seg, room)))
  {
    if Acceptable(s.rcv, seg) {
      if !s.rcv.rdone {
        ArriveKeeps(s.rcv, s.Sent(), seg, room);
        ArriveKeepsWindow(s.rcv, s.Sent(), seg, room);
        AccountFrame(Laid(s.rcv, Trim(s.rcv, seg)), Trim(s.rcv, seg).first, |Trim(s.rcv, seg).data|,
                     Trim(s.rcv, seg).fin, seg.psh, room);
        ReceiverMoves(s, Arrive(s.rcv, seg, room), s.acks);
      }
    } else {
      AdvertiseMoves(s, s.rcv.needout);
    }
  }

  lemma DeliveredGrows(s: Session, len: nat)
    requires Inv(s)
    ensures var (rcv, data) := Read(s.rcv, len);
            s.delivered + data == s.written[..Base(rcv) - s.isn]
  {
    ReadKeeps(s.rcv, s.Sent(), len);
    var b, b' := Base(s.rcv) - s.isn, Base(Read(s.rcv, len).0) - s.isn;
    assert s.Sent().octets[b..b'] == s.written[b..b'];
    assert s.written[..b] + s.written[b..b'] == s.written[..b'];
  }

  lemma ReadOpens(r: Rcv, len: nat)
    requires r.RingOk() && OpenWhenEmpty(r)
    ensures OpenWhenEmpty(Read(r, len).0) && Read(r, len).0.rnext == r.rnext
  {
  }

  lemma ReadKeepsSession(s: Session, len: nat)
    requires Inv(s)
    ensures Inv(Step(s, ReadSome(len)))
  {
    DeliveredGrows(s, len);
    ReadKeeps(s.rcv, s.Sent(), len);
    ReadKeepsWindow(s.rcv, len);
    ReadOpens(s.rcv, len);
    var (rcv, data) := Read(s.rcv, len);
    ReaderMoves(s, rcv, data);
  }

  lemma ReaderMoves(s: Session, c: Rcv, data: seq<byte>)
    requires Inv(s) && TcpStream.Inv(c, s.Sent()) && WindowOk(c) && OpenWhenEmpty(c)
    requires DataNext(c) == DataNext(s.rcv) && c.rnext == s.rcv.rnext && s.rcv.cwin <= c.cwin
    requires |c.buf| == |s.rcv.buf| && s.delivered + data == s.written[..Base(c) - s.isn]
    ensures Inv(s.(rcv := c, delivered := s.delivered + data))
  {
    assert s.(rcv := c, delivered := s.delivered + data).Sent() == s.Sent();
  }

  lemma CloseKeepsSession(s: Session)
    requires Inv(s)
    ensures Inv(Step(s, Close))
  {
    SentGrows(s, Step(s, Close));
  }

  lemma StepKeeps(s: Session, e: Event)
    requires Inv(s) && Enabled(s, e)
    ensures Inv(Step(s, e))
  {
    match e
    case Write(data) => WriteKeeps(s, data);
    case Transmit(rexmt) => TransmitKeeps(s, rexmt);
    case AckArrives(a) => AckKeeps(s, a);
    case SegmentArrives(seg, room) => ArrivalKeepsSession(s, seg, room);
    case ReadSome(len) => ReadKeepsSession(s, len);
    case SendAck => AdvertiseMoves(s, false);
    case Close => CloseKeepsSession(s);
    case LoseSegment(_) =>
    case LoseAck(_) =>
  }

  // ----- every run -----

  ghost predicate Reaches(s: Session, es: seq<Event>, t: Session)
    requires Inv(s)
    decreases |es|
  {
    if es == [] then s == t
    else
      Enabled(s, es[0]) &&
      (StepKeeps(s, es[0]); Reaches(Step(s, es[0]), es[1..], t))
  }

  lemma {:induction false} RunKeeps(s: Session, es: seq<Event>, t: Session)
    requires Inv(s) && Reaches(s, es, t)
    ensures Inv(t)
    decreases |es|
  {
    if es != [] {
      StepKeeps(s, es[0]);
      RunKeeps(Step(s, es[0]), es[1..], t);
    }
  }

  /** Over every run from a new connection: what the reader was handed is a prefix of what
      the writer wrote, what is buffered for it is the octets after that, every acknowledgement
      on the network is of something received and offers no more room than there is, nothing was
      received that was not sent, and the receive side is done only when all that was written has
      arrived. */
  lemma Safety(s: Session, es: seq<Event>, t: Session)
    requires Init(s) && (InitInv(s); Reaches(s, es, t))
    ensures Inv(t) && t.delivered <= t.written
    ensures t.delivered + Contents(t.rcv.buf, t.rcv.start, t.rcv.count) == t.written[..DataNext(t.rcv) - t.isn]
    ensures forall a :: a in t.acks ==> a.ackno <= t.rcv.rnext && a.ackno + a.window <= t.rcv.rnext + t.rcv.Window()
    ensures t.rcv.rnext <= t.snd.snext || (t.rcv.rdone && t.rcv.rnext == t.snd.snext + 1)
    ensures t.rcv.rdone ==>
              t.closed && t.delivered + Contents(t.rcv.buf, t.rcv.start, t.rcv.count) == t.written
  {
    InitInv(s);
    RunKeeps(s, es, t);
    ContentsAreStream(t.rcv, t.Sent());
    var b, d := Base(t.rcv) - t.isn, DataNext(t.rcv) - t.isn;
    assert t.Sent().octets[b..d] == t.written[b..d];
    assert t.written[..b] + t.written[b..d] == t.written[..d];
    if t.rcv.rdone {
      assert t.written[..d] == t.written;
    }
  }

  lemma WrittenStep(s: Session, e: Event)
    requires Inv(s) && Enabled(s, e)
    ensures var t := Step(s, e);
            s.written <= t.written && t.isn == s.isn && t.smss == s.smss && s.snd.suna <= t.snd.suna
  {
    match e
    case AckArrives(a) => HearSender(s, a);
    case _ =>
  }

  lemma {:induction false} WrittenGrows(s: Session, es: seq<Event>, t: Session)
    requires Inv(s) && Reaches(s, es, t)
    ensures Inv(t) && s.written <= t.written && t.isn == s.isn && t.smss == s.smss && s.snd.suna <= t.snd.suna
    decreases |es|
  {
    if es != [] {
      StepKeeps(s, es[0]);
      WrittenStep(s, es[0]);
      WrittenGrows(Step(s, es[0]), es[1..], t);
    }
  }

  lemma TailsAlike(w: seq<byte>, w': seq<byte>, k: nat)
    requires k <= |w| && w <= w'
    ensures w[k..] <= w'[k..]
  {
  }

  /** Over every run: sending again carries at least what any segment carried that was cut earlier in the
      run and starts where the acknowledged part ends, if the window known is what it was then. */
  lemma ResendCovers(s: Session, es: seq<Event>, t: Session, rexmt: bool)
    requires Inv(s) && Reaches(s, es, t) && t.swindow == s.swindow
    requires (WrittenGrows(s, es, t); Outgoing(s, rexmt).1.seqno == t.snd.suna)
    ensures t.snd.Ok() && Outgoing(s, rexmt).1.data <= Outgoing(t, true).1.data
  {
    WrittenGrows(s, es, t);
    SendExact(s.snd, rexmt, s.swindow, s.smss);
    DropDrop(s.written, s.snd.suna - s.isn, t.snd.suna - s.snd.suna);
    TailsAlike(s.written, t.written, t.snd.suna - s.isn);
    RexmtCovers(s.snd, t.snd, rexmt, s.swindow, s.smss);
  }

  predicate Heard(es: seq<Event>, k: nat)
    requires k < |es|
  {
    es[k].AckArrives?
  }

  /** What the sender knows of the window comes from the acknowledgement number `k` of a run, if any came
      that is not older than what it knew. */
  ghost predicate KnownFrom(s: Session, es: seq<Event>, t: Session, k: nat) {
    && k < |es| && Heard(es, k) && es[k].ack == Ack(t.lwack, t.swindow) && s.lwack <= t.lwack
    && forall j :: k < j < |es| && Heard(es, j) ==> es[j].ack.ackno < t.lwack
  }

  /** Over every run the sender goes by the last heard of the acknowledgements with the highest number,
      whatever order they come in; older ones do not move its window. */
  lemma {:induction false} HeardLatest(s: Session, es: seq<Event>, t: Session)
    requires Inv(s) && Reaches(s, es, t)
    ensures forall j :: 0 <= j < |es| && Heard(es, j) ==> es[j].ack.ackno <= t.lwack
    ensures if exists j :: 0 <= j < |es| && Heard(es, j) && es[j].ack.ackno >= s.lwack
            then exists k: nat :: KnownFrom(s, es, t, k)
            else t.lwack == s.lwack && t.swindow == s.swindow
    decreases |es|
  {
    if es != [] {
      StepKeeps(s, es[0]);
      var n, rest := Step(s, es[0]), es[1..];
      HeardLatest(n, rest, t);
      assert forall j :: 0 <= j < |rest| ==> (Heard(rest, j) <==> Heard(es, j + 1));
      HeardFirst(s, es, n, t);
    }
  }

  lemma HeardFirst(s: Session, es: seq<Event>, n: Session, t: Session)
    requires Inv(s) && es != [] && Enabled(s, es[0]) && n == Step(s, es[0])
    requires forall j :: 0 <= j < |es[1..]| && Heard(es[1..], j) ==> es[1..][j].ack.ackno <= t.lwack
    requires if exists j :: 0 <= j < |es[1..]| && Heard(es[1..], j) && es[1..][j].ack.ackno >= n.lwack
             then exists k: nat :: KnownFrom(n, es[1..], t, k)
             else t.lwack == n.lwack && t.swindow == n.swindow
    ensures forall j :: 0 <= j < |es| && Heard(es, j) ==> es[j].ack.ackno <= t.lwack
    ensures if exists j :: 0 <= j < |es| && Heard(es, j) && es[j].ack.ackno >= s.lwack
            then exists k: nat :: KnownFrom(s, es, t, k)
            else t.lwack == s.lwack && t.swindow == s.swindow
  {
    var rest := es[1..];
    assert forall j :: 0 < j < |es| ==> rest[j - 1] == es[j] && (Heard(es, j) <==> Heard(rest, j - 1));
    assert n.lwack == if Heard(es, 0) && es[0].ack.ackno >= s.lwack then es[0].ack.ackno else s.lwack;
    if k: nat :| KnownFrom(n, rest, t, k) {
      assert KnownFrom(s, es, t, k + 1);
    } else if Heard(es, 0) && es[0].ack.ackno >= s.lwack {
      assert KnownFrom(s, es, t, 0);
    }
  }

  lemma EdgeStep(s: Session, e: Event)
    requires Inv(s) && Enabled(s, e)
    ensures s.rcv.cwin <= Step(s, e).rcv.cwin && s.rcv.rnext <= Step(s, e).rcv.rnext
  {
    match e
    case SegmentArrives(seg, room) =>
      AdvertiseKeepsWindow(s.rcv);
      if !s.rcv.rdone && Acceptable(s.rcv, seg) {
        ArriveKeeps(s.rcv, s.Sent(), seg, room);
        ArriveKeepsWindow(s.rcv, s.Sent(), seg, room);
      }
    case ReadSome(len) => ReadKeepsWindow(s.rcv, len);
    case SendAck => AdvertiseKeepsWindow(s.rcv);
    case _ =>
  }

  /** Over every run the advertised right edge never moves back, nor past the room there is. */
  lemma {:induction false} EdgeNeverFalls(s: Session, es: seq<Event>, t: Session)
    requires Inv(s) && Reaches(s, es, t)
    ensures s.rcv.cwin <= t.rcv.cwin <= t.rcv.rnext + t.rcv.Window() && s.rcv.rnext <= t.rcv.rnext
    decreases |es|
  {
    RunKeeps(s, es, t);
    if es != [] {
      StepKeeps(s, es[0]);
      EdgeStep(s, es[0]);
      EdgeNeverFalls(Step(s, es[0]), es[1..], t);
    }
  }
}
