/** What the receive ring holds: when every segment agrees with one stream of octets, the ring
    is a window on that stream, and rnext is never ahead of what arrived. */
module TcpStream {
  import opened Wrappers
  import opened Ring
  import opened Gpq
  import opened TcpReceive

  /** The peer's octets, numbered from `isn`; `closed` once no more will follow, and then a
      FIN takes the number after the last. */
  datatype Stream = Stream(isn: int, octets: seq<byte>, closed: bool) {
    function End(): int { isn + |octets| }
  }

  /** A segment that says nothing but what the stream says. */
  ghost predicate Agrees(s: Segment, st: Stream) {
    && st.isn <= s.seqno && s.End() <= st.End()
    && s.data == st.octets[s.seqno - st.isn..s.End() - st.isn]
    && (s.fin ==> st.closed && s.End() == st.End())
  }

  /** Sequence number of the next octet expected: rnext, not counting a FIN received. */
  function DataNext(r: Rcv): int { if r.rdone then r.rnext - 1 else r.rnext }

  /** Sequence number of the first unread octet. */
  function Base(r: Rcv): int { DataNext(r) - r.count }

  /** The ring slot that belongs to octet `x` holds it. */
  ghost predicate Holds(r: Rcv, st: Stream, x: int) {
    && r.start < |r.buf| && 0 <= x - Base(r) < |r.buf| && st.isn <= x < st.End()
    && r.buf[Slot(|r.buf|, r.start, x - Base(r))] == st.octets[x - st.isn]
  }

  ghost predicate Covers(q: FragQ, x: int) {
    exists k :: 0 <= k < |q| && q[k].elt.start <= x < q[k].elt.End()
  }

  /** Every octet from the first unread one to rnext, and every one in a remembered stretch,
      sits at its slot. */
  ghost predicate Stored(r: Rcv, st: Stream) {
    forall x :: Base(r) <= x < DataNext(r) || (DataNext(r) <= x && Covers(r.Frags(), x)) ==> Holds(r, st, x)
  }

  ghost predicate Starts(q: FragQ, n: int) {
    forall k :: 0 <= k < |q| ==> q[k].elt.start > n
  }

  /** The receiver's invariant. A FIN recorded ahead of time names the end of the stream and
      has not been reached; a FIN received means the whole stream was. */
  ghost predicate Inv(r: Rcv, st: Stream) {
    && r.RingOk() && 0 < st.isn <= Base(r) && DataNext(r) <= st.End()
    && Stored(r, st)
    && FragsOk(r.Frags(), Min(st.End(), Base(r) + |r.buf|)) && Sorted(r.Frags())
    && (!r.rdone ==> Starts(r.Frags(), r.rnext))
    && (r.finseq != 0 ==> st.closed && r.finseq == st.End())
    && (r.rdone ==> st.closed && DataNext(r) == st.End())
    && (!r.rdone && r.finseq != 0 ==> r.rnext < r.finseq)
  }

  // ----- the ring -----

  /** The in-window part of a segment that says what the stream says. */
  ghost predicate Fits(r: Rcv, a: Arrival, st: Stream) {
    && st.isn <= r.rnext <= a.first && a.first + |a.data| <= Min(st.End(), r.rnext + r.Window())
    && a.data == st.octets[a.first - st.isn..a.first - st.isn + |a.data|]
    && (a.fin ==> st.closed && a.first + |a.data| == st.End())
  }

  /** What is left of an agreeing segment agrees too. */
  lemma TrimAgrees(r: Rcv, s: Segment, st: Stream)
    requires r.count <= |r.buf| && Acceptable(r, s) && Agrees(s, st) && st.isn <= r.rnext
    ensures Fits(r, Trim(r, s), st)
  {
    AcceptableOverlaps(r, s);
    var a := Trim(r, s);
    var i := a.first - s.seqno;
    SliceOfSlice(st.octets, s.seqno - st.isn, s.End() - st.isn, i, i + |a.data|);
  }

  lemma SliceOfSlice(w: seq<byte>, from: nat, to: nat, i: nat, j: nat)
    requires from <= to <= |w| && i <= j <= to - from
    ensures w[from..to][i..j] == w[from + i..from + j]
  {
    var x, y := w[from..to][i..j], w[from + i..from + j];
    forall k | 0 <= k < |x| ensures x[k] == y[k] { assert w[from..to][i + k] == w[from + (i + k)]; }
  }

  /** A copied segment lands on its own octets' slots and on no unread octet. */
  lemma LaidHolds(r: Rcv, st: Stream, a: Arrival, x: int)
    requires r.RingOk() && !r.rdone && st.isn <= Base(r)
    requires r.rnext <= a.first && a.first + |a.data| <= Min(st.End(), r.rnext + r.Window())
    requires a.data == st.octets[a.first - st.isn..a.first - st.isn + |a.data|]
    requires a.first <= x < a.first + |a.data| || Holds(r, st, x)
    ensures Holds(Laid(r, a), st, x)
  {
    DepositSeenFrom(r.buf, r.start, r.count + (a.first - r.rnext), a.data, x - Base(r));
  }

  /** No copy overwrites an octet the reader has not had. */
  lemma LaidKeepsUnread(r: Rcv, s: Segment)
    requires r.RingOk() && Acceptable(r, s)
    ensures var l := Laid(r, Trim(r, s));
            Contents(l.buf, l.start, l.count) == Contents(r.buf, r.start, r.count)
  {
    var a := Trim(r, s);
    var l := Laid(r, a);
    forall i | 0 <= i < r.count
      ensures Contents(l.buf, l.start, l.count)[i] == Contents(r.buf, r.start, r.count)[i]
    {
      DepositSeenFrom(r.buf, r.start, r.count + (a.first - r.rnext), a.data, i);
    }
  }

  // ----- the queue -----

  ghost predicate KeysOk(q: FragQ) { forall k :: 0 <= k < |q| ==> q[k].key == -q[k].elt.start }

  lemma CoversTail(q: FragQ, x: int)
    requires q != [] && Covers(q[1..], x)
    ensures Covers(q, x)
  {
    var k :| 0 <= k < |q[1..]| && q[1..][k].elt.start <= x < q[1..][k].elt.End();
    assert q[k + 1] == q[1..][k];
  }

  /** Everything that absorbing passes over is covered by a queued stretch. */
  lemma {:induction false} AbsorbReach(n: int, q: FragQ, finseq: int, pushseq: int, psh: bool)
    ensures forall x :: n <= x < Absorb(n, q, finseq, pushseq, psh).rnext ==> Covers(q, x)
    decreases |q|
  {
    if n != finseq && q != [] && q[0].elt.start <= n {
      var (p, h) := if n >= pushseq then (0, true) else (pushseq, psh);
      var m := Max(n, q[0].elt.End());
      AbsorbReach(m, q[1..], finseq, p, h);
      forall x | n <= x < Absorb(n, q, finseq, pushseq, psh).rnext ensures Covers(q, x) {
        if x >= m { CoversTail(q, x); }
      }
    }
  }

  /** In a queue in order, nothing covers a point before its first stretch, and putting that
      stretch back keeps everything beyond the point. */
  lemma BeyondHole(n: int, q: FragQ)
    requires Sorted(q) && KeysOk(q) && q != [] && q[0].elt.start > n
    ensures !Covers(q, n) && Starts(Insert(q[1..], Keyed(q[0].elt)), n)
  {
    assert forall k :: 0 <= k < |q| ==> q[0].key >= q[k].key;
    InsertByIndex(q[1..], Keyed(q[0].elt), EnqPos(q[1..], -q[0].elt.start));
  }

  /** Absorbing stops only at the FIN, or at a point no queued stretch covers, with every
      stretch left over lying beyond it. */
  lemma {:induction false} AbsorbStop(n: int, q: FragQ, finseq: int, pushseq: int, psh: bool)
    requires Sorted(q) && KeysOk(q)
    ensures var a := Absorb(n, q, finseq, pushseq, psh);
            && (a.fin <==> a.rnext == finseq)
            && (!a.fin ==> Starts(a.rest, a.rnext) && !Covers(q, a.rnext))
    decreases |q|
  {
    if n != finseq && q != [] {
      var (p, h) := if n >= pushseq then (0, true) else (pushseq, psh);
      if q[0].elt.start > n {
        BeyondHole(n, q);
      } else {
        var m := Max(n, q[0].elt.End());
        AbsorbStop(m, q[1..], finseq, p, h);
        var a := Absorb(m, q[1..], finseq, p, h);
        if !a.fin { NotCoveredTail(q, a.rnext); }
      }
    }
  }

  lemma NotCoveredTail(q: FragQ, x: int)
    requires q != [] && q[0].elt.End() <= x && !Covers(q[1..], x)
    ensures !Covers(q, x)
  {
    forall k | 0 <= k < |q| ensures !(q[k].elt.start <= x < q[k].elt.End()) {
      if k > 0 { assert q[1..][k - 1] == q[k]; }
    }
  }

  lemma TailOk(q: FragQ)
    requires q != [] && Sorted(q) && KeysOk(q)
    ensures Sorted(q[1..]) && KeysOk(q[1..]) && Keyed(q[0].elt) == q[0]
  {
  }

  /** The stretch that was taken off one too many goes back among the others. */
  lemma BackIn(q: FragQ, it: Item<Frag>)
    requires Sorted(q)
    ensures Sorted(Insert(q, it)) && forall x :: x in Insert(q, it) ==> x in q || x == it
  {
    InsertSorted(q, it);
    InsertElements(q, it);
    forall x | x in Insert(q, it) ensures x in q || x == it { assert x in multiset(Insert(q, it)); }
  }

  /** What is left in the queue was in it, and stays in order. */
  lemma {:induction false} AbsorbRest(n: int, q: FragQ, finseq: int, pushseq: int, psh: bool)
    requires Sorted(q) && KeysOk(q)
    ensures var a := Absorb(n, q, finseq, pushseq, psh);
            && Sorted(a.rest) && (forall it :: it in a.rest ==> it in q)
    decreases |q|
  {
    if n != finseq && q != [] {
      var (p, h) := if n >= pushseq then (0, true) else (pushseq, psh);
      TailOk(q);
      if q[0].elt.start > n {
        BackIn(q[1..], q[0]);
      } else {
        AbsorbRest(Max(n, q[0].elt.End()), q[1..], finseq, p, h);
      }
    }
  }

  /** And everything queued beyond where it stops is still in it. */
  lemma {:induction false} AbsorbLeaves(n: int, q: FragQ, finseq: int, pushseq: int, psh: bool, x: int)
    requires KeysOk(q) && Covers(q, x)
    ensures var a := Absorb(n, q, finseq, pushseq, psh); !a.fin && a.rnext <= x ==> Covers(a.rest, x)
    decreases |q|
  {
    if n != finseq && q != [] {
      var (p, h) := if n >= pushseq then (0, true) else (pushseq, psh);
      if q[0].elt.start > n {
        if !(q[0].elt.start <= x < q[0].elt.End()) { CoversRest(q, x); }
        CoveredInsert(q[1..], q[0].elt, x);
      } else if Covers(q[1..], x) {
        AbsorbLeaves(Max(n, q[0].elt.End()), q[1..], finseq, p, h, x);
      } else {
        NotCoveredHead(q, x);
      }
    }
  }

  lemma CoversRest(q: FragQ, x: int)
    requires Covers(q, x) && q != [] && !(q[0].elt.start <= x < q[0].elt.End())
    ensures Covers(q[1..], x)
  {
    var k :| 0 <= k < |q| && q[k].elt.start <= x < q[k].elt.End();
    assert q[1..][k - 1] == q[k];
  }

  lemma NotCoveredHead(q: FragQ, x: int)
    requires Covers(q, x) && q != [] && !Covers(q[1..], x)
    ensures q[0].elt.start <= x < q[0].elt.End()
  {
    if !(q[0].elt.start <= x < q[0].elt.End()) { CoversRest(q, x); }
  }

  /** A stretch put in a queue is covered, and so is all that was. */
  lemma OwnInsert(q: FragQ, f: Frag, x: int)
    requires f.start <= x < f.End()
    ensures Covers(Insert(q, Keyed(f)), x)
  {
    var r, e := Insert(q, Keyed(f)), EnqPos(q, -f.start);
    InsertByIndex(q, Keyed(f), e);
    assert r[e].elt.start <= x < r[e].elt.End();
  }

  lemma OldInsert(q: FragQ, f: Frag, x: int)
    requires Covers(q, x)
    ensures Covers(Insert(q, Keyed(f)), x)
  {
    var r, e := Insert(q, Keyed(f)), EnqPos(q, -f.start);
    InsertByIndex(q, Keyed(f), e);
    var k :| 0 <= k < |q| && q[k].elt.start <= x < q[k].elt.End();
    assert r[if k < e then k else k + 1] == q[k];
  }

  lemma CoveredInsert(q: FragQ, f: Frag, x: int)
    requires Covers(q, x) || f.start <= x < f.End()
    ensures Covers(Insert(q, Keyed(f)), x)
  {
    if f.start <= x < f.End() { OwnInsert(q, f, x); } else { OldInsert(q, f, x); }
  }

  lemma CoveredBelow(q: FragQ, limit: int, x: int)
    requires FragsOk(q, limit) && Covers(q, x)
    ensures x < limit
  {
    var k :| 0 <= k < |q| && q[k].elt.start <= x < q[k].elt.End();
    assert FragOk(q[k], limit);
  }

  /** Nothing is lost or gained: what is passed over or left in the queue is what was. */
  lemma AbsorbKnows(n: int, q: FragQ, finseq: int, pushseq: int, psh: bool, limit: int, x: int)
    requires FragsOk(q, limit) && Sorted(q)
    requires var a := Absorb(n, q, finseq, pushseq, psh); a.fin ==> a.rnext == limit
    ensures var a := Absorb(n, q, finseq, pushseq, psh);
            x < a.rnext || Covers(a.rest, x) <==> x < n || Covers(q, x)
  {
    var a := Absorb(n, q, finseq, pushseq, psh);
    AbsorbReach(n, q, finseq, pushseq, psh);
    AbsorbRest(n, q, finseq, pushseq, psh);
    if Covers(q, x) {
      CoveredBelow(q, limit, x);
      AbsorbLeaves(n, q, finseq, pushseq, psh, x);
    }
    if Covers(a.rest, x) { CoversSub(a.rest, q, x); }
  }

  lemma CoversSub(q: FragQ, q': FragQ, x: int)
    requires (forall it :: it in q ==> it in q') && Covers(q, x)
    ensures Covers(q', x)
  {
    var k :| 0 <= k < |q| && q[k].elt.start <= x < q[k].elt.End();
    assert q[k] in q';
  }

  // ----- one segment -----

  /** Moving rnext and the count together does not move the octets' slots. */
  lemma SameSlots(r: Rcv, r': Rcv, st: Stream)
    requires r'.buf == r.buf && r'.start == r.start && Base(r') == Base(r)
    ensures forall x :: Holds(r', st, x) <==> Holds(r, st, x)
  {
  }

  lemma LaidKeeps(r: Rcv, st: Stream, a: Arrival)
    requires Inv(r, st) && !r.rdone
    requires r.rnext <= a.first && a.first + |a.data| <= Min(st.End(), r.rnext + r.Window())
    requires a.data == st.octets[a.first - st.isn..a.first - st.isn + |a.data|]
    ensures var l := Laid(r, a);
            Inv(l, st) && forall x :: a.first <= x < a.first + |a.data| ==> Holds(l, st, x)
  {
    var l := Laid(r, a);
    forall x | a.first <= x < a.first + |a.data| || Holds(r, st, x) ensures Holds(l, st, x) {
      LaidHolds(r, st, a, x);
    }
    assert l.Frags() == r.Frags();
  }

  /** Data that starts at rnext, already in the ring. */
  lemma CoalesceKeeps(r: Rcv, st: Stream, len: nat)
    requires Inv(r, st) && !r.rdone && 0 < len && r.rnext + len <= Min(st.End(), r.rnext + r.Window())
    requires forall x :: r.rnext <= x < r.rnext + len ==> Holds(r, st, x)
    ensures var (c, a) := Coalesce(r, len);
            && r.rnext + len <= a.rnext <= Min(st.End(), Base(r) + |r.buf|) && c.Frags() == a.rest
            && Base(c) == Base(r) && Stored(c, st)
            && FragsOk(a.rest, Min(st.End(), Base(r) + |r.buf|)) && Sorted(a.rest)
            && (!a.fin ==> Starts(a.rest, a.rnext) && a.rnext != r.finseq)
            && (a.fin ==> a.rnext == r.finseq == st.End())
  {
    var (c, a) := Coalesce(r, len);
    var q := r.Frags();
    var n := r.rnext + len;
    AbsorbReach(n, q, r.finseq, r.pushseq, false);
    AbsorbStop(n, q, r.finseq, r.pushseq, false);
    AbsorbRest(n, q, r.finseq, r.pushseq, false);
    AbsorbKeeps(n, q, r.finseq, r.pushseq, false, Min(st.End(), Base(r) + |r.buf|));
    SameSlots(r, c, st);
    forall x | Base(c) <= x < DataNext(c) || (DataNext(c) <= x && Covers(a.rest, x)) ensures Holds(c, st, x) {
      if x >= n {
        if x >= a.rnext { CoversSub(a.rest, q, x); }
        assert Covers(q, x);
      }
    }
  }

  lemma AccountInOrder(r: Rcv, st: Stream, len: nat, fin: bool, psh: bool, room: bool)
    requires Inv(r, st) && !r.rdone && r.rnext + len <= Min(st.End(), r.rnext + r.Window())
    requires forall x :: r.rnext <= x < r.rnext + len ==> Holds(r, st, x)
    requires fin ==> st.closed && r.rnext + len == st.End()
    ensures var c := Account(r, r.rnext, len, fin, psh, room);
            Inv(c, st) && Base(c) == Base(r) && r.rnext + len <= DataNext(c)
  {
    var c := Account(r, r.rnext, len, fin, psh, room);
    if len > 0 {
      CoalesceKeeps(r, st, len);
      var (d, a) := Coalesce(r, len);
      SameSlots(d, c, st);
      assert c.Frags() == a.rest;
    } else {
      SameSlots(r, c, st);
      assert c.Frags() == r.Frags();
    }
  }

  /** Remembering a stretch that is in the ring keeps the queue what it has to be. */
  lemma RememberKeeps(r: Rcv, st: Stream, f: Frag, room: bool)
    requires Inv(r, st) && !r.rdone && r.rnext < f.start && 0 <= f.len
    requires f.End() <= Min(st.End(), r.rnext + r.Window())
    requires forall x :: f.start <= x < f.End() ==> Holds(r, st, x)
    ensures var q := match Remember(r.queue, f, room) case None => [] case Some(q) => q;
            && FragsOk(q, Min(st.End(), Base(r) + |r.buf|)) && Sorted(q) && Starts(q, r.rnext)
            && forall x :: r.rnext <= x && Covers(q, x) ==> Holds(r, st, x)
  {
    var was, it := r.Frags(), Keyed(f);
    var q := match Remember(r.queue, f, room) case None => [] case Some(q) => q;
    if q != was {
      assert Insert([], it) == [it];
      assert q == Insert(was, it);
      InsertByIndex(was, it, EnqPos(was, it.key));
      InsertFragsOk(was, it, Min(st.End(), Base(r) + |r.buf|));
      InsertSorted(was, it);
      forall x | r.rnext <= x && Covers(q, x) ensures Holds(r, st, x) {
        InsertCovers(was, f, x);
      }
    }
  }

  lemma InsertCovers(q: FragQ, f: Frag, x: int)
    requires Covers(Insert(q, Keyed(f)), x)
    ensures Covers(q, x) || f.start <= x < f.End()
  {
    var r := Insert(q, Keyed(f));
    var k :| 0 <= k < |r| && r[k].elt.start <= x < r[k].elt.End();
    InsertByIndex(q, Keyed(f), EnqPos(q, -f.start));
    if r[k] != Keyed(f) {
      var j := if k < EnqPos(q, -f.start) then k else k - 1;
      assert q[j] == r[k];
    }
  }

  lemma AccountAhead(r: Rcv, st: Stream, first: int, len: nat, fin: bool, psh: bool, room: bool)
    requires Inv(r, st) && !r.rdone && r.rnext < first && first + len <= Min(st.End(), r.rnext + r.Window())
    requires forall x :: first <= x < first + len ==> Holds(r, st, x)
    requires fin ==> st.closed && first + len == st.End()
    ensures var c := Account(r, first, len, fin, psh, room);
            Inv(c, st) && Base(c) == Base(r) && c.rnext == r.rnext
  {
    var c := Account(r, first, len, fin, psh, room);
    RememberKeeps(r, st, Frag(first, len), room);
    SameSlots(r, c, st);
  }

  /** What becomes of a FIN: the end is received exactly when a FIN is known, from this segment or an
      earlier one, and all before it has come; until then it is recorded. Output is asked for exactly
      when rnext has moved. */
  ghost predicate FinKept(r: Rcv, c: Rcv, st: Stream, a: Arrival) {
    && (c.rdone <==> DataNext(c) == st.End() && (a.fin || r.finseq != 0))
    && (!c.rdone ==> c.finseq == if a.fin || r.finseq != 0 then st.End() else 0)
    && (c.needout <==> r.needout || c.rnext != r.rnext)
  }

  /** What an arrival keeps: the invariant, the place of the unread octets, and everything before
      rnext; data that starts there is passed over, and a FIN is acted on in its turn. */
  ghost predicate Kept(r: Rcv, c: Rcv, st: Stream, a: Arrival) {
    && FinKept(r, c, st, a)
    && Inv(c, st) && Base(c) == Base(r) && r.rnext <= DataNext(c)
    && (a.first == r.rnext ==> r.rnext + |a.data| <= DataNext(c))
  }

  lemma FinIsKept(r: Rcv, st: Stream, a: Arrival, psh: bool, room: bool)
    requires Inv(r, st) && !r.rdone && Fits(r, a, st)
    ensures FinKept(r, Settle(r, a, psh, room), st, a)
  {
    LaidKeeps(r, st, a);
    if a.first == r.rnext && |a.data| > 0 {
      CoalesceKeeps(Laid(r, a), st, |a.data|);
    }
  }

  /** The receiver has octet `x`: it was passed over, or is in a remembered stretch. */
  ghost predicate Known(r: Rcv, x: int) { x < DataNext(r) || Covers(r.Frags(), x) }

  /** Whether a stretch can be taken: at rnext always, beyond it as long as the queue has a place. */
  predicate Takes(r: Rcv, first: int, room: bool) {
    first == r.rnext || match r.queue case None => room case Some(q) => |q| < NTCPFRAG
  }

  /** An arrival that can be taken adds exactly its own octets to what the receiver has, any other
      nothing. */
  ghost predicate Learns(r: Rcv, c: Rcv, a: Arrival, room: bool) {
    forall x :: Known(c, x) <==> Known(r, x) || (Takes(r, a.first, room) && a.first <= x < a.first + |a.data|)
  }

  lemma LearnsInOrder(r: Rcv, st: Stream, len: nat, fin: bool, psh: bool, room: bool, x: int)
    requires Inv(r, st) && !r.rdone && r.rnext + len <= Min(st.End(), r.rnext + r.Window())
    requires forall y :: r.rnext <= y < r.rnext + len ==> Holds(r, st, y)
    requires fin ==> st.closed && r.rnext + len == st.End()
    ensures var c := Account(r, r.rnext, len, fin, psh, room);
            Known(c, x) <==> Known(r, x) || r.rnext <= x < r.rnext + len
  {
    if len > 0 {
      CoalesceKeeps(r, st, len);
      InOrderEnd(r, st, len);
      AbsorbKnows(r.rnext + len, r.Frags(), r.finseq, r.pushseq, false, Min(st.End(), Base(r) + |r.buf|), x);
    }
  }

  /** A FIN reached by coalescing is the end of all that was remembered. */
  lemma InOrderEnd(r: Rcv, st: Stream, len: nat)
    requires Inv(r, st) && !r.rdone && 0 < len && r.rnext + len <= Min(st.End(), r.rnext + r.Window())
    requires forall y :: r.rnext <= y < r.rnext + len ==> Holds(r, st, y)
    ensures var a := Absorb(r.rnext + len, r.Frags(), r.finseq, r.pushseq, false);
            a.fin ==> a.rnext == Min(st.End(), Base(r) + |r.buf|)
  {
    CoalesceKeeps(r, st, len);
  }

  lemma LearnsAhead(r: Rcv, first: int, len: nat, fin: bool, psh: bool, room: bool, x: int)
    requires !r.rdone && r.rnext < first
    ensures var c := Account(r, first, len, fin, psh, room);
            Known(c, x) <==> Known(r, x) || (Takes(r, first, room) && first <= x < first + len)
  {
    var c, q, f := Account(r, first, len, fin, psh, room), r.Frags(), Frag(first, len);
    assert Insert([], Keyed(f)) == [Keyed(f)];
    if len > 0 && Takes(r, first, room) {
      assert c.Frags() == Insert(q, Keyed(f));
      if Covers(c.Frags(), x) { InsertCovers(q, f, x); }
      if Covers(q, x) || first <= x < first + len { CoveredInsert(q, f, x); }
    }
  }

  lemma ArrivalLearns(r: Rcv, st: Stream, a: Arrival, psh: bool, room: bool)
    requires Inv(r, st) && !r.rdone && Fits(r, a, st)
    ensures Learns(r, Settle(r, a, psh, room), a, room)
  {
    LaidKeeps(r, st, a);
    var l, c := Laid(r, a), Settle(r, a, psh, room);
    forall x ensures Known(c, x) <==>
                       Known(r, x) || (Takes(r, a.first, room) && a.first <= x < a.first + |a.data|) {
      if a.first == r.rnext {
        LearnsInOrder(l, st, |a.data|, a.fin, psh, room, x);
      } else {
        LearnsAhead(l, a.first, |a.data|, a.fin, psh, room, x);
      }
    }
  }

  lemma ArrivalKeeps(r: Rcv, st: Stream, a: Arrival, psh: bool, room: bool)
    requires Inv(r, st) && !r.rdone && Fits(r, a, st)
    ensures Kept(r, Settle(r, a, psh, room), st, a)
  {
    FinIsKept(r, st, a, psh, room);
    LaidKeeps(r, st, a);
    if a.first == r.rnext {
      AccountInOrder(Laid(r, a), st, |a.data|, a.fin, psh, room);
    } else {
      AccountAhead(Laid(r, a), st, a.first, |a.data|, a.fin, psh, room);
    }
  }

  /** Every acceptable segment that agrees with the stream keeps the receiver's invariant;
      rnext never moves back, passes over all in-window data that starts at it, and no octet
      moves relative to the reader. */
  lemma ArriveKeeps(r: Rcv, st: Stream, s: Segment, room: bool)
    requires Inv(r, st) && !r.rdone && Acceptable(r, s) && Agrees(s, st)
    ensures Kept(r, Arrive(r, s, room), st, Trim(r, s)) && Learns(r, Arrive(r, s, room), Trim(r, s), room)
  {
    TrimAgrees(r, s, st);
    ArrivalLearns(r, st, Trim(r, s), s.psh, room);
    ArrivalKeeps(r, st, Trim(r, s), s.psh, room);
  }

  predicate InWindow(r: Rcv, x: int) { r.rnext <= x < r.rnext + r.Window() }

  lemma TrimEdges(r: Rcv, s: Segment)
    requires r.count <= |r.buf| && Acceptable(r, s)
    ensures var a := Trim(r, s);
            && s.seqno <= a.first == Max(s.seqno, r.rnext) && a.first + |a.data| == Min(s.End(), r.rnext + r.Window())
            && a.data == s.data[a.first - s.seqno..a.first - s.seqno + |a.data|]
            && (a.fin <==> s.fin && s.End() <= r.rnext + r.Window())
  {
    AcceptableOverlaps(r, s);
  }

  /** Octet `x` of a segment lies in the window. */
  predicate Offers(r: Rcv, s: Segment, x: int) { s.seqno <= x < s.End() && InWindow(r, x) }

  /** What trimming leaves: exactly the octets that lie in the window, and the FIN if the data before it
      does not go past the window. */
  lemma TrimExact(r: Rcv, s: Segment, x: int)
    requires r.count <= |r.buf| && Acceptable(r, s)
    ensures var a := Trim(r, s);
            && (a.first <= x < a.first + |a.data| <==> Offers(r, s, x))
            && (a.first <= x < a.first + |a.data| ==> a.data[x - a.first] == s.data[x - s.seqno])
            && (a.fin <==> s.fin && s.End() <= r.rnext + r.Window())
  {
    TrimEdges(r, s);
    if Offers(r, s, x) { SliceAt(s.data, Trim(r, s).first - s.seqno, |Trim(r, s).data|, x - Trim(r, s).first); }
  }

  lemma SliceAt(d: seq<byte>, from: nat, len: nat, i: nat)
    requires from + len <= |d| && i < len
    ensures d[from..from + len][i] == d[from + i]
  {
  }

  /** An acceptable segment adds exactly those of its octets that lie in the window, if they can be
      taken. */
  ghost predicate LearnsSegment(r: Rcv, c: Rcv, s: Segment, room: bool) {
    forall x :: Known(c, x) <==> Known(r, x) || (Takes(r, Max(s.seqno, r.rnext), room) && Offers(r, s, x))
  }

  lemma LearnsTrimmed(r: Rcv, c: Rcv, s: Segment, room: bool)
    requires r.count <= |r.buf| && Acceptable(r, s) && Learns(r, c, Trim(r, s), room)
    ensures LearnsSegment(r, c, s, room)
  {
    var a := Trim(r, s);
    TrimEdges(r, s);
    forall x ensures Known(c, x) <==> Known(r, x) || (Takes(r, Max(s.seqno, r.rnext), room) && Offers(r, s, x)) {
      assert Known(c, x) <==> Known(r, x) || (Takes(r, a.first, room) && a.first <= x < a.first + |a.data|);
    }
  }

  /** How far absorbing takes the recorded push: it is passed, and forgotten, exactly when the point
      reached is not before it. At a FIN only what came before counts. */
  lemma {:induction false} AbsorbPush(n: int, q: FragQ, finseq: int, pushseq: int, psh: bool)
    requires 0 <= n
    ensures var a := Absorb(n, q, finseq, pushseq, psh);
            && (psh || (n != finseq && pushseq <= n) ==> a.psh)
            && (a.psh ==> psh || pushseq <= a.rnext)
            && (!a.fin ==> (a.psh <==> psh || pushseq <= a.rnext)
                           && a.pushseq == if pushseq <= a.rnext then 0 else pushseq)
    decreases |q|
  {
    if n != finseq && q != [] && q[0].elt.start <= n {
      var (p, h) := if n >= pushseq then (0, true) else (pushseq, psh);
      AbsorbPush(Max(n, q[0].elt.End()), q[1..], finseq, p, h);
    }
  }

  /** What becomes of a push: out of order it is recorded, in order it counts at once, and a recorded one
      counts, and is forgotten, when rnext comes to it. */
  ghost predicate PushKept(r: Rcv, c: Rcv, a: Arrival, psh: bool) {
    if a.first != r.rnext then c.push == r.push && c.pushseq == if psh then a.first + |a.data| else r.pushseq
    else if a.data == [] then c.push == (r.push || psh) && c.pushseq == r.pushseq
    else
      && (r.push || psh ==> c.push) && (c.push ==> r.push || psh || r.pushseq <= DataNext(c))
      && (!c.rdone || r.finseq == 0 ==>
            (c.push <==> r.push || psh || r.pushseq <= DataNext(c))
            && c.pushseq == if r.pushseq <= DataNext(c) then 0 else r.pushseq)
  }

  lemma PushIsKept(r: Rcv, a: Arrival, psh: bool, room: bool)
    requires r.RingOk() && !r.rdone && 0 < r.rnext <= a.first && a.first + |a.data| <= r.rnext + r.Window()
    ensures PushKept(r, Settle(r, a, psh, room), a, psh)
  {
    if a.first == r.rnext && a.data != [] {
      var n, q := r.rnext + |a.data|, r.Frags();
      AbsorbPush(n, q, r.finseq, r.pushseq, false);
      if r.finseq == 0 { NoFin(n, q, r.pushseq, false); }
    }
  }

  lemma {:induction false} NoFin(n: int, q: FragQ, pushseq: int, psh: bool)
    requires 0 < n
    ensures !Absorb(n, q, 0, pushseq, psh).fin
    decreases |q|
  {
    if q != [] && q[0].elt.start <= n {
      var (p, h) := if n >= pushseq then (0, true) else (pushseq, psh);
      NoFin(Max(n, q[0].elt.End()), q[1..], p, h);
    }
  }

  /** A queue is held only as long as it has something in it. */
  predicate QueueHeld(r: Rcv) { r.queue.Some? ==> r.queue.value != [] }

  lemma QueueGivenBack(r: Rcv, a: Arrival, psh: bool, room: bool)
    requires r.RingOk() && QueueHeld(r) && r.rnext <= a.first && a.first + |a.data| <= r.rnext + r.Window()
    ensures QueueHeld(Settle(r, a, psh, room))
  {
  }

  /** Exactly what an acceptable segment makes of the receiver: it has, besides what it had, the octets
      of the segment that lie in the window, if they can be taken; rnext is the first octet it does not
      have, since no remembered stretch starts at or before it (that is in Inv); the end is received
      exactly when its FIN is known and nothing is missing; output is asked for exactly when rnext has
      moved; a push counts in its turn, and no empty queue is held on to. */
  lemma ArriveExact(r: Rcv, st: Stream, s: Segment, room: bool)
    requires Inv(r, st) && !r.rdone && Acceptable(r, s) && Agrees(s, st)
    ensures var c := Arrive(r, s, room);
            var known := r.finseq != 0 || (s.fin && s.End() <= r.rnext + r.Window());
            && Inv(c, st) && Base(c) == Base(r) && LearnsSegment(r, c, s, room)
            && (c.rdone <==> known && DataNext(c) == st.End())
            && (!c.rdone ==> c.finseq == if known then st.End() else 0)
            && (c.needout <==> r.needout || c.rnext != r.rnext)
            && PushKept(r, c, Trim(r, s), s.psh) && (QueueHeld(r) ==> QueueHeld(c))
  {
    ArriveKeeps(r, st, s, room);
    PushIsKept(r, Trim(r, s), s.psh, room);
    if QueueHeld(r) { QueueGivenBack(r, Trim(r, s), s.psh, room); }
    LearnsTrimmed(r, Arrive(r, s, room), s, room);
    TrimEdges(r, s);
  }

  /** Sequence numbers that a segment takes. */
  predicate Numbered(s: Segment, x: int) { s.seqno <= x < s.seqno + s.Len() }

  /** A segment that takes numbers is acceptable if and only if one of them lies in the window and it does
      not reach past both edges; one that takes none, if its own lies there, or is rnext at a closed
      window. */
  lemma AcceptableIff(r: Rcv, s: Segment)
    requires r.count <= |r.buf|
    ensures s.Len() > 0 ==>
              (Acceptable(r, s) <==> (exists x :: Numbered(s, x) && InWindow(r, x))
                                     && !(s.seqno < r.rnext && r.rnext + r.Window() < s.seqno + s.Len()))
    ensures s.Len() == 0 ==>
              (Acceptable(r, s) <==> InWindow(r, s.seqno) || (r.Window() == 0 && s.seqno == r.rnext))
  {
    var x := Max(s.seqno, r.rnext);
    assert Acceptable(r, s) && s.Len() > 0 ==> Numbered(s, x) && InWindow(r, x);
  }

  /** The invariant is all the code needs. */
  lemma InvIsValid(r: Rcv, st: Stream)
    requires Inv(r, st)
    ensures r.RingOk() && r.QueueOk()
  {
    FragsOkWiden(r.Frags(), Min(st.End(), Base(r) + |r.buf|), r.rnext + r.Window());
  }

  lemma FragsOkWiden(q: FragQ, limit: int, wider: int)
    requires FragsOk(q, limit) && limit <= wider
    ensures FragsOk(q, wider)
  {
    forall k | 0 <= k < |q| ensures FragOk(q[k], wider) { assert FragOk(q[k], limit); }
  }

  // ----- reading and advertising -----

  /** What the reader gets is the stream, from the first unread octet on. */
  lemma ContentsAreStream(r: Rcv, st: Stream)
    requires Inv(r, st)
    ensures Contents(r.buf, r.start, r.count) == st.octets[Base(r) - st.isn..DataNext(r) - st.isn]
  {
    forall i | 0 <= i < r.count
      ensures Contents(r.buf, r.start, r.count)[i] == st.octets[Base(r) - st.isn + i]
    {
      assert Holds(r, st, Base(r) + i);
    }
  }

  lemma ConsumeKeeps(r: Rcv, st: Stream, k: nat)
    requires Inv(r, st) && k <= r.count
    ensures var c := Consume(r, k); Inv(c, st) && Base(c) == Base(r) + k && DataNext(c) == DataNext(r)
  {
    var c := Consume(r, k);
    assert c.Frags() == r.Frags();
    forall x | Base(c) <= x < Base(r) + |r.buf| && Holds(r, st, x) ensures Holds(c, st, x) {
    }
    forall x | Base(c) <= x < DataNext(c) || (DataNext(c) <= x && Covers(c.Frags(), x)) ensures Holds(c, st, x) {
      assert Holds(r, st, x);
    }
    FragsOkWiden(r.Frags(), Min(st.End(), Base(r) + |r.buf|), Min(st.End(), Base(c) + |c.buf|));
  }

  lemma FlagsKeep(r: Rcv, r': Rcv, st: Stream)
    requires Inv(r, st) && r' == r.(cwin := r'.cwin, needout := r'.needout)
    ensures Inv(r', st) && Base(r') == Base(r) && DataNext(r') == DataNext(r)
  {
    SameSlots(r, r', st);
    assert r'.Frags() == r.Frags();
  }

  /** A read hands over the next octets of the stream, in order, and keeps the invariant. */
  lemma ReadKeeps(r: Rcv, st: Stream, len: nat)
    requires Inv(r, st)
    ensures var (c, data) := Read(r, len);
            && Inv(c, st) && Base(c) == Base(r) + |data| && DataNext(c) == DataNext(r)
            && |data| == Min(len, r.count)
            && data == st.octets[Base(r) - st.isn..Base(r) - st.isn + |data|]
  {
    ContentsAreStream(r, st);
    var k := Min(len, r.count);
    ConsumeKeeps(r, st, k);
    FlagsKeep(Consume(r, k), Read(r, len).0, st);
  }

  /** More octets written to an open stream leave what was received as it was. */
  lemma GrowKeeps(r: Rcv, st: Stream, st': Stream)
    requires Inv(r, st) && !st.closed && st.isn == st'.isn && st.octets <= st'.octets
    ensures Inv(r, st')
  {
    forall x | Holds(r, st, x) ensures Holds(r, st', x) {
    }
    FragsOkWiden(r.Frags(), Min(st.End(), Base(r) + |r.buf|), Min(st'.End(), Base(r) + |r.buf|));
  }

  /** The stream may close at any time: that adds no octet. */
  lemma CloseKeeps(r: Rcv, st: Stream)
    requires Inv(r, st)
    ensures Inv(r, st.(closed := true))
  {
    var st' := st.(closed := true);
    forall x | Holds(r, st, x) ensures Holds(r, st', x) {
    }
    FragsOkWiden(r.Frags(), Min(st.End(), Base(r) + |r.buf|), Min(st'.End(), Base(r) + |r.buf|));
  }

  // ----- the advertised window -----

  /** The right edge advertised lies within the room there is. */
  ghost predicate WindowOk(r: Rcv) { r.cwin <= r.rnext + r.Window() }

  /** An arrival never takes back room that was advertised. */
  lemma ArriveKeepsWindow(r: Rcv, st: Stream, s: Segment, room: bool)
    requires Inv(r, st) && !r.rdone && Acceptable(r, s) && Agrees(s, st) && WindowOk(r)
    ensures var c := Arrive(r, s, room); WindowOk(c) && c.cwin == r.cwin
  {
    var a := Trim(r, s);
    AccountFrame(Laid(r, a), a.first, |a.data|, a.fin, s.psh, room);
    ArriveKeeps(r, st, s, room);
  }

  /** The room is enough to open a window: a quarter of the buffer and one maximal segment. */
  predicate WorthOffering(r: Rcv, room: int) { room * 4 >= |r.buf| && room >= r.rmss }

  /** Advertising never moves the right edge back nor past the room there is: it offers all the room if
      that is worth offering, and what is left of the last offer otherwise. */
  lemma AdvertiseKeepsWindow(r: Rcv)
    requires r.RingOk() && WindowOk(r)
    ensures var c := Advertise(r);
            && WindowOk(c) && c.cwin >= r.cwin && c.cwin == r.rnext + Offer(r)
            && (WorthOffering(r, r.Window()) ==> c.cwin == r.rnext + r.Window())
            && (!WorthOffering(r, r.Window()) ==> c.cwin == Max(r.rnext, r.cwin))
  {
  }

  /** A read never moves the right edge back. It moves it only when the window was closed, to all the
      room there is after the read if that is worth offering, and asks for output exactly then; the push
      is over when all was read. */
  lemma ReadKeepsWindow(r: Rcv, len: nat)
    requires r.RingOk() && WindowOk(r)
    ensures var c := Read(r, len).0;
            var reopens := r.cwin <= r.rnext && WorthOffering(r, r.Window() + Min(len, r.count));
            && WindowOk(c) && c.cwin >= r.cwin && c.rnext == r.rnext
            && (r.rnext < r.cwin ==> c.cwin == r.cwin)
            && (r.cwin <= r.rnext ==> c.cwin == r.rnext + if reopens then c.Window() else 0)
            && (c.needout <==> r.needout || reopens)
            && (c.push <==> r.push && len < r.count)
  {
  }
}
