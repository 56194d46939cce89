/** Fragmentation undone: whatever order fragments arrive in, however often each, and whatever
    arrives for other datagrams in between, reassembly gives back the datagram that was cut. */
module IpRoundTrip {
  import opened Wrappers
  import opened Ring
  import opened Gpq
  import opened IpFragment
  import opened IpReassemble

  // ----- pieces by position -----

  /** Piece `i` holds exactly the octets its offset says, and the next one begins where it ends. */
  ghost predicate LaidOut(fs: seq<Packet>, p: Packet) {
    && fs != [] && fs[0].Start() == p.Start() && fs[|fs| - 1].End() == p.End()
    && (forall i :: 0 <= i < |fs| ==> PieceNo(fs, p, i))
    && (forall i :: 0 <= i < |fs| - 1 ==> Meets(fs, i))
    && (forall i, j :: 0 <= i < j < |fs| ==> Before(fs, i, j))
  }

  predicate PieceNo(fs: seq<Packet>, p: Packet, i: nat)
    requires i < |fs|
  {
    IsPiece(fs[i], p) && (fs[i].mf <==> i < |fs| - 1 || p.mf)
  }

  predicate Meets(fs: seq<Packet>, i: nat)
    requires i + 1 < |fs|
  {
    fs[i].End() == fs[i + 1].Start()
  }

  predicate Before(fs: seq<Packet>, i: nat, j: nat)
    requires i < |fs| && j < |fs|
  {
    fs[i].End() <= fs[j].Start()
  }

  predicate IsPiece(f: Packet, p: Packet) {
    && f.src == p.src && f.id == p.id && f.data != []
    && p.Start() <= f.Start() && f.End() <= p.End()
    && f.data == p.data[f.Start() - p.Start()..f.End() - p.Start()]
  }

  lemma TailPiece(f: Packet, p: Packet, k: nat)
    requires k <= |p.data| && k % 8 == 0 && IsPiece(f, Tail(p, k))
    ensures IsPiece(f, p)
  {
    var q := Tail(p, k);
    assert q.Start() == p.Start() + k && q.End() == p.End();
    assert f.data == p.data[k..][f.Start() - q.Start()..f.End() - q.Start()];
  }

  lemma {:induction false} PiecesLaidOut(fs: seq<Packet>, p: Packet)
    requires Pieces(fs, p)
    ensures LaidOut(fs, p)
    decreases |fs|
  {
    if |fs| > 1 {
      var k := |fs[0].data|;
      var q := Tail(p, k);
      PiecesLaidOut(fs[1..], q);
      forall i | 0 <= i < |fs| ensures PieceNo(fs, p, i) {
        if i > 0 {
          assert fs[i] == fs[1..][i - 1] && PieceNo(fs[1..], q, i - 1);
          TailPiece(fs[i], p, k);
        }
      }
      forall i, j | 0 <= i < j < |fs| ensures Before(fs, i, j) {
        assert fs[j] == fs[1..][j - 1] && PieceNo(fs[1..], q, j - 1);
        if i > 0 { assert fs[i] == fs[1..][i - 1] && Before(fs[1..], i - 1, j - 1); }
      }
      forall i | 0 <= i < |fs| - 1 ensures Meets(fs, i) {
        assert fs[i + 1] == fs[1..][i];
        if i > 0 { assert fs[i] == fs[1..][i - 1] && Meets(fs[1..], i - 1); }
      }
      assert fs[|fs| - 1] == fs[1..][|fs| - 2];
    }
  }

  // ----- a queue of pieces -----

  /** A queue of pieces of one datagram, in order. */
  ghost predicate PieceQ(q: PacketQ, fs: seq<Packet>) {
    Sorted(q) && forall k :: 0 <= k < |q| ==> PieceHere(q, fs, k)
  }

  predicate PieceHere(q: PacketQ, fs: seq<Packet>, k: nat)
    requires k < |q|
  {
    q[k] == Entered(q[k].elt) && q[k].elt in fs
  }

  ghost function Elts(q: PacketQ): set<Packet> { set k | 0 <= k < |q| :: q[k].elt }

  ghost function All(fs: seq<Packet>): set<Packet> { set f | f in fs }

  lemma PieceChain(q: PacketQ, fs: seq<Packet>, p: Packet)
    requires LaidOut(fs, p) && PieceQ(q, fs)
    ensures Chain(q)
  {
    forall i, j | 0 <= i < j < |q|
      ensures q[i].elt.off <= q[j].elt.off && q[i].elt.End() <= q[j].elt.End()
    {
      assert q[i].key >= q[j].key && PieceHere(q, fs, i) && PieceHere(q, fs, j);
      var a := PieceAt(fs, p, q[i].elt);
      var b := PieceAt(fs, p, q[j].elt);
      assert b < a ==> Before(fs, b, a);
      assert a < b ==> Before(fs, a, b);
    }
  }

  lemma PieceTail(q: PacketQ, fs: seq<Packet>)
    requires PieceQ(q, fs) && q != []
    ensures PieceQ(q[1..], fs) && q[0].elt in fs && q[|q| - 1].elt in fs
  {
    forall k | 0 <= k < |q[1..]| ensures PieceHere(q[1..], fs, k) { assert PieceHere(q, fs, k + 1); }
    assert PieceHere(q, fs, 0) && PieceHere(q, fs, |q| - 1);
  }

  lemma InsertInOrder(q: PacketQ, fs: seq<Packet>, f: Packet)
    requires PieceQ(q, fs) && f in fs
    ensures PieceQ(Insert(q, Entered(f)), fs)
  {
    var it := Entered(f);
    var e, r := EnqPos(q, it.key), Insert(q, it);
    InsertSorted(q, it);
    InsertByIndex(q, it, e);
    forall k | 0 <= k < |r| ensures PieceHere(r, fs, k) {
      if k != e { assert r[k] == q[if k < e then k else k - 1] && PieceHere(q, fs, if k < e then k else k - 1); }
    }
  }

  lemma InsertElts(q: PacketQ, it: Item<Packet>)
    ensures Elts(Insert(q, it)) == Elts(q) + {it.elt}
  {
    var e, r := EnqPos(q, it.key), Insert(q, it);
    InsertByIndex(q, it, e);
    forall x | x in Elts(r) ensures x in Elts(q) + {it.elt} {
      var k :| 0 <= k < |r| && r[k].elt == x;
      if k != e { assert r[k] == q[if k < e then k else k - 1]; }
    }
    forall x | x in Elts(q) ensures x in Elts(r) {
      var k :| 0 <= k < |q| && q[k].elt == x;
      assert r[if k < e then k else k + 1] == q[k];
    }
    assert r[e] == it;
  }

  lemma InsertPiece(q: PacketQ, fs: seq<Packet>, f: Packet)
    requires PieceQ(q, fs) && f in fs
    ensures var r := Insert(q, Entered(f)); PieceQ(r, fs) && Elts(r) == Elts(q) + {f}
  {
    InsertInOrder(q, fs, f);
    InsertElts(q, Entered(f));
  }

  /** Where piece `j` begins; the end of the datagram for the one after the last. */
  ghost function Bound(fs: seq<Packet>, p: Packet, j: nat): nat
    requires j <= |fs|
  {
    if j < |fs| then fs[j].Start() else p.End()
  }

  lemma PieceAt(fs: seq<Packet>, p: Packet, f: Packet) returns (i: nat)
    requires LaidOut(fs, p) && f in fs
    ensures i < |fs| && fs[i] == f && f.Start() == Bound(fs, p, i) && f.End() == Bound(fs, p, i + 1)
    ensures IsPiece(f, p) && (f.mf <==> i < |fs| - 1 || p.mf)
  {
    i :| 0 <= i < |fs| && fs[i] == f;
    assert PieceNo(fs, p, i) && (i + 1 < |fs| ==> Meets(fs, i));
  }

  /** Bounds rise. */
  lemma BoundsRise(fs: seq<Packet>, p: Packet, i: nat, j: nat)
    requires LaidOut(fs, p) && i <= |fs| && j <= |fs|
    ensures i < j ==> Bound(fs, p, i) < Bound(fs, p, j)
  {
    assert i < j ==> PieceNo(fs, p, i);
    assert i < j < |fs| ==> Before(fs, i, j);
  }

  /** In a queue that holds every piece from `j` on, the first is piece `j` or the one before. */
  lemma HeadPiece(q: PacketQ, fs: seq<Packet>, p: Packet, j: nat) returns (i: nat)
    requires LaidOut(fs, p) && PieceQ(q, fs) && j <= |fs| && q != []
    requires q[0].elt.End() >= Bound(fs, p, j)
    requires forall i :: j <= i < |fs| ==> fs[i] in Elts(q)
    ensures j <= i + 1 && i <= j && i < |fs|
    ensures q[0].elt == fs[i] && fs[i].Start() <= Bound(fs, p, j) && fs[i].End() == Bound(fs, p, i + 1)
    ensures forall m :: i + 1 <= m < |fs| ==> fs[m] in Elts(q[1..])
  {
    PieceChain(q, fs, p);
    PieceTail(q, fs);
    i := PieceAt(fs, p, q[0].elt);
    BoundsRise(fs, p, i + 1, j);
    if j < |fs| {
      assert fs[j] in Elts(q);
      var k :| 0 <= k < |q| && q[k].elt == fs[j];
      assert q[0].elt.off <= q[k].elt.off;
      BoundsRise(fs, p, j, i);
    }
    BoundsRise(fs, p, i, j);
    forall m | i + 1 <= m < |fs| ensures fs[m] in Elts(q[1..]) {
      BoundsRise(fs, p, i, m);
      assert fs[m] in Elts(q);
      var k :| 0 <= k < |q| && q[k].elt == fs[m];
      assert k > 0 && q[1..][k - 1] == q[k];
    }
  }

  lemma TailEnds(q: PacketQ, b: nat)
    requires q != [] && Chain(q) && q[0].elt.End() >= b
    ensures forall k :: 0 <= k < |q[1..]| ==> q[1..][k].elt.End() >= b
  {
    forall k | 0 <= k < |q[1..]| ensures q[1..][k].elt.End() >= b {
      assert q[1..][k] == q[k + 1] && q[0].elt.End() <= q[k + 1].elt.End();
    }
  }

  ghost predicate EndsFrom(q: PacketQ, b: nat) { forall k :: 0 <= k < |q| ==> q[k].elt.End() >= b }

  ghost predicate HasFrom(q: PacketQ, fs: seq<Packet>, j: nat) { forall i :: j <= i < |fs| ==> fs[i] in Elts(q) }

  /** The walk takes the first of them, and those behind it are as before. */
  lemma WalkOne(q: PacketQ, fs: seq<Packet>, p: Packet, j: nat) returns (i: nat)
    requires LaidOut(fs, p) && PieceQ(q, fs) && j <= |fs| && q != []
    requires EndsFrom(q, Bound(fs, p, j)) && HasFrom(q, fs, j)
    ensures i < |fs| && PieceQ(q[1..], fs)
    ensures EndsFrom(q[1..], Bound(fs, p, i + 1)) && HasFrom(q[1..], fs, i + 1)
    ensures Walk(q, Bound(fs, p, j)) == Walk(q[1..], Bound(fs, p, i + 1))
  {
    PieceTail(q, fs);
    i := HeadPiece(q, fs, p, j);
    PieceChain(q, fs, p);
    TailEnds(q, Bound(fs, p, i + 1));
  }

  /** With every piece from `j` on in the queue, the walk meets no hole. */
  lemma {:induction false} WalkThrough(q: PacketQ, fs: seq<Packet>, p: Packet, j: nat)
    requires LaidOut(fs, p) && PieceQ(q, fs) && j <= |fs|
    requires EndsFrom(q, Bound(fs, p, j)) && HasFrom(q, fs, j)
    ensures Walk(q, Bound(fs, p, j)) == Some(p.End())
    decreases |q|
  {
    assert j < |fs| ==> fs[j] in Elts(q);
    if q != [] {
      var i := WalkOne(q, fs, p, j);
      WalkThrough(q[1..], fs, p, i + 1);
    }
  }

  /** A walk without a hole that ends at the last piece has met every piece. */
  lemma {:induction false} WalkMeetsAll(q: PacketQ, fs: seq<Packet>, p: Packet, j: nat)
    requires LaidOut(fs, p) && PieceQ(q, fs) && j <= |fs|
    requires q != [] && q[|q| - 1].elt == fs[|fs| - 1]
    requires Walk(q, Bound(fs, p, j)).Some?
    ensures forall i :: j <= i < |fs| ==> fs[i] in Elts(q)
    decreases |q|
  {
    PieceTail(q, fs);
    var i := PieceAt(fs, p, q[0].elt);
    BoundsRise(fs, p, j, i);
    if |q| > 1 {
      WalkMeetsAll(q[1..], fs, p, i + 1);
      forall m | j <= m < |fs| ensures fs[m] in Elts(q) {
        if m == i {
          assert q[0].elt == fs[m];
        } else {
          var k :| 0 <= k < |q[1..]| && q[1..][k].elt == fs[m];
          assert q[k + 1] == q[1..][k];
        }
      }
    } else {
      BoundsRise(fs, p, i, |fs| - 1);
    }
  }

  lemma CompleteHasAll(q: PacketQ, fs: seq<Packet>, p: Packet)
    requires LaidOut(fs, p) && PieceQ(q, fs) && p.off == 0 && !p.mf && Complete(q)
    ensures All(fs) <= Elts(q)
  {
    PieceTail(q, fs);
    var i := PieceAt(fs, p, q[|q| - 1].elt);
    assert i == |fs| - 1 && Bound(fs, p, 0) == 0;
    WalkMeetsAll(q, fs, p, 0);
  }

  lemma AllIsComplete(q: PacketQ, fs: seq<Packet>, p: Packet)
    requires LaidOut(fs, p) && PieceQ(q, fs) && p.off == 0 && !p.mf && All(fs) <= Elts(q)
    ensures Complete(q) && Walk(q, 0) == Some(|p.data|)
  {
    forall i | 0 <= i < |fs| ensures fs[i] in Elts(q) { assert fs[i] in All(fs); }
    assert Bound(fs, p, 0) == 0;
    WalkThrough(q, fs, p, 0);
    PieceChain(q, fs, p);
    assert fs[|fs| - 1] in Elts(q);
    var k :| 0 <= k < |q| && q[k].elt == fs[|fs| - 1];
    assert q[k].elt.End() <= q[|q| - 1].elt.End();
    PieceTail(q, fs);
    var i := PieceAt(fs, p, q[|q| - 1].elt);
    BoundsRise(fs, p, i + 1, |fs|);
  }

  /** The hole test is right: a queue of pieces is complete exactly when it has them all. */
  lemma CompleteIff(q: PacketQ, fs: seq<Packet>, p: Packet)
    requires LaidOut(fs, p) && PieceQ(q, fs) && p.off == 0 && !p.mf
    ensures Complete(q) <==> All(fs) <= Elts(q)
    ensures Complete(q) ==> Walk(q, 0) == Some(|p.data|)
  {
    if Complete(q) { CompleteHasAll(q, fs, p); }
    if All(fs) <= Elts(q) { AllIsComplete(q, fs, p); }
  }

  ghost predicate PiecesFrom(q: PacketQ, p: Packet, at: nat) {
    forall k :: 0 <= k < |q| ==> PieceFrom(q, p, at, k)
  }

  predicate PieceFrom(q: PacketQ, p: Packet, at: nat, k: nat)
    requires k < |q|
  {
    IsPiece(q[k].elt, p) && at <= q[k].elt.End()
  }

  lemma PiecesTail(q: PacketQ, p: Packet, at: nat)
    requires q != [] && Chain(q) && PiecesFrom(q, p, at)
    ensures PieceFrom(q, p, at, 0) && Chain(q[1..]) && PiecesFrom(q[1..], p, q[0].elt.End())
  {
    ChainTail(q);
    TailEnds(q, q[0].elt.End());
    forall k | 0 <= k < |q[1..]| ensures PieceFrom(q[1..], p, q[0].elt.End(), k) { assert PieceFrom(q, p, at, k + 1); }
  }

  /** The copying is right: each octet once, wherever fragments overlap. */
  lemma {:induction false} AssembleIs(q: PacketQ, p: Packet, at: nat)
    requires p.off == 0 && at <= |p.data| && Chain(q) && Walk(q, at).Some? && PiecesFrom(q, p, at)
    ensures at <= Walk(q, at).value <= |p.data|
    ensures Assemble(q, at) == p.data[at..Walk(q, at).value]
    decreases |q|
  {
    if q != [] {
      var f := q[0].elt;
      PiecesTail(q, p, at);
      AssembleIs(q[1..], p, f.End());
      PieceRest(f, p, at);
      SliceJoins(p.data, at, f.End(), Walk(q, at).value);
    }
  }

  lemma PieceRest(f: Packet, p: Packet, at: nat)
    requires IsPiece(f, p) && p.off == 0 && f.Start() <= at <= f.End()
    ensures f.data[at - f.Start()..] == p.data[at..f.End()]
  {
  }

  lemma SliceJoins(d: seq<byte>, a: nat, b: nat, c: nat)
    requires a <= b <= c <= |d|
    ensures d[a..b] + d[b..c] == d[a..c]
  {
  }

  lemma RebuiltIs(q: PacketQ, fs: seq<Packet>, p: Packet)
    requires LaidOut(fs, p) && PieceQ(q, fs) && p.off == 0 && !p.mf && !p.df && Complete(q)
    ensures Rebuilt(q) == p
  {
    CompleteIff(q, fs, p);
    PieceChain(q, fs, p);
    forall k | 0 <= k < |q| ensures PieceFrom(q, p, 0, k) {
      assert PieceHere(q, fs, k);
      var i := PieceAt(fs, p, q[k].elt);
    }
    AssembleIs(q, p, 0);
    assert PieceFrom(q, p, 0, 0);
    assert p.data[0..|p.data|] == p.data;
  }

  /** A walk never gets past the end of the datagram. */
  lemma {:induction false} WalkBelow(q: PacketQ, fs: seq<Packet>, p: Packet, at: nat)
    requires LaidOut(fs, p) && PieceQ(q, fs) && at <= p.End()
    ensures Walk(q, at).Some? ==> Walk(q, at).value <= p.End()
    decreases |q|
  {
    if q != [] {
      PieceTail(q, fs);
      var i := PieceAt(fs, p, q[0].elt);
      WalkBelow(q[1..], fs, p, q[0].elt.End());
    }
  }

  /** ipfjoin on a queue of pieces: nothing until they are all there, and then the datagram, with its
      end outside the buffer if it is larger than that has room for, and nothing if it is larger
      than ipfjoin looks for. */
  lemma JoinPieces(e: Entry, fs: seq<Packet>, p: Packet, large: bool)
    requires LaidOut(fs, p) && p.off == 0 && !p.mf && !p.df && PieceQ(e.q, fs)
    ensures |p.data| <= MAXLRGBUF ==>
              Join(e, large) == if !(All(fs) <= Elts(e.q)) then (e, Nothing)
                                else (e.(state := QState.Free, q := []), if large then Built(p) else Nothing)
    ensures |p.data| > MAXLRGBUF ==> Join(e, large).1 == Nothing
  {
    CompleteIff(e.q, fs, p);
    WalkBelow(e.q, fs, p, 0);
    if Complete(e.q) {
      RebuiltIs(e.q, fs, p);
    }
  }

  // ----- runs -----

  /** A packet reaching ipreass, with what memory there is at that moment. */
  datatype Arrival = Arrival(pkt: Packet, room: bool, large: bool)

  predicate Own(a: Arrival, p: Packet) {
    a.pkt.src == p.src && a.pkt.id == p.id && (a.pkt.off != 0 || a.pkt.mf)
  }

  /** The table after a run, starting from `t`. */
  function RunTable(t: seq<Entry>, arr: seq<Arrival>): seq<Entry> {
    if arr == [] then t
    else
      var a := arr[|arr| - 1];
      Reass(RunTable(t, arr[..|arr| - 1]), a.pkt, a.room, a.large).0
  }

  /** What ipreass returns for arrival `k` of a run. */
  function Output(t: seq<Entry>, arr: seq<Arrival>, k: nat): Outcome
    requires k < |arr|
  {
    Reass(RunTable(t, arr[..k]), arr[k].pkt, arr[k].room, arr[k].large).1
  }

  /** The fragments of `p` among the arrivals, and how many arrivals those were. */
  function Have(arr: seq<Arrival>, p: Packet): set<Packet> {
    set k | 0 <= k < |arr| && Own(arr[k], p) :: arr[k].pkt
  }

  function Count(arr: seq<Arrival>, p: Packet): nat {
    if arr == [] then 0
    else Count(arr[..|arr| - 1], p) + if Own(arr[|arr| - 1], p) then 1 else 0
  }

  lemma HaveLast(arr: seq<Arrival>, p: Packet)
    requires arr != []
    ensures var a := arr[|arr| - 1];
            Have(arr, p) == Have(arr[..|arr| - 1], p) + if Own(a, p) then {a.pkt} else {}
  {
    var before, a := arr[..|arr| - 1], arr[|arr| - 1];
    assert arr == before + [a];
    forall f | f in Have(arr, p) ensures f in Have(before, p) || (Own(a, p) && f == a.pkt) {
      var k :| 0 <= k < |arr| && Own(arr[k], p) && arr[k].pkt == f;
      if k < |before| { assert before[k] == arr[k]; }
    }
    forall f | f in Have(before, p) ensures f in Have(arr, p) {
      var k :| 0 <= k < |before| && Own(before[k], p) && before[k].pkt == f;
      assert arr[k] == before[k];
    }
  }

  /** Entry `i` is the datagram's, holds `q`, and is the only one. */
  ghost predicate Holds(t: seq<Entry>, i: nat, p: Packet, q: PacketQ) {
    && i < |t| && t[i].state.Valid? && t[i].q == q && Matches(t[i], p)
    && forall k :: 0 <= k < |t| && k != i ==> !Matches(t[k], p)
  }

  lemma AddJoinKeepsKey(e: Entry, f: Packet, large: bool)
    ensures var e' := AddJoin(e, f, large).0; e'.src == e.src && e'.id == e.id
  {
  }

  /** Packets of other datagrams, and datagrams that are whole, leave the entry alone. */
  lemma OtherStep(t: seq<Entry>, i: nat, p: Packet, q: PacketQ, a: Arrival)
    requires Holds(t, i, p, q) && !Own(a, p)
    ensures Holds(Reass(t, a.pkt, a.room, a.large).0, i, p, q)
  {
    if a.pkt.off != 0 || a.pkt.mf {
      var k := Find(t, a.pkt);
      if k < |t| {
        AddJoinKeepsKey(t[k], a.pkt, a.large);
      }
    }
  }

  /** A fragment of the datagram goes to its entry. */
  lemma OwnStep(t: seq<Entry>, i: nat, p: Packet, q: PacketQ, a: Arrival)
    requires Holds(t, i, p, q) && Own(a, p)
    ensures Reass(t, a.pkt, a.room, a.large)
         == (t[i := AddJoin(t[i], a.pkt, a.large).0], AddJoin(t[i], a.pkt, a.large).1)
  {
    assert Find(t, a.pkt) == i;
  }

  /** The first fragment of a datagram opens an entry for it. */
  lemma {:induction false} FirstStep(t: seq<Entry>, fs: seq<Packet>, p: Packet, a: Arrival) returns (i: nat, q: PacketQ)
    requires Own(a, p) && a.room && a.pkt in fs && FirstFree(t) < |t|
    requires forall k :: 0 <= k < |t| ==> !Matches(t[k], p)
    ensures Reass(t, a.pkt, a.room, a.large).1 == Nothing
    ensures Holds(Reass(t, a.pkt, a.room, a.large).0, i, p, q)
    ensures PieceQ(q, fs) && Elts(q) == {a.pkt} && |q| == 1
  {
    assert Find(t, a.pkt) == |t|;
    i := FirstFree(t);
    q := Insert([], Entered(a.pkt));
    assert q == [Entered(a.pkt)];
    assert Elts(q) == {a.pkt} by { assert q[0].elt == a.pkt; }
  }

  /** What a run of arrivals for datagram `p` has to be: the table has no entry for it and one
      to spare, the first arrival is one of its fragments, all of its fragments are pieces
      from `fs`, and there are no more of them than a queue holds. */
  ghost predicate GoodArrivals(t: seq<Entry>, fs: seq<Packet>, p: Packet, arr: seq<Arrival>) {
    && |fs| > 1 && p.off == 0 && !p.mf && !p.df
    && FirstFree(t) < |t| && (forall k :: 0 <= k < |t| ==> !Matches(t[k], p))
    && arr != [] && Own(arr[0], p) && arr[0].room
    && (forall k :: 0 <= k < |arr| && Own(arr[k], p) ==> arr[k].pkt in fs)
    && Count(arr, p) <= IP_FQSIZE
  }

  ghost predicate GoodRun(t: seq<Entry>, fs: seq<Packet>, p: Packet, arr: seq<Arrival>) {
    LaidOut(fs, p) && GoodArrivals(t, fs, p, arr)
  }

  lemma GoodPrefix(t: seq<Entry>, fs: seq<Packet>, p: Packet, arr: seq<Arrival>)
    requires GoodRun(t, fs, p, arr) && |arr| > 1
    ensures GoodRun(t, fs, p, arr[..|arr| - 1])
  {
    assert arr[..|arr| - 1][0] == arr[0];
  }

  /** As long as a fragment is missing, the entry holds exactly the fragments that came, each
      as often as it came. */
  lemma {:induction false} RunHolds(t: seq<Entry>, fs: seq<Packet>, p: Packet, arr: seq<Arrival>)
    returns (i: nat, q: PacketQ)
    requires GoodRun(t, fs, p, arr) && |p.data| <= MAXLRGBUF && !(All(fs) <= Have(arr, p))
    ensures Holds(RunTable(t, arr), i, p, q)
    ensures PieceQ(q, fs) && Elts(q) == Have(arr, p) && |q| == Count(arr, p)
    decreases |arr|
  {
    var before, a := arr[..|arr| - 1], arr[|arr| - 1];
    HaveLast(arr, p);
    if |arr| == 1 {
      i, q := FirstStep(t, fs, p, a);
    } else {
      GoodPrefix(t, fs, p, arr);
      i, q := RunHolds(t, fs, p, before);
      var t' := RunTable(t, before);
      if Own(a, p) {
        OwnStep(t', i, p, q, a);
        q := HeldStep(t', i, fs, p, q, a);
      } else {
        OtherStep(t', i, p, q, a);
      }
    }
  }

  lemma HeldStep(t: seq<Entry>, i: nat, fs: seq<Packet>, p: Packet, q: PacketQ, a: Arrival) returns (q': PacketQ)
    requires LaidOut(fs, p) && p.off == 0 && !p.mf && !p.df && |p.data| <= MAXLRGBUF
    requires Holds(t, i, p, q) && PieceQ(q, fs) && |q| < IP_FQSIZE && a.pkt in fs
    requires !(All(fs) <= Elts(q) + {a.pkt})
    ensures AddJoin(t[i], a.pkt, a.large).1 == Nothing
    ensures Holds(t[i := AddJoin(t[i], a.pkt, a.large).0], i, p, q')
    ensures PieceQ(q', fs) && Elts(q') == Elts(q) + {a.pkt} && |q'| == |q| + 1
  {
    q' := Insert(q, Entered(a.pkt));
    InsertPiece(q, fs, a.pkt);
    JoinPieces(t[i].(q := q', ttl := IP_FTTL), fs, p, a.large);
  }

  /** The round trip. Whatever the order, with whatever duplicates, and whatever comes for
      other datagrams in between: a fragment gets nothing out of ipreass while another is
      missing, and the last missing one gets the whole datagram, as it was before it was cut. It
      is in one piece if and only if its data leaves room in a large buffer for the headers; the
      end of one with 2005 to 2048 octets is copied over what comes behind. */
  lemma {:induction false} RoundTrip(t: seq<Entry>, fs: seq<Packet>, p: Packet, arr: seq<Arrival>, k: nat)
    requires k < |arr| && GoodRun(t, fs, p, arr[..k + 1]) && |p.data| <= MAXLRGBUF
    requires Own(arr[k], p) && arr[k].large && !(All(fs) <= Have(arr[..k], p))
    ensures Output(t, arr, k) == if !(All(fs) <= Have(arr[..k + 1], p)) then Nothing
                                 else if |p.data| <= LRG_DATA then Whole(p) else Overrun(p)
  {
    var upto, a := arr[..k + 1], arr[k];
    assert upto[..k] == arr[..k] && upto[k] == a;
    HaveLast(upto, p);
    if k == 0 {
      var i, q := FirstStep(t, fs, p, a);
      assert RunTable(t, arr[..0]) == t;
      assert Have(arr[..0], p) == {};
      TwoPieces(fs, p, a.pkt);
    } else {
      GoodPrefix(t, fs, p, upto);
      var i, q := RunHolds(t, fs, p, arr[..k]);
      var t' := RunTable(t, arr[..k]);
      OwnStep(t', i, p, q, a);
      InsertPiece(q, fs, a.pkt);
      JoinPieces(t'[i].(q := Insert(q, Entered(a.pkt)), ttl := IP_FTTL), fs, p, a.large);
    }
  }

  lemma TwoPieces(fs: seq<Packet>, p: Packet, f: Packet)
    requires LaidOut(fs, p) && |fs| > 1
    ensures !(All(fs) <= {f})
  {
    assert fs[0] in All(fs) && fs[1] in All(fs);
    assert Before(fs, 0, 1) && PieceNo(fs, p, 0);
  }

  /** The same for what a path of routers makes of the datagram: they may cut it, and cut the
      pieces again, as their MTUs require. */
  lemma {:induction false} PathRoundTrip(t: seq<Entry>, mtus: seq<nat>, p: Packet, arr: seq<Arrival>, k: nat)
    requires forall i :: 0 <= i < |mtus| ==> mtus[i] >= HLEN + 8
    requires p.data != [] && |p.data| <= MAXLRGBUF
    requires var fs := Path([p], mtus);
             && k < |arr| && GoodArrivals(t, fs, p, arr[..k + 1])
             && Own(arr[k], p) && arr[k].large && !(All(fs) <= Have(arr[..k], p))
    ensures Output(t, arr, k) == if !(All(Path([p], mtus)) <= Have(arr[..k + 1], p)) then Nothing
                                 else if |p.data| <= LRG_DATA then Whole(p) else Overrun(p)
  {
    PathPieces([p], mtus, p);
    PiecesLaidOut(Path([p], mtus), p);
    RoundTrip(t, Path([p], mtus), p, arr, k);
  }

  /** On such runs the code's own demand is met: no piece lies strictly inside another, and the copying
      never has to step back. */
  lemma PiecesDoNotNest(q: PacketQ, fs: seq<Packet>, p: Packet, f: Packet, large: bool)
    requires LaidOut(fs, p) && PieceQ(q, fs) && f in fs
    ensures Chain(Insert(q, Entered(f))) && NoStepBack(Insert(q, Entered(f)), large)
  {
    InsertPiece(q, fs, f);
    PieceChain(Insert(q, Entered(f)), fs, p);
    ChainRises(Insert(q, Entered(f)), 0);
  }

  // ----- what does not fit -----

  ghost predicate Tidy(t: seq<Entry>, fs: seq<Packet>, p: Packet) {
    forall k :: 0 <= k < |t| && Matches(t[k], p) ==> PieceQ(t[k].q, fs)
  }

  lemma TidyEntry(e: Entry, fs: seq<Packet>, p: Packet, f: Packet, large: bool)
    requires LaidOut(fs, p) && p.off == 0 && !p.mf && !p.df && |p.data| > MAXLRGBUF
    requires PieceQ(e.q, fs) && f in fs
    ensures PieceQ(AddJoin(e, f, large).0.q, fs) && AddJoin(e, f, large).1 == Nothing
  {
    var e' := Add(e, f).0;
    if e.state.Valid? && |e.q| < IP_FQSIZE {
      InsertPiece(e.q, fs, f);
      JoinPieces(e', fs, p, large);
    }
  }

  lemma TidyStep(t: seq<Entry>, fs: seq<Packet>, p: Packet, a: Arrival)
    requires LaidOut(fs, p) && p.off == 0 && !p.mf && !p.df && |p.data| > MAXLRGBUF
    requires Tidy(t, fs, p) && (Own(a, p) ==> a.pkt in fs)
    ensures Tidy(Reass(t, a.pkt, a.room, a.large).0, fs, p)
    ensures Own(a, p) ==> Reass(t, a.pkt, a.room, a.large).1 == Nothing
  {
    if a.pkt.off != 0 || a.pkt.mf {
      var k := Find(t, a.pkt);
      if k < |t| {
        AddJoinKeepsKey(t[k], a.pkt, a.large);
        if Own(a, p) {
          TidyEntry(t[k], fs, p, a.pkt, a.large);
        }
      } else {
        assert Insert([], Entered(a.pkt)) == [Entered(a.pkt)];
      }
    }
  }

  /** A datagram with more than MAXLRGBUF octets of data never comes out, however its
      fragments arrive. */
  lemma {:induction false} TooLargeNever(t: seq<Entry>, fs: seq<Packet>, p: Packet, arr: seq<Arrival>)
    requires LaidOut(fs, p) && p.off == 0 && !p.mf && !p.df && |p.data| > MAXLRGBUF
    requires forall k :: 0 <= k < |t| ==> !Matches(t[k], p)
    requires forall k :: 0 <= k < |arr| && Own(arr[k], p) ==> arr[k].pkt in fs
    ensures Tidy(RunTable(t, arr), fs, p)
    ensures forall k :: 0 <= k < |arr| && Own(arr[k], p) ==> Output(t, arr, k) == Nothing
    decreases |arr|
  {
    if arr != [] {
      var n := |arr| - 1;
      TooLargeNever(t, fs, p, arr[..n]);
      TidyStep(RunTable(t, arr[..n]), fs, p, arr[n]);
      forall k | 0 <= k < n && Own(arr[k], p) ensures Output(t, arr, k) == Nothing {
        assert arr[..n][k] == arr[k] && arr[..n][..k] == arr[..k];
        assert Output(t, arr[..n], k) == Nothing;
      }
    }
  }

  // ----- what is too much for the queue -----

  /** The datagram's entry was given up, or is about to be. */
  ghost predicate Spent(t: seq<Entry>, i: nat, p: Packet) {
    && i < |t| && Matches(t[i], p) && (t[i].state.Bogus? || |t[i].q| >= IP_FQSIZE)
    && forall k :: 0 <= k < |t| && k != i ==> !Matches(t[k], p)
  }

  lemma SpentStep(t: seq<Entry>, i: nat, p: Packet, a: Arrival)
    requires Spent(t, i, p)
    ensures Spent(Reass(t, a.pkt, a.room, a.large).0, i, p)
    ensures Own(a, p) ==> Reass(t, a.pkt, a.room, a.large).1 == Nothing
  {
    if a.pkt.off != 0 || a.pkt.mf {
      var k := Find(t, a.pkt);
      assert Own(a, p) ==> k == i;
      if k < |t| {
        AddJoinKeepsKey(t[k], a.pkt, a.large);
      }
    }
  }

  lemma {:induction false} RunSpent(t: seq<Entry>, fs: seq<Packet>, p: Packet, arr: seq<Arrival>, n: nat)
    returns (i: nat)
    requires n <= |arr| && GoodRun(t, fs, p, arr[..n]) && |p.data| <= MAXLRGBUF
    requires Count(arr[..n], p) == IP_FQSIZE && !(All(fs) <= Have(arr[..n], p))
    ensures Spent(RunTable(t, arr), i, p)
    decreases |arr|
  {
    if n == |arr| {
      assert arr[..n] == arr;
      var q;
      i, q := RunHolds(t, fs, p, arr);
    } else {
      var before, a := arr[..|arr| - 1], arr[|arr| - 1];
      assert before[..n] == arr[..n];
      i := RunSpent(t, fs, p, before, n);
      SpentStep(RunTable(t, before), i, p, a);
    }
  }

  /** A datagram of which ten fragments came, counting duplicates, with one still missing, does not
      come out any more: the next of its fragments finds the queue full, and what comes after that
      finds the entry given up. The limit on RoundTrip's runs is exact. */
  lemma {:induction false} TooManyNever(t: seq<Entry>, fs: seq<Packet>, p: Packet, arr: seq<Arrival>, n: nat, k: nat)
    requires n <= k < |arr| && GoodRun(t, fs, p, arr[..n]) && Own(arr[k], p)
    requires forall j :: 0 <= j < |arr| && Own(arr[j], p) ==> arr[j].pkt in fs
    requires Count(arr[..n], p) == IP_FQSIZE && !(All(fs) <= Have(arr[..n], p))
    ensures Output(t, arr, k) == Nothing
  {
    if |p.data| <= MAXLRGBUF {
      assert arr[..k][..n] == arr[..n];
      var i := RunSpent(t, fs, p, arr[..k], n);
      SpentStep(RunTable(t, arr[..k]), i, p, arr[k]);
    } else {
      TooLargeNever(t, fs, p, arr);
    }
  }

  lemma OneHop(p: Packet, mtu: nat)
    requires mtu == 1500 && |p.data| == LRG_DATA + 1
    ensures Path([p], [mtu]) == [p.(mf := true, data := p.data[..1480]), Tail(p, 1480)]
  {
    assert MaxData(mtu) == 1480;
    var fs := Split(p, 1480);
    var tail := Tail(p, 1480);
    assert |tail.data| == 525;
    assert Split(tail, 1480) == [tail];
    assert fs == [p.(mf := true, data := p.data[..1480])] + Split(tail, 1480);
    assert fs == [p.(mf := true, data := p.data[..1480]), tail];
    assert ForwardAll([p], mtu) == fs + ForwardAll([], mtu) == fs;
    assert Path([p], [mtu]) == Path(fs, []);
  }

  lemma BothCame(p: Packet, a: Arrival, b: Arrival)
    requires Own(a, p) && Own(b, p)
    ensures Count([a, b], p) == 2 && Have([a], p) == {a.pkt} && Have([a, b], p) == {a.pkt, b.pkt}
  {
    assert [a, b][..1] == [a] && [a][..0] == [];
    HaveLast([a], p);
    HaveLast([a, b], p);
    assert Have([], p) == {};
    assert Count([a], p) == 1;
  }

  /** Two fragments on an Ethernet are enough for an overrun: 2005 octets of data, one more than
      there is room for, cut for an MTU of 1500. */
  lemma {:induction false} EthernetOverrun(t: seq<Entry>, p: Packet, mtu: nat)
    requires mtu == 1500 && |p.data| == LRG_DATA + 1 && p.off == 0 && !p.mf && !p.df
    requires FirstFree(t) < |t| && forall k :: 0 <= k < |t| ==> !Matches(t[k], p)
    ensures var fs := Path([p], [mtu]);
            && |fs| == 2
            && Output(t, [Arrival(fs[0], true, true), Arrival(fs[1], true, true)], 1) == Overrun(p)
  {
    var fs := Path([p], [mtu]);
    OneHop(p, mtu);
    var arr := [Arrival(fs[0], true, true), Arrival(fs[1], true, true)];
    assert Pieces([p], p);
    PathPieces([p], [mtu], p);
    PiecesLaidOut(fs, p);
    BothCame(p, arr[0], arr[1]);
    assert arr[..2] == arr && arr[..1] == [arr[0]];
    assert All(fs) == {fs[0], fs[1]} && fs[0] != fs[1];
    RoundTrip(t, fs, p, arr, 1);
  }
}
