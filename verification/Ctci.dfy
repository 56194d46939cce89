/** Buffers for a CTCI device: an offset to the end, segments of one IP frame each behind a header
    of their own, and a zero halfword at the end. */
module Ctci {
  import opened Wrappers
  import opened Ring

  type Octets = seq<byte>

  const CTC_BUFLEN: nat := 20 * 1024
  const BLOCKHDR: nat := 2
  const SEGHDR: nat := 6
  const CTCI_SH_FRAMTYP := 0x0800
  const CTCI_SH_RESV := 0

  /** A halfword, big end first. */
  function Half(v: nat): Octets
    requires v < 0x1_0000
  {
    [(v / 256) as byte, (v % 256) as byte]
  }

  function HalfAt(b: Octets, at: nat): (v: nat)
    requires at + 2 <= |b|
    ensures v < 0x1_0000
  {
    256 * b[at] as nat + b[at + 1] as nat
  }

  // ----- what a buffer holds -----

  /** How long the block is, up to its end marker. */
  function Size(frames: seq<Octets>): (n: nat)
    ensures n >= BLOCKHDR
  {
    if frames == [] then BLOCKHDR else Size(frames[..|frames| - 1]) + SEGHDR + |frames[|frames| - 1]|
  }

  predicate Fits(frames: seq<Octets>) { Size(frames) + BLOCKHDR <= CTC_BUFLEN }

  function Segment(f: Octets): Octets
    requires |f| + SEGHDR < 0x1_0000
  {
    Half(|f| + SEGHDR) + Half(CTCI_SH_FRAMTYP) + Half(CTCI_SH_RESV) + f
  }

  /** The buffer holds these frames: each segment where the ones before it end, the offset of the
      end in front, and zeros from the end on. */
  ghost predicate Encodes(b: Octets, frames: seq<Octets>) {
    && |b| == CTC_BUFLEN && Fits(frames) && HalfAt(b, 0) == Size(frames)
    && (forall k :: 0 <= k < |frames| ==> SegmentAt(b, frames, k))
    && (forall i :: Size(frames) <= i < CTC_BUFLEN ==> b[i] == 0)
  }

  predicate SegmentAt(b: Octets, frames: seq<Octets>, k: nat)
    requires k < |frames|
  {
    HasSegment(b, Size(frames[..k]), frames[k])
  }

  predicate HasSegment(b: Octets, at: nat, f: Octets) {
    at + SEGHDR + |f| <= |b| && |f| + SEGHDR < 0x1_0000 && b[at..at + SEGHDR + |f|] == Segment(f)
  }

  lemma {:induction false} SizeGrows(frames: seq<Octets>, k: nat)
    requires k < |frames|
    ensures Size(frames[..k]) + SEGHDR + |frames[k]| == Size(frames[..k + 1]) <= Size(frames)
    decreases |frames| - k
  {
    assert frames[..k + 1][..k] == frames[..k];
    if k + 1 < |frames| {
      SizeGrows(frames, k + 1);
    } else {
      assert frames[..k + 1] == frames;
    }
  }

  // ----- writing -----

  class Buffer {
    const data: array<byte>
    ghost var frames: seq<Octets>

    ghost predicate Valid()
      reads this, data
    {
      data.Length == CTC_BUFLEN && Encodes(data[..], frames)
    }

    /** ctwfresh: a cleared buffer, whose end is right behind the offset. */
    constructor ()
      ensures Valid() && frames == [] && fresh(data)
    {
      data := new byte[CTC_BUFLEN](_ => 0);
      frames := [];
      new;
      data[1] := BLOCKHDR as byte;
    }

    method Put(at: nat, v: nat)
      requires at + 2 <= data.Length && v < 0x1_0000
      modifies data
      ensures data[..] == old(data[..])[at := (v / 256) as byte][at + 1 := (v % 256) as byte]
    {
      data[at], data[at + 1] := (v / 256) as byte, (v % 256) as byte;
    }

    /** How many octets of a frame there is room for. */
    method Room() returns (free: int)
      requires Valid()
      ensures free == CTC_BUFLEN - Size(frames) - SEGHDR - BLOCKHDR
    {
      free := CTC_BUFLEN;
      free := free - (256 * data[0] as int + data[1] as int);
      free := free - SEGHDR;
      free := free - BLOCKHDR;
    }

    /** The end of ctci_write: the new segment goes over the old end. */
    method Append(pip: Octets)
      requires Valid() && Size(frames) + SEGHDR + |pip| + BLOCKHDR <= CTC_BUFLEN
      modifies this`frames, data
      ensures Valid() && frames == old(frames) + [pip]
    {
      ghost var was := data[..];
      var pseg: nat := 256 * data[0] as nat + data[1] as nat;
      assert pseg == Size(frames);
      WriteSegment(pseg, pip);
      Put(0, pseg + SEGHDR + |pip|);
      frames := frames + [pip];
      Appended(was, data[..], old(frames), pip);
    }

    /** A segment header and the frame behind it. */
    method WriteSegment(pseg: nat, pip: Octets)
      requires pseg + SEGHDR + |pip| <= data.Length && |pip| + SEGHDR < 0x1_0000
      modifies data
      ensures data[..] == old(data[..pseg]) + Segment(pip) + old(data[pseg + SEGHDR + |pip|..])
    {
      Put(pseg, |pip| + SEGHDR);
      Put(pseg + 2, CTCI_SH_FRAMTYP);
      Put(pseg + 4, CTCI_SH_RESV);
      assert data[..pseg + SEGHDR] ==
             old(data[..pseg]) + (Half(|pip| + SEGHDR) + Half(CTCI_SH_FRAMTYP) + Half(CTCI_SH_RESV));
      CopyIn(pseg + SEGHDR, pip);
    }

    /** memcpy. */
    method CopyIn(at: nat, pip: Octets)
      requires at + |pip| <= data.Length
      modifies data
      ensures data[..] == old(data[..at]) + pip + old(data[at + |pip|..])
    {
      for i := 0 to |pip|
        invariant data[..at] == old(data[..at]) && data[at..at + i] == pip[..i]
        invariant data[at + i..] == old(data[at + i..])
      {
        data[at + i] := pip[i];
      }
    }
  }

  /** `now` is `was` with a segment over its end marker. */
  predicate Extends(was: Octets, now: Octets, at: nat, f: Octets) {
    var end := at + SEGHDR + |f|;
    && 2 <= at && end + BLOCKHDR <= CTC_BUFLEN && |was| == |now| == CTC_BUFLEN
    && now[..2] == Half(end) && now[2..at] == was[2..at] && now[at..end] == Segment(f) && now[end..] == was[end..]
  }

  lemma KeptSegment(was: Octets, now: Octets, frames: seq<Octets>, f: Octets, k: nat)
    requires Encodes(was, frames) && Extends(was, now, Size(frames), f) && k < |frames|
    ensures SegmentAt(now, frames + [f], k)
  {
    var all := frames + [f];
    assert all[..k] == frames[..k] && all[k] == frames[k] && SegmentAt(was, frames, k);
    SizeGrows(frames, k);
    SliceSame(was, now, Size(frames), Size(frames[..k]), frames[k]);
  }

  lemma SliceSame(was: Octets, now: Octets, n: nat, at: nat, f: Octets)
    requires 2 <= at && at + SEGHDR + |f| <= n <= |was| == |now| && now[2..n] == was[2..n] && HasSegment(was, at, f)
    ensures HasSegment(now, at, f)
  {
    var b := at + SEGHDR + |f|;
    forall i | at <= i < b ensures now[i] == was[i] { assert now[2..n][i - 2] == was[2..n][i - 2]; }
    assert now[at..b] == was[at..b];
  }

  lemma Appended(was: Octets, now: Octets, frames: seq<Octets>, f: Octets)
    requires Encodes(was, frames) && Extends(was, now, Size(frames), f)
    ensures Encodes(now, frames + [f])
  {
    var all := frames + [f];
    var n := |frames|;
    assert all[..n] == frames;
    forall k | 0 <= k < |all| ensures SegmentAt(now, all, k) {
      if k < n { KeptSegment(was, now, frames, f, k); }
    }
    forall i | Size(all) <= i < CTC_BUFLEN ensures now[i] == 0 {
      assert now[i] == now[Size(all)..][i - Size(all)] && was[i] == was[Size(all)..][i - Size(all)];
    }
    assert now[0] == now[..2][0] && now[1] == now[..2][1];
  }

  // ----- reading back -----

  /** What the length halfword is at the end of `k` segments. */
  lemma LengthAt(b: Octets, frames: seq<Octets>, k: nat)
    requires Encodes(b, frames) && k <= |frames|
    ensures var at := Size(frames[..k]);
            && at + BLOCKHDR <= CTC_BUFLEN
            && (k == |frames| ==> HalfAt(b, at) == 0)
            && (k < |frames| ==> HalfAt(b, at) == SEGHDR + |frames[k]| && at + HalfAt(b, at) <= CTC_BUFLEN
                                 && b[at + SEGHDR..at + HalfAt(b, at)] == frames[k])
  {
    var at := Size(frames[..k]);
    if k < |frames| {
      assert SegmentAt(b, frames, k);
      SizeGrows(frames, k);
      var s := b[at..at + SEGHDR + |frames[k]|];
      assert s[0] == b[at] && s[1] == b[at + 1] && s[SEGHDR..] == b[at + SEGHDR..at + SEGHDR + |frames[k]|];
    } else {
      assert frames[..k] == frames;
    }
  }

  /** The walk of ctci_iowrite over the segments of a buffer: it finds exactly the frames that were
      written, in order, and stops at the end marker. */
  method Walk(b: Octets, ghost frames: seq<Octets>) returns (found: seq<Octets>)
    requires Encodes(b, frames)
    ensures found == frames
  {
    var pseg: nat := BLOCKHDR;
    found := [];
    assert frames[..0] == [];
    LengthAt(b, frames, 0);
    while HalfAt(b, pseg) != 0
      invariant found <= frames && pseg == Size(found) && pseg + BLOCKHDR <= |b|
      decreases |frames| - |found|
    {
      assert found == frames[..|found|];
      LengthAt(b, frames, |found|);
      var seglen := HalfAt(b, pseg);
      var frame := b[pseg + SEGHDR..pseg + seglen];
      SizeGrows(frames, |found|);
      assert frames[..|found| + 1] == found + [frame];
      found := found + [frame];
      pseg := pseg + seglen;
      LengthAt(b, frames, |found|);
      assert found == frames[..|found|];
    }
    assert found == frames[..|found|];
    LengthAt(b, frames, |found|);
  }

  /** The length ctci_iowrite writes: all the segments and the end marker. */
  method WriteLength(b: Octets, ghost frames: seq<Octets>) returns (writelen: nat)
    requires Encodes(b, frames)
    ensures writelen == Size(frames) + BLOCKHDR <= CTC_BUFLEN && HalfAt(b, writelen - BLOCKHDR) == 0
  {
    writelen := HalfAt(b, 0) + BLOCKHDR;
    assert frames[..|frames|] == frames;
    LengthAt(b, frames, |frames|);
  }

  /** A buffer holds one list of frames only. */
  lemma {:induction false} OneReading(b: Octets, x: seq<Octets>, y: seq<Octets>, k: nat)
    requires Encodes(b, x) && Encodes(b, y) && k <= |x|
    ensures k <= |y| && x[..k] == y[..k]
    decreases k
  {
    if k > 0 {
      OneReading(b, x, y, k - 1);
      LengthAt(b, x, k - 1);
      LengthAt(b, y, k - 1);
      assert x[..k] == x[..k - 1] + [x[k - 1]];
    }
  }

  // ----- the queue of buffers -----

  /** What was written: the frames of the buffers handed over, and those of the one being filled. */
  datatype Queue = Queue(filled: seq<seq<Octets>>, fill: seq<Octets>)

  function Flat(bufs: seq<seq<Octets>>): seq<Octets> {
    if bufs == [] then [] else Flat(bufs[..|bufs| - 1]) + bufs[|bufs| - 1]
  }

  function Written(q: Queue): seq<Octets> { Flat(q.filled) + q.fill }

  predicate TooLong(f: Octets) { CTC_BUFLEN - 2 * BLOCKHDR - SEGHDR < |f| }

  /** ctci_write. A frame too long for any buffer is refused, after the buffer in use has been
      handed over. */
  function Write(q: Queue, f: Octets): Queue {
    if Size(q.fill) + SEGHDR + |f| + BLOCKHDR <= CTC_BUFLEN then q.(fill := q.fill + [f])
    else Queue(q.filled + [q.fill], if TooLong(f) then [] else [f])
  }

  /** No buffer overflows. */
  ghost predicate AllFit(q: Queue) { Fits(q.fill) && forall b :: b in q.filled ==> Fits(b) }

  lemma WriteAdds(q: Queue, f: Octets)
    requires AllFit(q)
    ensures AllFit(Write(q, f))
    ensures Written(Write(q, f)) == Written(q) + if TooLong(f) then [] else [f]
  {
    if Size(q.fill) + SEGHDR + |f| + BLOCKHDR <= CTC_BUFLEN {
      SizeAdds(q.fill, f);
      Regroup(Flat(q.filled), q.fill, [f]);
    } else {
      FlatAdds(q.filled, q.fill);
      SizeAdds([], f);
      assert [] + [f] == [f];
    }
  }

  lemma SizeAdds(frames: seq<Octets>, f: Octets)
    ensures Size(frames + [f]) == Size(frames) + SEGHDR + |f|
  {
    assert (frames + [f])[..|frames|] == frames;
  }

  lemma FlatAdds(bufs: seq<seq<Octets>>, b: seq<Octets>)
    ensures Flat(bufs + [b]) == Flat(bufs) + b
  {
    assert (bufs + [b])[..|bufs|] == bufs;
  }

  function WriteAll(q: Queue, fs: seq<Octets>): Queue
    decreases |fs|
  {
    if fs == [] then q else WriteAll(Write(q, fs[0]), fs[1..])
  }

  /** The frames that are not too long. */
  function Taken(fs: seq<Octets>): seq<Octets> {
    if fs == [] then [] else (if TooLong(fs[0]) then [] else [fs[0]]) + Taken(fs[1..])
  }

  /** Over any run of ctci_write the buffers hold, in order, every frame but those too long for an
      empty buffer, and no buffer overflows. */
  lemma {:induction false} RunWrites(q: Queue, fs: seq<Octets>)
    requires AllFit(q)
    ensures AllFit(WriteAll(q, fs)) && Written(WriteAll(q, fs)) == Written(q) + Taken(fs)
    decreases |fs|
  {
    if fs != [] {
      WriteAdds(q, fs[0]);
      RunWrites(Write(q, fs[0]), fs[1..]);
      Regroup(Written(q), if TooLong(fs[0]) then [] else [fs[0]], Taken(fs[1..]));
    }
  }

  /** How long a block is: the offset, and six octets in front of each frame. */
  lemma {:induction false} SizeIs(frames: seq<Octets>)
    ensures Size(frames) == 2 + 6 * |frames| + Octetsum(frames)
    decreases |frames|
  {
    if frames != [] { SizeIs(frames[..|frames| - 1]); }
  }

  function Octetsum(frames: seq<Octets>): nat {
    if frames == [] then 0 else Octetsum(frames[..|frames| - 1]) + |frames[|frames| - 1]|
  }

  /** When a buffer is handed over: exactly when the next frame, with its header and the end marker, goes
      past 20480 octets behind what is there, and then just what is there. The frame starts the next
      buffer, unless it is longer than 20470 octets. */
  lemma WriteExact(q: Queue, f: Octets)
    ensures var w := Write(q, f); var length := 2 + 6 * |q.fill| + Octetsum(q.fill);
            && (length + 6 + |f| + 2 <= 20480 ==> w == Queue(q.filled, q.fill + [f]))
            && (length + 6 + |f| + 2 > 20480 ==>
                  w == Queue(q.filled + [q.fill], if |f| > 20470 then [] else [f]))
  {
    SizeIs(q.fill);
  }

  /** A segment's header: its length with the header, the type of an IP frame, and zeros. */
  lemma SegmentIs(f: Octets)
    requires |f| + SEGHDR < 0x1_0000
    ensures var s := Segment(f);
            && |s| == |f| + 6 && s[6..] == f
            && 256 * s[0] as nat + s[1] as nat == |s| && s[2] == 8 && s[3] == 0 && s[4] == 0 && s[5] == 0
  {
  }

  class Writer {
    var fillbuf: Buffer
    var filled: seq<Octets>
    ghost var queue: Queue

    ghost predicate Valid()
      reads this, fillbuf, fillbuf.data
    {
      && fillbuf.Valid() && fillbuf.frames == queue.fill && |filled| == |queue.filled|
      && forall i :: 0 <= i < |filled| ==> Encodes(filled[i], queue.filled[i])
    }

    constructor ()
      ensures Valid() && queue == Queue([], []) && fresh(fillbuf) && fresh(fillbuf.data)
    {
      fillbuf := new Buffer();
      filled := [];
      queue := Queue([], []);
    }

    /** ctci_write. */
    method CtciWrite(pip: Octets) returns (ok: bool)
      requires Valid()
      modifies this, fillbuf, fillbuf.data
      ensures Valid() && queue == Write(old(queue), pip) && ok == !TooLong(pip)
    {
      var free := fillbuf.Room();
      if free < |pip| {
        filled := filled + [fillbuf.data[..]];
        queue := Queue(queue.filled + [queue.fill], []);
        fillbuf := new Buffer();
        free := CTC_BUFLEN - 2 * BLOCKHDR - SEGHDR;
        if free < |pip| {
          return false;
        }
      }
      fillbuf.Append(pip);
      queue := queue.(fill := fillbuf.frames);
      ok := true;
    }
  }
}
