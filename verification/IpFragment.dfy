/** Splitting IP datagrams (section 3.2 of RFC 791), as ipputp and ipfsend do it, for headers
    without options. */
module IpFragment {
  import opened Wrappers
  import opened Ring

  const HLEN := 20

  /** A datagram or fragment in host order; `off` counts eights of octets. */
  datatype Packet = Packet(src: int, id: int, df: bool, mf: bool, off: nat, data: seq<byte>) {
    function IpLen(): nat { HLEN + |data| }

    /** The octets of the original datagram that this is: [Start(), End()). */
    function Start(): nat { 8 * off }

    function End(): nat { 8 * off + |data| }
  }

  /** The most data a fragment may carry: what fits, in whole eights. */
  function MaxData(mtu: nat): (m: nat)
    requires mtu >= HLEN + 8
    ensures 8 <= m <= mtu - HLEN && m % 8 == 0 && mtu - HLEN - m < 8
  {
    (mtu - HLEN) - (mtu - HLEN) % 8
  }

  /** The fragments of a datagram, first to last; the last keeps the datagram's own MF. */
  function Split(p: Packet, m: nat): (fs: seq<Packet>)
    requires m >= 8 && m % 8 == 0
    ensures fs != []
    decreases |p.data|
  {
    if |p.data| <= m then [p]
    else [p.(mf := true, data := p.data[..m])] + Split(Tail(p, m), m)
  }

  function Tail(p: Packet, m: nat): Packet
    requires m <= |p.data|
  {
    p.(off := p.off + m / 8, data := p.data[m..])
  }

  // ----- what a list of fragments has to be -----

  /** `fs` cuts `p` into consecutive non-empty pieces at multiples of eight octets, all but
      the last marked as followed by more, the last marked as `p` is. */
  ghost predicate Pieces(fs: seq<Packet>, p: Packet)
    decreases |fs|
  {
    fs != [] &&
    if |fs| == 1 then fs[0] == p && p.data != []
    else
      var k := |fs[0].data|;
      && 0 < k < |p.data| && k % 8 == 0
      && fs[0] == p.(mf := true, data := p.data[..k])
      && Pieces(fs[1..], Tail(p, k))
  }

  lemma {:induction false} SplitPieces(p: Packet, m: nat)
    requires m >= 8 && m % 8 == 0 && p.data != []
    ensures Pieces(Split(p, m), p)
    decreases |p.data|
  {
    if |p.data| > m {
      SplitPieces(Tail(p, m), m);
      assert Split(p, m)[1..] == Split(Tail(p, m), m);
    }
  }

  /** Cutting the first piece again, and then any piece, leaves pieces of the whole. */
  lemma {:induction false} RecutFirst(gs: seq<Packet>, fs: seq<Packet>, p: Packet)
    requires Pieces(fs, p) && Pieces(gs, fs[0])
    ensures Pieces(gs + fs[1..], p)
    decreases |gs|
  {
    if |fs| == 1 {
      assert gs + fs[1..] == gs;
    } else if |gs| == 1 {
      assert gs + fs[1..] == fs;
    } else {
      var k := |gs[0].data|;
      var rest := [Tail(fs[0], k)] + fs[1..];
      TailPieces(fs, p, k);
      RecutFirst(gs[1..], rest, Tail(p, k));
      assert (gs + fs[1..])[1..] == gs[1..] + rest[1..];
      assert (gs + fs[1..])[0] == gs[0];
      assert fs[0].data[..k] == p.data[..k];
    }
  }

  /** Cutting the first `k` octets off the first piece and off the whole. */
  lemma TailPieces(fs: seq<Packet>, p: Packet, k: nat)
    requires Pieces(fs, p) && |fs| > 1 && 0 < k < |fs[0].data| && k % 8 == 0
    ensures Pieces([Tail(fs[0], k)] + fs[1..], Tail(p, k))
  {
    var n := |fs[0].data|;
    var rest := [Tail(fs[0], k)] + fs[1..];
    assert rest[1..] == fs[1..];
    assert Tail(p, k).data[..n - k] == Tail(fs[0], k).data;
    assert p.data[k..][n - k..] == p.data[n..];
    assert Tail(Tail(p, k), n - k) == Tail(p, n);
  }

  lemma {:induction false} Recut(fs: seq<Packet>, i: nat, gs: seq<Packet>, p: Packet)
    requires Pieces(fs, p) && i < |fs| && Pieces(gs, fs[i])
    ensures Pieces(fs[..i] + gs + fs[i + 1..], p)
    decreases i
  {
    if i == 0 {
      RecutFirst(gs, fs, p);
      assert fs[..0] + gs + fs[1..] == gs + fs[1..];
    } else {
      var k := |fs[0].data|;
      Recut(fs[1..], i - 1, gs, Tail(p, k));
      var all := fs[..i] + gs + fs[i + 1..];
      assert all[1..] == fs[1..][..i - 1] + gs + fs[1..][i..];
      assert all[0] == fs[0] && |all| > 1;
    }
  }

  /** What one router does to what it is given. */
  function Forward(f: Packet, mtu: nat): (gs: seq<Packet>)
    requires mtu >= HLEN + 8
    ensures gs != []
  {
    if f.IpLen() <= mtu then [f] else Split(f, MaxData(mtu))
  }

  function ForwardAll(fs: seq<Packet>, mtu: nat): seq<Packet>
    requires mtu >= HLEN + 8
  {
    if fs == [] then [] else Forward(fs[0], mtu) + ForwardAll(fs[1..], mtu)
  }

  /** A path of routers, each with its own MTU. */
  function Path(fs: seq<Packet>, mtus: seq<nat>): seq<Packet>
    requires forall i :: 0 <= i < |mtus| ==> mtus[i] >= HLEN + 8
    decreases |mtus|
  {
    if mtus == [] then fs else Path(ForwardAll(fs, mtus[0]), mtus[1..])
  }

  lemma PiecesNonEmpty(fs: seq<Packet>, p: Packet, i: nat)
    requires Pieces(fs, p) && i < |fs|
    ensures fs[i].data != []
    decreases i
  {
    if i > 0 { PiecesNonEmpty(fs[1..], Tail(p, |fs[0].data|), i - 1); }
  }

  lemma ForwardOne(before: seq<Packet>, fs: seq<Packet>, mtu: nat, p: Packet)
    requires mtu >= HLEN + 8 && fs != [] && Pieces(before + fs, p)
    ensures Pieces((before + Forward(fs[0], mtu)) + fs[1..], p)
  {
    var all, i, gs := before + fs, |before|, Forward(fs[0], mtu);
    assert all[i] == fs[0] && all[..i] == before && all[i + 1..] == fs[1..];
    PiecesNonEmpty(all, p, i);
    if fs[0].IpLen() > mtu { SplitPieces(fs[0], MaxData(mtu)); }
    else { assert Pieces(gs, fs[0]); }
    Recut(all, i, gs, p);
  }

  lemma {:induction false} ForwardFrom(before: seq<Packet>, fs: seq<Packet>, mtu: nat, p: Packet)
    requires mtu >= HLEN + 8 && Pieces(before + fs, p)
    ensures Pieces(before + ForwardAll(fs, mtu), p)
    decreases |fs|
  {
    if fs != [] {
      var gs := Forward(fs[0], mtu);
      ForwardOne(before, fs, mtu, p);
      ForwardFrom(before + gs, fs[1..], mtu, p);
      Regroup(before, gs, ForwardAll(fs[1..], mtu));
    }
  }

  /** However often a datagram is fragmented on its way, what arrives are pieces of it. */
  lemma {:induction false} PathPieces(fs: seq<Packet>, mtus: seq<nat>, p: Packet)
    requires forall i :: 0 <= i < |mtus| ==> mtus[i] >= HLEN + 8
    requires Pieces(fs, p)
    ensures Pieces(Path(fs, mtus), p)
    decreases |mtus|
  {
    if mtus != [] {
      assert [] + fs == fs;
      ForwardFrom([], fs, mtus[0], p);
      assert [] + ForwardAll(fs, mtus[0]) == ForwardAll(fs, mtus[0]);
      PathPieces(ForwardAll(fs, mtus[0]), mtus[1..], p);
    }
  }

  lemma {:induction false} SplitFits(p: Packet, m: nat, i: nat)
    requires m >= 8 && m % 8 == 0 && i < |Split(p, m)|
    ensures |Split(p, m)[i].data| <= m
    decreases |p.data|
  {
    if |p.data| > m && i > 0 { SplitFits(Tail(p, m), m, i - 1); }
  }

  /** Every fragment fits the MTU it was cut for. */
  lemma ForwardFits(f: Packet, mtu: nat, i: nat)
    requires mtu >= HLEN + 8 && i < |Forward(f, mtu)|
    ensures Forward(f, mtu)[i].IpLen() <= mtu
  {
    if f.IpLen() > mtu { SplitFits(f, MaxData(mtu), i); }
  }

  lemma {:induction false} SplitFull(p: Packet, m: nat, i: nat)
    requires m >= 8 && m % 8 == 0 && i < |Split(p, m)| - 1
    ensures |Split(p, m)[i].data| == m
    decreases |p.data|
  {
    if i > 0 { SplitFull(Tail(p, m), m, i - 1); }
  }

  /** What fits goes on whole, and of what does not, every fragment but the last is as full as it can be:
      eight octets more would not fit. */
  lemma ForwardFull(f: Packet, mtu: nat)
    requires mtu >= HLEN + 8
    ensures f.IpLen() <= mtu ==> Forward(f, mtu) == [f]
    ensures f.IpLen() > mtu ==> forall i :: 0 <= i < |Forward(f, mtu)| - 1 ==> Forward(f, mtu)[i].IpLen() + 8 > mtu
  {
    if f.IpLen() > mtu {
      forall i | 0 <= i < |Forward(f, mtu)| - 1 ensures Forward(f, mtu)[i].IpLen() + 8 > mtu {
        SplitFull(f, MaxData(mtu), i);
      }
    }
  }

  // ----- the code -----

  /** A packet buffer. `len` octets of `data` are in use (ip_len less the header). */
  class EpBuf {
    var src: int
    var id: int
    var df: bool
    var mf: bool
    var off: nat
    var len: nat
    const data: array<byte>

    constructor (p: Packet)
      ensures Valid() && View() == p && fresh(data)
    {
      src, id, df, mf, off, len := p.src, p.id, p.df, p.mf, p.off, |p.data|;
      data := new byte[|p.data|](i requires 0 <= i < |p.data| => p.data[i]);
    }

    ghost predicate Valid()
      reads this
    {
      len <= data.Length
    }

    function View(): Packet
      requires Valid()
      reads this, data
    {
      Packet(src, id, df, mf, off, data[..len])
    }
  }

  datatype PutResult = Ok | SysErr

  /** An interface: what went out on the wire, and how many packet buffers are to be had. */
  class Netif {
    var up: bool
    var mtu: nat
    var wire: seq<Packet>
    var netpool: nat
    var unreachables: seq<Packet>

    /** ipfsend: a copy of `n` octets from `offset` on, marked as followed by more. */
    method IpfSend(pep: EpBuf, offset: nat, n: nat, offindg: nat) returns (r: PutResult)
      requires pep.Valid() && offset + n <= pep.len
      modifies this`wire, this`netpool
      ensures if old(netpool) == 0 then r == SysErr && wire == old(wire) && netpool == 0
              else r == Ok && netpool == old(netpool) - 1
                   && var data := pep.View().data[offset..offset + n];
                      wire == old(wire) + [Packet(pep.src, pep.id, false, true, offindg / 8, data)]
    {
      if netpool == 0 {
        return SysErr;
      }
      netpool := netpool - 1;
      assert pep.View().data[offset..offset + n] == pep.data[offset..offset + n];
      wire := wire + [Packet(pep.src, pep.id, false, true, offindg / 8, pep.data[offset..offset + n])];
      r := Ok;
    }

    /** ipputp. A datagram that fits goes out whole; one that may not be fragmented is
        reported; any other goes out as its fragments, the last one cut out of the caller's own
        buffer. When buffers run out the fragments already sent stay sent. */
    method IpPutp(pep: EpBuf) returns (r: PutResult)
      requires pep.Valid()
      requires up && pep.len + HLEN > mtu && !pep.df ==> mtu >= HLEN + 8
      modifies this, pep, pep.data
      ensures var p := old(pep.View());
              if !old(up) then r == SysErr && wire == old(wire) && unreachables == old(unreachables)
              else if p.IpLen() <= old(mtu) then r == Ok && wire == old(wire) + [p] && unreachables == old(unreachables)
              else if p.df then r == Ok && wire == old(wire) && unreachables == old(unreachables) + [p]
              else
                && unreachables == old(unreachables)
                && var fs := Split(p, MaxData(old(mtu)));
                   if |fs| - 1 <= old(netpool) then r == Ok && wire == old(wire) + fs
                   else r == SysErr && wire == old(wire) + fs[..old(netpool)]
    {
      if !up {
        return SysErr;
      }
      if pep.len + HLEN <= mtu {
        wire := wire + [pep.View()];
        return Ok;
      }
      if pep.df {
        unreachables := unreachables + [pep.View()];
        return Ok;
      }
      r := SendFragments(pep);
    }

    /** The rest of ipputp, for a datagram that must be cut and may be. */
    method SendFragments(pep: EpBuf) returns (r: PutResult)
      requires pep.Valid() && pep.len + HLEN > mtu && !pep.df && mtu >= HLEN + 8
      modifies this`wire, this`netpool, pep, pep.data
      ensures var fs := Split(old(pep.View()), MaxData(mtu));
              if |fs| - 1 <= old(netpool) then r == Ok && wire == old(wire) + fs
              else r == SysErr && wire == old(wire) + fs[..old(netpool)]
    {
      ghost var p, was, bufs := pep.View(), wire, netpool;
      var maxdlen := (mtu - HLEN) - (mtu - HLEN) % 8;
      ghost var fs := Split(p, maxdlen);
      var offset := 0;
      var offindg := pep.off * 8;
      var tosend := pep.len;
      ghost var k := 0;
      while tosend > maxdlen
        invariant pep.Valid() && pep.View() == p && maxdlen == MaxData(mtu)
        invariant 0 < tosend && offset + tosend == pep.len == |p.data|
        invariant offindg == p.Start() + offset && offset % 8 == 0
        invariant offset == 0 || offset >= maxdlen
        invariant k < |fs| && fs[k..] == Split(Tail(p, offset), maxdlen)
        invariant k <= bufs && netpool == bufs - k && wire == was + fs[..k]
      {
        SplitTurn(p, offset, maxdlen, fs, k);
        var sent := IpfSend(pep, offset, maxdlen, offindg);
        if sent != Ok {
          return SysErr;
        }
        assert wire == was + fs[..k + 1];
        tosend := tosend - maxdlen;
        offset := offset + maxdlen;
        offindg := offindg + maxdlen;
        k := k + 1;
      }
      SendLast(pep, offset, tosend, offindg);
      assert fs[k..] == [Tail(p, offset)];
      assert fs == fs[..k] + fs[k..];
      r := Ok;
    }

    /** The end of ipputp: the residual goes out in the caller's own buffer. */
    method SendLast(pep: EpBuf, offset: nat, tosend: nat, offindg: nat)
      requires pep.Valid() && tosend <= offset && offset + tosend == pep.len
      requires offset % 8 == 0 && offindg == 8 * pep.off + offset
      modifies this`wire, pep, pep.data
      ensures wire == old(wire) + [Tail(old(pep.View()), offset)]
    {
      ghost var p := pep.View();
      assert p.data[offset..] == pep.data[offset..offset + tosend];
      SlideDown(pep, offset, tosend);
      pep.off := offindg / 8;
      pep.len := tosend;
      wire := wire + [pep.View()];
    }

    /** The memcpy that moves the residual down over what was sent; source and target never
        overlap, since what is left is no longer than one fragment. */
    method SlideDown(pep: EpBuf, offset: nat, tosend: nat)
      requires tosend <= offset && offset + tosend <= pep.data.Length
      modifies pep.data
      ensures pep.data[..tosend] == old(pep.data[offset..offset + tosend])
    {
      var i := 0;
      while i < tosend
        invariant 0 <= i <= tosend
        invariant pep.data[..i] == old(pep.data[offset..offset + i])
        invariant forall j :: offset <= j < pep.data.Length ==> pep.data[j] == old(pep.data[j])
      {
        pep.data[i] := pep.data[offset + i];
        i := i + 1;
      }
    }
  }

  /** One turn of the loop in ipputp: the next fragment, and what is left to cut. */
  lemma SplitTurn(p: Packet, offset: nat, m: nat, fs: seq<Packet>, k: nat)
    requires m >= 8 && m % 8 == 0 && offset % 8 == 0 && offset + m < |p.data|
    requires k < |fs| && fs[k..] == Split(Tail(p, offset), m)
    ensures k + 1 < |fs| && fs[k + 1..] == Split(Tail(p, offset + m), m) && (offset + m) % 8 == 0
    ensures fs[k] == Packet(p.src, p.id, p.df, true, (p.Start() + offset) / 8, p.data[offset..offset + m])
  {
    var q := Tail(p, offset);
    assert fs[k..][1..] == fs[k + 1..] && fs[k..][0] == fs[k];
    assert q.data[..m] == p.data[offset..offset + m] && q.data[m..] == p.data[offset + m..];
    assert Tail(q, m) == Tail(p, offset + m);
  }
}
