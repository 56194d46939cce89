/** The checksum of section 1 of RFC 1071, as IP, TCP and the two older routines compute it. */
module Checksum {
  import opened Ring

  type Octets = seq<byte>

  /** The 16-bit words of a buffer added up, big end first; an odd octet is the high half of its
      word. */
  function WordSum(s: Octets): nat {
    if s == [] then 0
    else if |s| == 1 then 256 * s[0] as nat
    else 256 * s[0] as nat + s[1] as nat + WordSum(s[2..])
  }

  /** What a sum comes to when every carry out of 16 bits is added back in. */
  function Wrapped(sum: nat): (f: nat)
    ensures f < 0x1_0000
  {
    if sum == 0 then 0 else 1 + (sum - 1) % 0xffff
  }

  /** The checksum of a sum. */
  function Complement(sum: nat): (c: nat)
    ensures c < 0x1_0000
  {
    0xffff - Wrapped(sum)
  }

  /** The two folds in which all the routines end. */
  function TwoFolds(sum: nat): nat {
    var once := sum / 0x1_0000 + sum % 0x1_0000;
    once + once / 0x1_0000
  }

  // ----- arithmetic -----

  lemma WrappedIs(sum: nat, f: nat, k: nat)
    requires sum > 0 && 1 <= f <= 0xffff && sum == f + k * 0xffff
    ensures Wrapped(sum) == f
  {
    RemainderIs(sum - 1, f - 1, k);
  }

  lemma RemainderIs(x: nat, r: nat, k: nat)
    requires r < 0xffff && x == r + k * 0xffff
    ensures x % 0xffff == r
  {
  }

  lemma WrappedSplit(sum: nat) returns (k: nat)
    requires sum > 0
    ensures sum == Wrapped(sum) + k * 0xffff
  {
    k := (sum - 1) / 0xffff;
  }

  /** For any sum that fits 32 bits two folds are enough, and give the same 16 bits as carrying
      around until there is no carry. */
  lemma TwoFoldsSuffice(sum: nat)
    requires sum < 0x1_0000_0000
    ensures TwoFolds(sum) % 0x1_0000 == Wrapped(sum)
  {
    var hi, lo := sum / 0x1_0000, sum % 0x1_0000;
    var once := hi + lo;
    if once >= 0x1_0000 {
      assert once / 0x1_0000 == 1 && TwoFolds(sum) == once + 1;
      assert (once + 1) % 0x1_0000 == once - 0xffff;
      WrappedIs(sum, once - 0xffff, hi + 1);
    } else if sum > 0 {
      WrappedIs(sum, once, hi);
    }
  }

  lemma {:induction false} WordSumBound(s: Octets)
    ensures WordSum(s) <= (|s| + 1) / 2 * 0xffff
    decreases |s|
  {
    if |s| > 1 { WordSumBound(s[2..]); }
  }

  // ----- the code -----

  /** The last lines of stevens_cksum, and of the other two: both folds, and the low half of the
      complement. */
  method Fold(total: nat) returns (answer: nat)
    requires total < 0x1_0000_0000
    ensures answer == Complement(total)
  {
    var sum := total;
    sum := sum / 0x1_0000 + sum % 0x1_0000;
    sum := sum + sum / 0x1_0000;
    answer := 0xffff - sum % 0x1_0000;
    TwoFoldsSuffice(total);
  }

  /** stevens_cksum, of `len` octets from `addr` on. An int holds the sum for 65536 octets. */
  method StevensCksum(buf: array<byte>, addr: nat, len: nat) returns (answer: nat)
    requires addr + len <= buf.Length && len <= 0x1_0000
    ensures answer == Complement(WordSum(buf[addr..addr + len]))
  {
    var nleft: nat, w: nat, sum: nat := len, addr, 0;
    ghost var s := buf[addr..addr + len];
    WordSumBound(s);
    while nleft > 1
      invariant nleft <= len && w + nleft == addr + len
      invariant sum + WordSum(buf[w..addr + len]) == WordSum(s)
    {
      assert buf[w..addr + len][2..] == buf[w + 2..addr + len];
      sum := sum + 256 * buf[w] as nat + buf[w + 1] as nat;
      w := w + 2;
      nleft := nleft - 2;
    }
    if nleft == 1 {
      sum := sum + 256 * buf[w] as nat;
    }
    answer := Fold(sum);
  }

  /** A halfword as a signed number. */
  function Signed(x: nat): int
    requires x < 0x1_0000
  {
    if x < 0x8000 then x else x - 0x1_0000
  }

  /** comer_cksum: the same bits, returned as a signed halfword. */
  method ComerCksum(buf: array<byte>, nwords: nat) returns (result: int)
    requires 2 * nwords <= buf.Length && nwords <= 0x1_0000
    ensures result == Signed(Complement(WordSum(buf[..2 * nwords])))
  {
    var left: nat, w: nat, sum: nat := nwords, 0, 0;
    ghost var s := buf[..2 * nwords];
    WordSumBound(s);
    while left > 0
      invariant left <= nwords && w + 2 * left == 2 * nwords
      invariant sum + WordSum(buf[w..2 * nwords]) == WordSum(s)
    {
      assert buf[w..2 * nwords][2..] == buf[w + 2..2 * nwords];
      sum := sum + 256 * buf[w] as nat + buf[w + 1] as nat;
      w := w + 2;
      left := left - 1;
    }
    var c := Fold(sum);
    result := Signed(c);
  }

  /** Where the checksum is in an IP header. */
  const IP_CKSUM := 10

  /** ipcksum: the checksum of a header with its own field taken as zero. The header is as it was
      afterwards. */
  method IpCksum(hdr: array<byte>, hlen: nat) returns (result: nat)
    requires 20 <= hlen <= 60 && hlen <= hdr.Length
    modifies hdr
    ensures hdr[..] == old(hdr[..])
    ensures result == Complement(WordSum(Zeroed(old(hdr[..hlen]), IP_CKSUM)))
  {
    var save0, save1 := hdr[IP_CKSUM], hdr[IP_CKSUM + 1];
    hdr[IP_CKSUM], hdr[IP_CKSUM + 1] := 0, 0;
    result := StevensCksum(hdr, 0, hlen);
    assert hdr[0..0 + hlen] == Zeroed(old(hdr[..hlen]), IP_CKSUM);
    hdr[IP_CKSUM], hdr[IP_CKSUM + 1] := save0, save1;
  }

  /** A buffer with a halfword in it changed, and with it zero. */
  function Stored(s: Octets, at: nat, v: nat): Octets
    requires at + 2 <= |s| && v < 0x1_0000
  {
    s[at := (v / 256) as byte][at + 1 := (v % 256) as byte]
  }

  function Zeroed(s: Octets, at: nat): Octets
    requires at + 2 <= |s|
  {
    s[at := 0][at + 1 := 0]
  }

  const IP_SRC := 12
  const IP_DATA := 20
  const IPT_TCP := 6

  /** What the checksum of a TCP segment is taken over: addresses, protocol and length, and the
      segment. */
  function PseudoSum(addresses: Octets, segment: Octets): nat {
    WordSum(addresses) + IPT_TCP + |segment| + WordSum(segment)
  }

  /** tcpcksum, of a datagram with a header of 20 octets. An odd segment is padded with a zero
      behind its end. */
  method TcpCksum(ip: array<byte>, length: nat) returns (cksum: nat)
    requires IP_DATA + length + length % 2 <= ip.Length && length <= 0xffff
    modifies ip
    ensures ip[..] == if length % 2 == 1 then old(ip[..])[IP_DATA + length := 0] else old(ip[..])
    ensures cksum == Complement(PseudoSum(ip[IP_SRC..IP_DATA], ip[IP_DATA..IP_DATA + length]))
  {
    var tcksum, sptr, i := 0, IP_SRC, 0;
    ghost var addresses := ip[IP_SRC..IP_DATA];
    while i < 4
      invariant i <= 4 && sptr == IP_SRC + 2 * i
      invariant tcksum + WordSum(ip[sptr..IP_DATA]) == WordSum(addresses)
    {
      assert ip[sptr..IP_DATA][2..] == ip[sptr + 2..IP_DATA];
      tcksum := tcksum + 256 * ip[sptr] as nat + ip[sptr + 1] as nat;
      sptr, i := sptr + 2, i + 1;
    }
    tcksum := tcksum + IPT_TCP + length;
    var len := length;
    if len % 2 == 1 {
      ip[IP_DATA + len] := 0;
      len := len + 1;
    }
    ghost var segment := ip[IP_DATA..IP_DATA + length];
    assert ip[IP_SRC..IP_DATA] == addresses;
    assert length % 2 == 1 ==> ip[IP_DATA..IP_DATA + len] == segment + [0];
    Padded(segment);
    WordSumBound(addresses);
    WordSumBound(segment);
    var sum := AddWords(ip, IP_DATA, len / 2);
    cksum := Fold(tcksum + sum);
  }

  /** The second loop of tcpcksum. */
  method AddWords(ip: array<byte>, from: nat, nwords: nat) returns (sum: nat)
    requires from + 2 * nwords <= ip.Length
    ensures sum == WordSum(ip[from..from + 2 * nwords])
  {
    sum := 0;
    var i, sptr := 0, from;
    ghost var end := from + 2 * nwords;
    while i < nwords
      invariant i <= nwords && sptr == from + 2 * i
      invariant sum + WordSum(ip[sptr..end]) == WordSum(ip[from..end])
    {
      assert ip[sptr..end][2..] == ip[sptr + 2..end];
      sum := sum + 256 * ip[sptr] as nat + ip[sptr + 1] as nat;
      sptr, i := sptr + 2, i + 1;
    }
  }

  /** A zero behind an odd octet adds nothing. */
  lemma {:induction false} Padded(s: Octets)
    ensures |s| % 2 == 1 ==> WordSum(s + [0]) == WordSum(s)
    decreases |s|
  {
    if |s| > 1 {
      assert (s + [0])[2..] == s[2..] + [0];
      Padded(s[2..]);
    }
  }

  // ----- what the checksum is for -----

  lemma {:induction false} SumOfParts(s: Octets, at: nat)
    requires at <= |s| && at % 2 == 0
    ensures WordSum(s) == WordSum(s[..at]) + WordSum(s[at..])
    decreases at
  {
    if at == 0 {
      assert s[at..] == s;
    } else {
      SumOfParts(s[2..], at - 2);
      assert s[2..][..at - 2] == s[..at][2..] && s[2..][at - 2..] == s[at..];
    }
  }

  /** Changing one word changes the sum by the difference. */
  lemma StoredSum(s: Octets, at: nat, v: nat)
    requires at % 2 == 0 && at + 2 <= |s| && v < 0x1_0000
    ensures WordSum(Stored(s, at, v)) + 256 * s[at] as nat + s[at + 1] as nat == WordSum(s) + v
  {
    var t := Stored(s, at, v);
    SumOfParts(s, at);
    SumOfParts(t, at);
    assert t[..at] == s[..at] && t[at..][2..] == s[at..][2..];
  }

  /** When a computation over a whole buffer, its checksum included, gives zero. */
  lemma ZeroIff(sum: nat)
    ensures Complement(sum) == 0 <==> sum > 0 && sum % 0xffff == 0
  {
    if sum > 0 {
      var k := WrappedSplit(sum);
      var f := Wrapped(sum);
      if f == 0xffff { RemainderIs(sum, 0, k + 1); } else { RemainderIs(sum, f, k); }
    }
  }

  lemma ComplementCompletes(sum: nat)
    ensures Complement(sum + Complement(sum)) == 0
  {
    var c := Complement(sum);
    if sum == 0 {
      WrappedIs(c, 0xffff, 0);
    } else {
      var k := WrappedSplit(sum);
      WrappedIs(sum + c, 0xffff, k);
    }
  }

  /** Storing the checksum in the field that was zero for it makes a computation over the whole
      buffer give zero. */
  lemma StoreThenZero(s: Octets, at: nat)
    requires at % 2 == 0 && at + 2 <= |s| && s[at] == 0 && s[at + 1] == 0
    ensures Complement(WordSum(Stored(s, at, Complement(WordSum(s))))) == 0
  {
    StoredSum(s, at, Complement(WordSum(s)));
    ComplementCompletes(WordSum(s));
  }

  /** The same for a TCP segment and its pseudo header. */
  lemma TcpStoreThenZero(addresses: Octets, segment: Octets, at: nat)
    requires at % 2 == 0 && at + 2 <= |segment| && segment[at] == 0 && segment[at + 1] == 0
    ensures var c := Complement(PseudoSum(addresses, segment));
            Complement(PseudoSum(addresses, Stored(segment, at, c))) == 0
  {
    var c := Complement(PseudoSum(addresses, segment));
    StoredSum(segment, at, c);
    ComplementCompletes(PseudoSum(addresses, segment));
  }

  /** A sound buffer with one word changed still gives zero exactly if the word was all zeros and
      is all ones, or the other way round. */
  lemma OneWordChanged(s: Octets, at: nat, v: nat)
    requires at % 2 == 0 && at + 2 <= |s| && v < 0x1_0000 && Complement(WordSum(s)) == 0
    requires WordSum(Stored(s, at, v)) > 0
    ensures var w := 256 * s[at] as nat + s[at + 1] as nat;
            Complement(WordSum(Stored(s, at, v))) == 0 <==> v == w || (v == 0 && w == 0xffff) || (v == 0xffff && w == 0)
  {
    var w := 256 * s[at] as nat + s[at + 1] as nat;
    var a, b := WordSum(s), WordSum(Stored(s, at, v));
    StoredSum(s, at, v);
    ZeroIff(a);
    ZeroIff(b);
    SameRemainder(a, b, v - w);
  }

  lemma SameRemainder(a: nat, b: nat, d: int)
    requires b == a + d && -0xffff <= d <= 0xffff && a % 0xffff == 0
    ensures b % 0xffff == 0 <==> d == 0 || d == 0xffff || d == -0xffff
  {
    var k := a / 0xffff;
    assert a == 0xffff * k;
    if b % 0xffff == 0 {
      var j := b / 0xffff;
      assert b == 0xffff * j && d == 0xffff * (j - k);
    }
    if d == 0xffff { RemainderIs(b, 0, k + 1); }
    if d == -0xffff { RemainderIs(b, 0, k - 1); }
  }

  // ----- the pseudo header -----

  /** The pseudo header of section 3.1 of RFC 793: both addresses, a zero, the protocol, the length. */
  function PseudoHeader(addresses: Octets, length: nat): Octets
    requires length <= 0xffff
  {
    addresses + [0, 6, (length / 256) as byte, (length % 256) as byte]
  }

  lemma {:induction false} FourOctets(a: byte, b: byte, c: byte, d: byte)
    ensures WordSum([a, b, c, d]) == 256 * a as nat + b as nat + 256 * c as nat + d as nat
  {
    assert [a, b, c, d][2..] == [c, d] && [c, d][2..] == [];
    assert WordSum([c, d]) == 256 * c as nat + d as nat;
  }

  /** tcpcksum is the checksum over the pseudo header and the segment, laid out one behind the other. */
  lemma {:induction false} PseudoIs(addresses: Octets, segment: Octets)
    requires |addresses| % 2 == 0 && |segment| <= 0xffff
    ensures PseudoSum(addresses, segment) == WordSum(PseudoHeader(addresses, |segment|) + segment)
  {
    var n := |segment|;
    var h := PseudoHeader(addresses, n);
    var tail := [0, 6, (n / 256) as byte, (n % 256) as byte];
    SumOfParts(h + segment, |h|);
    assert (h + segment)[..|h|] == h && (h + segment)[|h|..] == segment;
    SumOfParts(h, |addresses|);
    assert h[..|addresses|] == addresses && h[|addresses|..] == tail;
    FourOctets(0, 6, (n / 256) as byte, (n % 256) as byte);
  }

  /** So a segment that was sound and has one word of its addresses changed is taken for sound exactly if
      the word was all zeros and is all ones, or the other way round. */
  lemma {:induction false} AddressChanged(addresses: Octets, segment: Octets, at: nat, v: nat)
    requires |addresses| % 2 == 0 && |segment| <= 0xffff && at % 2 == 0 && at + 2 <= |addresses| && v < 0x1_0000
    requires Complement(PseudoSum(addresses, segment)) == 0
    ensures var w := 256 * addresses[at] as nat + addresses[at + 1] as nat;
            Complement(PseudoSum(Stored(addresses, at, v), segment)) == 0
            <==> v == w || (v == 0 && w == 0xffff) || (v == 0xffff && w == 0)
  {
    var t := Stored(addresses, at, v);
    var a, b := PseudoSum(addresses, segment), PseudoSum(t, segment);
    var w := 256 * addresses[at] as nat + addresses[at + 1] as nat;
    StoredSum(addresses, at, v);
    ZeroIff(a);
    ZeroIff(b);
    SameRemainder(a, b, v - w);
  }

  /** A zero octet lost or gained at the end of a sound segment is always seen: the length is part of
      what is summed. */
  lemma LengthSeen(addresses: Octets, segment: Octets)
    requires |segment| % 2 == 1
    ensures !(Complement(PseudoSum(addresses, segment)) == 0 && Complement(PseudoSum(addresses, segment + [0])) == 0)
  {
    var a := PseudoSum(addresses, segment);
    Padded(segment);
    ZeroIff(a);
    ZeroIff(a + 1);
    if a % 0xffff == 0 { RemainderIs(a + 1, 1, a / 0xffff); }
  }

  // ----- what is accepted -----

  /** ipproc takes a header if the checksum computed over the rest is the one stored. That agrees
      with the rule that all of it gives zero, but for one header: when the checksum is zero and
      all ones, which stands for the same number, is stored. */
  lemma AcceptedIff(s: Octets, stored: nat)
    requires |s| >= 20 && stored < 0x1_0000 && s[IP_CKSUM] == 0 && s[IP_CKSUM + 1] == 0 && WordSum(s) > 0
    ensures var c := Complement(WordSum(s));
            Complement(WordSum(Stored(s, IP_CKSUM, stored))) == 0 <==> stored == c || (c == 0 && stored == 0xffff)
  {
    var c := Complement(WordSum(s));
    StoredSum(s, IP_CKSUM, stored);
    StoredSum(s, IP_CKSUM, c);
    StoreThenZero(s, IP_CKSUM);
    ZeroIff(WordSum(s) + c);
    ZeroIff(WordSum(s) + stored);
    SameRemainder(WordSum(s) + c, WordSum(s) + stored, stored - c);
  }
}
