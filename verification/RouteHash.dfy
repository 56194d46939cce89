/** IP addresses as the routing code sees them: classes, matching under a mask, and the hash that
    picks a bucket of the routing table. */
module RouteHash {
  const ZEROS := [
    false, false, false, false, false, false, false, false,
    false, false, false, false, false, false, false, false,
    false, false, false, false, false, false, false, false,
    false, false, false, false, false, false, false, false]

  /** An address or a mask: its 32 bits, the most significant first. */
  type IPaddr = x: seq<bool> | |x| == 32 witness ZEROS

  const RT_TSIZE: nat := 512
  const IP_ANYADDR := Prefix(0)
  const IP_MASKALL := Prefix(32)

  /** `n` ones and then zeros. */
  function Prefix(n: nat): (m: IPaddr)
    ensures forall i :: 0 <= i < 32 ==> m[i] == (i < n)
  {
    seq(32, i => i < n)
  }

  predicate ClassA(x: IPaddr) { !x[0] }
  predicate ClassB(x: IPaddr) { x[0] && !x[1] }
  predicate ClassC(x: IPaddr) { x[0] && x[1] && !x[2] }
  predicate ClassD(x: IPaddr) { x[0] && x[1] && x[2] && !x[3] }

  /** The number that `n` bits from bit `from` on stand for. */
  function Value(x: IPaddr, from: nat, n: nat): nat
    requires from + n <= 32
  {
    if n == 0 then 0 else 2 * Value(x, from, n - 1) + if x[from + n - 1] then 1 else 0
  }

  /** Octet `k` as it lies in memory, big end first. */
  function Octet(x: IPaddr, k: nat): nat
    requires k < 4
  {
    Value(x, 8 * k, 8)
  }

  /** How many octets of an address the hash adds up. */
  function HashOctets(x: IPaddr): nat { if ClassA(x) then 1 else if ClassB(x) then 2 else if ClassC(x) then 3 else 4 }

  function OctetSum(x: IPaddr, n: nat): nat
    requires n <= 4
  {
    if n == 0 then 0 else OctetSum(x, n - 1) + Octet(x, n - 1)
  }

  /** The bucket of an address: the first four bits in place for a multicast address, the sum of
      the octets of the network part, or of all of them, for any other. */
  function Hash(x: IPaddr): (h: nat)
    ensures h < RT_TSIZE
  {
    if ClassD(x) then (16 * Value(x, 0, 4)) % RT_TSIZE else OctetSum(x, HashOctets(x)) % RT_TSIZE
  }

  /** rthash. */
  method RtHash(net: IPaddr) returns (h: nat)
    ensures h == Hash(net)
  {
    var bc: nat := 4;
    if ClassA(net) {
      bc := 1;
    } else if ClassB(net) {
      bc := 2;
    } else if ClassC(net) {
      bc := 3;
    } else if ClassD(net) {
      return 16 * Value(net, 0, 4) % RT_TSIZE;
    }
    ghost var n := bc;
    var hv := 0;
    while bc > 0
      invariant bc <= n <= 4 && hv + OctetSum(net, bc) == OctetSum(net, n)
    {
      bc := bc - 1;
      hv := hv + Octet(net, bc);
    }
    h := hv % RT_TSIZE;
  }

  // ----- matching -----

  /** How long the part of an address is that the hash looks at: the network part by class, the
      first four bits of a multicast address, all of any other. */
  function ClassLength(x: IPaddr): nat {
    if ClassA(x) then 8 else if ClassB(x) then 16 else if ClassC(x) then 24 else if ClassD(x) then 4 else 32
  }

  /** The mask contains the class mask of `net`. */
  predicate HasClassMask(mask: IPaddr, net: IPaddr) { forall i :: 0 <= i < ClassLength(net) ==> mask[i] }

  /** Two addresses are equal under a mask. */
  predicate Agree(x: IPaddr, y: IPaddr, mask: IPaddr) { forall i :: 0 <= i < 32 && mask[i] ==> x[i] == y[i] }

  /** netmatch. `brc` says whether `dst` is a broadcast address of this host. */
  predicate NetMatch(dst: IPaddr, net: IPaddr, mask: IPaddr, local: bool, brc: bool) {
    if !Agree(dst, net, mask) then false
    else if local && (brc || ClassD(dst)) then mask != IP_MASKALL
    else true
  }

  lemma {:induction false} SameValue(x: IPaddr, y: IPaddr, from: nat, n: nat)
    requires from + n <= 32 && forall i :: from <= i < from + n ==> x[i] == y[i]
    ensures Value(x, from, n) == Value(y, from, n)
    decreases n
  {
    if n > 0 { SameValue(x, y, from, n - 1); }
  }

  lemma {:induction false} SameSum(x: IPaddr, y: IPaddr, n: nat)
    requires n <= 4 && forall i :: 0 <= i < 8 * n ==> x[i] == y[i]
    ensures OctetSum(x, n) == OctetSum(y, n)
    decreases n
  {
    if n > 0 {
      SameSum(x, y, n - 1);
      SameValue(x, y, 8 * (n - 1), 8);
    }
  }

  /** An address under a mask that contains the class mask of its net is in the net's bucket. */
  lemma SameBucket(dst: IPaddr, net: IPaddr, mask: IPaddr)
    requires Agree(dst, net, mask) && HasClassMask(mask, net)
    ensures Hash(dst) == Hash(net)
  {
    assert forall i :: 0 <= i < ClassLength(net) ==> mask[i] && dst[i] == net[i];
    if ClassD(net) {
      SameValue(dst, net, 0, 4);
    } else {
      SameSum(dst, net, HashOctets(net));
    }
  }

  // ----- which masks the hash is right for -----

  /** An address that a prefix mask too short for its net takes to be on the net, and that the
      hash puts in another bucket: the last bit of the network part changed, or, for a multicast
      net, 240.0.0.0. */
  function Stray(net: IPaddr): IPaddr {
    var n := ClassLength(net) - 1;
    if ClassD(net) then Prefix(4) else net[n := !net[n]]
  }

  lemma StrayElsewhere(net: IPaddr)
    ensures Hash(Stray(net)) != Hash(net)
  {
    var x := Stray(net);
    if ClassD(net) {
      FirstFour(net);
      StrayD(x);
    } else {
      var n := HashOctets(net);
      assert HashOctets(x) == n && ClassLength(net) == 8 * n;
      SameSum(x, net, n - 1);
      SameValue(x, net, 8 * (n - 1), 7);
      ModDiffers(OctetSum(x, n), OctetSum(net, n));
    }
  }

  lemma ModDiffers(p: nat, q: nat)
    requires p != q && -512 < p - q < 512
    ensures p % RT_TSIZE != q % RT_TSIZE
  {
  }

  lemma FirstFour(x: IPaddr)
    requires ClassD(x)
    ensures Hash(x) == 224
  {
    assert Value(x, 0, 1) == 1 && Value(x, 0, 2) == 3 && Value(x, 0, 3) == 7 && Value(x, 0, 4) == 14;
  }

  lemma {:induction false} Zeros(x: IPaddr, from: nat, n: nat)
    requires from + n <= 32 && forall i :: from <= i < from + n ==> !x[i]
    ensures Value(x, from, n) == 0
    decreases n
  {
    if n > 0 { Zeros(x, from, n - 1); }
  }

  lemma StrayD(x: IPaddr)
    requires forall i :: 0 <= i < 32 ==> x[i] == (i < 4)
    ensures Hash(x) == 240
  {
    Zeros(x, 8, 8);
    Zeros(x, 16, 8);
    Zeros(x, 24, 8);
    assert Value(x, 0, 1) == 1 && Value(x, 0, 2) == 3 && Value(x, 0, 3) == 7 && Value(x, 0, 4) == 15;
    assert Value(x, 0, 5) == 30 && Value(x, 0, 6) == 60 && Value(x, 0, 7) == 120 && Value(x, 0, 8) == 240;
    assert OctetSum(x, 1) == 240 && OctetSum(x, 2) == 240 && OctetSum(x, 3) == 240 && OctetSum(x, 4) == 240;
  }

  /** Exactly the prefix masks that contain the class mask of their net keep every address of the
      net in the net's bucket. */
  lemma HashExact(net: IPaddr, n: nat)
    ensures HasClassMask(Prefix(n), net) <==> forall dst :: Agree(dst, net, Prefix(n)) ==> Hash(dst) == Hash(net)
  {
    var mask := Prefix(n);
    if HasClassMask(mask, net) {
      forall dst | Agree(dst, net, mask) ensures Hash(dst) == Hash(net) { SameBucket(dst, net, mask); }
    } else {
      assert Agree(Stray(net), net, mask);
      StrayElsewhere(net);
    }
  }

  // ----- how specific a mask is -----

  /** The ones among the last `n` bits. */
  function Ones(m: IPaddr, n: nat): (k: nat)
    requires n <= 32
    ensures k <= n
  {
    if n == 0 then 0 else Ones(m, n - 1) + if m[32 - n] then 1 else 0
  }

  /** The sort key of a route: how many ones its mask has. */
  function Key(mask: IPaddr): nat { Ones(mask, 32) }

  /** The loop of rtadd that computes the sort key; `maskbit` counts from the low end. */
  method CountOnes(mask: IPaddr) returns (key: nat)
    ensures key == Key(mask)
  {
    key := 0;
    for maskbit := 0 to 32
      invariant key == Ones(mask, maskbit)
    {
      if mask[31 - maskbit] {
        key := key + 1;
      }
    }
  }

  /** Of two masks one inside the other, the larger has the larger sort key. */
  lemma {:induction false} OnesGrow(part: IPaddr, mask: IPaddr, n: nat)
    requires n <= 32 && forall i :: 0 <= i < 32 && part[i] ==> mask[i]
    ensures Ones(part, n) <= Ones(mask, n)
    ensures Ones(part, n) == Ones(mask, n) ==> forall i :: 32 - n <= i < 32 ==> part[i] == mask[i]
    decreases n
  {
    if n > 0 { OnesGrow(part, mask, n - 1); }
  }

  lemma MoreSpecific(part: IPaddr, mask: IPaddr)
    requires part != mask && forall i :: 0 <= i < 32 && part[i] ==> mask[i]
    ensures Key(part) < Key(mask)
  {
    OnesGrow(part, mask, 32);
  }
}
