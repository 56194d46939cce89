/** Circular octet buffers, as tcb_sndbuf and tcb_rcvbuf use them: `count` octets starting
    at index `start` of an array of `n`, wrapping at the end. */
module Ring {
  newtype byte = b: int | 0 <= b < 0x100

  /** Array index of the octet `i` places after `start`. */
  function Slot(n: nat, start: nat, i: nat): (k: nat)
    requires start < n && i <= n
    ensures k < n
  {
    if start + i < n then start + i else start + i - n
  }

  /** The remainder the C code takes is the index that Slot names. */
  lemma SlotIsRemainder(n: nat, start: nat, i: nat)
    requires start < n && i <= n
    ensures (start + i) % n == Slot(n, start, i)
  {
    var x := start + i;
    if x < n {
      assert x / n == 0;
    } else {
      assert x == n + (x - n) && 0 <= x - n < n;
      RemainderOnce(n, x - n);
    }
  }

  lemma RemainderOnce(n: nat, y: nat)
    requires y < n
    ensures (n + y) % n == y
  {
    var q, r := (n + y) / n, (n + y) % n;
    assert n * q + r == n + y;
    assert q < 2 ==> q == 0 || q == 1;
    assert q >= 2 ==> n * q >= n * 2;
  }

  /** The octets a reader would find: `count` of them from `start`. */
  function Contents(buf: seq<byte>, start: nat, count: nat): (s: seq<byte>)
    requires start < |buf| && count <= |buf|
    ensures |s| == count
  {
    seq(count, i requires 0 <= i < count => buf[Slot(|buf|, start, i)])
  }

  /** `buf` after `data` has been laid over it from index `at` on, wrapping. */
  function Deposit(buf: seq<byte>, at: nat, data: seq<byte>): (s: seq<byte>)
    requires at < |buf| && |data| <= |buf|
    ensures |s| == |buf|
  {
    seq(|buf|, j requires 0 <= j < |buf| =>
      var k := if at <= j then j - at else j - at + |buf|;
      if k < |data| then data[k] else buf[j])
  }

  /** Seen from `start`, a deposit that begins `off` places on changes those places only. */
  lemma DepositSeenFrom(buf: seq<byte>, start: nat, off: nat, data: seq<byte>, i: nat)
    requires start < |buf| && off + |data| <= |buf| && i < |buf|
    ensures Deposit(buf, Slot(|buf|, start, off), data)[Slot(|buf|, start, i)]
         == if off <= i < off + |data| then data[i - off] else buf[Slot(|buf|, start, i)]
  {
  }

  /** One more octet laid down extends the deposit by one. */
  lemma DepositExtend(buf: seq<byte>, at: nat, data: seq<byte>, k: nat)
    requires at < |buf| && k < |data| <= |buf|
    ensures Deposit(buf, at, data[..k])[Slot(|buf|, at, k) := data[k]] == Deposit(buf, at, data[..k + 1])
  {
  }

  /** Appending at the end of the contents. */
  lemma ContentsAppend(buf: seq<byte>, start: nat, count: nat, data: seq<byte>)
    requires start < |buf| && count + |data| <= |buf|
    ensures Contents(Deposit(buf, Slot(|buf|, start, count), data), start, count + |data|)
         == Contents(buf, start, count) + data
  {
    var buf' := Deposit(buf, Slot(|buf|, start, count), data);
    forall i | 0 <= i < count + |data|
      ensures Contents(buf', start, count + |data|)[i] == (Contents(buf, start, count) + data)[i]
    {
      if i < |buf| { DepositSeenFrom(buf, start, count, data, i); }
    }
  }

  /** Dropping `k` octets from the front of the contents. */
  lemma ContentsDrop(buf: seq<byte>, start: nat, count: nat, k: nat)
    requires start < |buf| && k <= count <= |buf|
    ensures Contents(buf, Slot(|buf|, start, k), count - k) == Contents(buf, start, count)[k..]
  {
  }
}
