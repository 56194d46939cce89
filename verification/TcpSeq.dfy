/** Sequence numbers as the code has them, in 32 bits, and as the rest of the model has them,
    without a bound. */
module TcpSeq {
  import opened TcpReceive

  const HALF := 0x8000_0000
  const WHOLE := 0x1_0000_0000

  /** What a signed word holds of a number. */
  function Word(x: int): (w: int)
    ensures -HALF <= w < HALF
  {
    (x + HALF) % WHOLE - HALF
  }

  /** SEQCMP, of two words. */
  function SeqCmp(a: int, b: int): int { Word(a - b) }

  lemma WordIs(x: int, w: int, k: int)
    requires -HALF <= w < HALF && x == w + k * WHOLE
    ensures Word(x) == w
  {
    Remainder(x + HALF, w + HALF, k);
  }

  lemma Remainder(x: int, r: nat, k: int)
    requires r < WHOLE && x == r + k * WHOLE
    ensures x % WHOLE == r
  {
  }

  lemma WordSplit(x: int) returns (k: int)
    ensures x == Word(x) + k * WHOLE
  {
    k := (x + HALF) / WHOLE;
  }

  /** The comparison sees only the distance. */
  lemma Distance(x: int, y: int)
    ensures SeqCmp(Word(x), Word(y)) == Word(x - y)
  {
    var i := WordSplit(x);
    var j := WordSplit(y);
    var k := WordSplit(x - y);
    WordIs(Word(x) - Word(y), Word(x - y), k - i + j);
  }

  /** Comparing the words gives the true distance exactly when it fits a word. */
  lemma SeqCmpExact(x: int, y: int)
    ensures SeqCmp(Word(x), Word(y)) == x - y <==> -HALF <= x - y < HALF
  {
    Distance(x, y);
    if -HALF <= x - y < HALF { WordIs(x - y, x - y, 0); }
  }

  /** What tcpok makes of its comparisons: of the first octet with the two ends of the window, and
      of the last. */
  predicate Tests(window: int, len: nat, same: bool, first: int, firstEnd: int, last: int, lastEnd: int) {
    if window == 0 && len == 0 then same
    else (first >= 0 && firstEnd <= 0) || (len > 0 && last >= 0 && lastEnd <= 0)
  }

  /** The tests of tcpok, in words. */
  predicate AcceptableInWords(rnext: int, window: nat, seqno: int, len: nat) {
    var wlast, slast := Word(rnext + (window - 1)), Word(seqno + (len - 1));
    Tests(window, len, seqno == rnext, SeqCmp(seqno, rnext), SeqCmp(seqno, wlast),
          SeqCmp(slast, rnext), SeqCmp(slast, wlast))
  }

  lemma AcceptableTests(r: Rcv, s: Segment)
    requires r.count <= |r.buf|
    ensures var n, w := s.Len(), r.Window();
            Acceptable(r, s) == Tests(w, n, s.seqno == r.rnext, s.seqno - r.rnext, s.seqno - (r.rnext + (w - 1)),
                                      s.seqno + (n - 1) - r.rnext, s.seqno + (n - 1) - (r.rnext + (w - 1)))
  {
  }

  lemma WordAdd(x: int, d: int)
    ensures Word(Word(x) + d) == Word(x + d)
  {
    var i := WordSplit(x);
    var k := WordSplit(x + d);
    WordIs(Word(x) + d, Word(x + d), k - i);
  }

  /** The acceptance test in words is the one without a bound for every segment less than half the
      sequence space away from the window. */
  lemma AcceptanceInWords(r: Rcv, s: Segment)
    requires r.count <= |r.buf|
    requires var d := s.seqno - r.rnext; -HALF <= d - r.Window() && d + s.Len() < HALF && r.Window() < HALF
    ensures AcceptableInWords(Word(r.rnext), r.Window(), Word(s.seqno), s.Len()) == Acceptable(r, s)
  {
    var w: int, n: int := r.Window(), s.Len();
    AcceptableTests(r, s);
    WordAdd(r.rnext, w - 1);
    WordAdd(s.seqno, n - 1);
    SameWord(s.seqno, r.rnext);
    SeqCmpExact(s.seqno, r.rnext);
    SeqCmpExact(s.seqno, r.rnext + (w - 1));
    SeqCmpExact(s.seqno + (n - 1), r.rnext);
    SeqCmpExact(s.seqno + (n - 1), r.rnext + (w - 1));
  }

  lemma SameWord(x: int, y: int)
    requires -HALF <= x - y < HALF
    ensures Word(x) == Word(y) <==> x == y
  {
    SeqCmpExact(x, y);
  }
}
