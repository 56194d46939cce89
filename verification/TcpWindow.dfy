/** What the round trip estimator computes, up to the rounding of its shifts, and how the congestion
    window grows between losses. */
module TcpWindow {
  import opened TcpRtt

  // ----- the estimator -----

  /** With `srt` the estimate times 8 and `rtde` the deviation times 4, a sample moves the estimate an
      eighth of the way to itself and the deviation a quarter of the way to the distance, and the timeout
      is the estimate and twice the deviation: each as close as whole numbers allow, which the bounds
      leave no choice about. The first sample is taken for the estimate. */
  lemma SampleExact(e: Est, rrt: nat)
    requires e.srt >= 0 && e.rtde >= 0
    ensures var d := Sample(e, rrt); var was := if e.srt == 0 then 8 * rrt else e.srt;
            var far := if rrt >= was / 8 then rrt - was / 8 else was / 8 - rrt;
            && 0 <= 8 * d.srt - (7 * was + 8 * rrt) < 8
            && 0 <= 4 * d.rtde - (3 * e.rtde + 4 * far) < 4
            && (exists r :: 0 <= d.srt + 4 * d.rtde - 8 * r < 8 && d.rexmt == if r > 50 then r else 50)
            && d.cwnd == e.cwnd && d.ssthresh == e.ssthresh && d.smss == e.smss
  {
    var d := Sample(e, rrt);
    var r := (d.srt / 4 + d.rtde) / 2;
    assert 0 <= d.srt + 4 * d.rtde - 8 * r < 8;
  }

  /** An acknowledgement that comes while retransmitting, or with no timer running, says nothing about the
      round trip. */
  lemma NoSample(e: Est, rrt: int, rexmitting: bool)
    requires e.cwnd > 0
    ensures var d := Acked(e, rrt, rexmitting);
            && (rexmitting || rrt == SYSERR ==> d == e.(cwnd := d.cwnd))
            && (!rexmitting && rrt != SYSERR ==> d == Sample(e, rrt).(cwnd := d.cwnd))
            && d.cwnd == Open(e).cwnd
  {
  }

  // ----- the window between losses -----

  /** The window after `n` acknowledgements. */
  function Acks(e: Est, n: nat): (d: Est)
    requires 0 < e.smss && 0 < e.cwnd
    ensures d == e.(cwnd := d.cwnd) && d.cwnd >= e.cwnd
    decreases n
  {
    if n == 0 then e else
      (var o := Open(e); GrowthNotLess(e.smss, e.cwnd); Acks(o, n - 1))
  }

  lemma GrowthNotLess(smss: nat, cwnd: nat)
    requires cwnd > 0
    ensures smss * smss / cwnd >= 0
  {
  }

  /** Below the threshold every acknowledgement adds a segment. */
  lemma {:induction false} SlowStart(e: Est, n: nat)
    requires 0 < e.smss && 0 < e.cwnd && (n > 0 ==> e.cwnd + (n - 1) * e.smss < e.ssthresh)
    ensures Acks(e, n).cwnd == e.cwnd + n * e.smss
    decreases n
  {
    if n > 0 {
      assert (n - 1) * e.smss >= 0 && n * e.smss == (n - 1) * e.smss + e.smss;
      assert n > 1 ==> (n - 1) * e.smss == (n - 2) * e.smss + e.smss;
      SlowStart(Open(e), n - 1);
    }
  }

  /** One acknowledgement above it: the window times what is added comes as close to a segment squared as
      whole numbers allow. */
  lemma OpenAbove(e: Est)
    requires 0 < e.smss && e.ssthresh <= e.cwnd && 0 < e.cwnd
    ensures var add := Open(e).cwnd - e.cwnd;
            0 <= add && e.cwnd * add <= e.smss * e.smss < e.cwnd * (add + 1)
  {
    var x := e.smss * e.smss;
    Quotient(x, e.cwnd);
  }

  lemma Quotient(x: nat, d: nat)
    requires d > 0
    ensures 0 <= x / d && d * (x / d) <= x < d * (x / d + 1)
  {
    var q := x / d;
    assert x == d * q + x % d;
    assert d * (q + 1) == d * q + d;
  }

  /** Above it, any number of acknowledgements add what the window allows: `n` of them at most n segments
      squared over the window, and more than that over the window reached, less one octet for each. */
  lemma {:induction false} Linear(e: Est, n: nat)
    requires 0 < e.smss && e.ssthresh <= e.cwnd && 0 < e.cwnd
    ensures var d := Acks(e, n); var add := d.cwnd - e.cwnd; var square := e.smss * e.smss;
            && e.cwnd * add <= n * square
            && n * square <= d.cwnd * (add + n)
    decreases n
  {
    if n > 0 {
      var o, d := Open(e), Acks(e, n);
      OpenAbove(e);
      Linear(o, n - 1);
      LinearSum(e.cwnd, o.cwnd, d.cwnd, e.smss * e.smss, n);
    }
  }

  lemma LinearSum(c: nat, o: nat, d: nat, square: nat, n: nat)
    requires 0 < c <= o <= d && n > 0
    requires c * (o - c) <= square < c * (o - c + 1)
    requires o * (d - o) <= (n - 1) * square && (n - 1) * square <= d * (d - o + (n - 1))
    ensures c * (d - c) <= n * square && n * square <= d * (d - c + n)
  {
    Times(d - o, c, o);
    assert c * (d - c) == c * (d - o) + c * (o - c);
    assert n * square == (n - 1) * square + square;
    assert c * (d - o) == (d - o) * c && o * (d - o) == (d - o) * o;
    Times(o - c + 1, c, d);
    assert c * (o - c + 1) == (o - c + 1) * c && d * (o - c + 1) == (o - c + 1) * d;
    assert d * (d - c + n) == d * (d - o + (n - 1)) + d * (o - c + 1);
  }

  lemma SquareTimes(n: nat, s: nat)
    ensures n * (s * s) == (n * s) * s
  {
  }

  lemma TimesLess(a: nat, b: nat, s: nat)
    requires a <= b
    ensures a * s <= b * s
  {
    Times(s, a, b);
    assert a * s == s * a && b * s == s * b;
  }

  /** So the acknowledgements of one window, a segment each, add at most one segment. */
  lemma OneWindow(e: Est, n: nat)
    requires 0 < e.smss && e.ssthresh <= e.cwnd && 0 < e.cwnd && n * e.smss <= e.cwnd
    ensures Acks(e, n).cwnd <= e.cwnd + e.smss
  {
    Linear(e, n);
    SquareTimes(n, e.smss);
    TimesLess(n * e.smss, e.cwnd, e.smss);
    Cancel(e.cwnd, Acks(e, n).cwnd - e.cwnd, e.smss);
  }

  /** And if they cover the window they add, with what the whole numbers take, nearly that much. */
  lemma OneWindowAtLeast(e: Est, n: nat)
    requires 0 < e.smss <= e.cwnd && e.ssthresh <= e.cwnd && n * e.smss <= e.cwnd < n * e.smss + e.smss
    ensures (e.cwnd - e.smss) * e.smss <= (e.cwnd + e.smss) * (Acks(e, n).cwnd - e.cwnd + n)
  {
    Linear(e, n);
    OneWindow(e, n);
    SquareTimes(n, e.smss);
    TimesLess(e.cwnd - e.smss, n * e.smss, e.smss);
    TimesLess(Acks(e, n).cwnd, e.cwnd + e.smss, Acks(e, n).cwnd - e.cwnd + n);
  }

  // ----- a loss -----

  /** A retransmission leaves a window of one segment, and as the threshold half of what could be in
      flight, the peer's window or the congestion window, but a segment at least. While retransmitting the
      threshold itself is halved. */
  lemma DroppedExact(e: Est, swindow: nat, rexmitting: bool)
    requires 0 < e.smss
    ensures var d := Dropped(e, swindow, rexmitting); var was := if rexmitting then e.ssthresh else e.cwnd;
            && d == e.(cwnd := e.smss, ssthresh := d.ssthresh)
            && d.ssthresh >= e.smss
            && (d.ssthresh > e.smss ==> 2 * d.ssthresh <= swindow && 2 * d.ssthresh <= was)
            && (2 * (d.ssthresh + 1) > swindow || 2 * (d.ssthresh + 1) > was)
  {
  }

  /** After a loss the window opens by a segment an acknowledgement until it reaches half of what it was. */
  lemma AfterLoss(e: Est, swindow: nat, n: nat)
    requires 0 < e.smss && e.cwnd <= swindow && (n > 0 ==> 2 * (n * e.smss) + 1 < e.cwnd)
    ensures Acks(Dropped(e, swindow, false), n).cwnd == (n + 1) * e.smss
  {
    var d := Dropped(e, swindow, false);
    if n > 0 {
      assert n * e.smss == e.smss + (n - 1) * e.smss;
      assert 2 * d.ssthresh + 2 > e.cwnd;
    }
    SlowStart(d, n);
    assert (n + 1) * e.smss == n * e.smss + e.smss;
  }
}
