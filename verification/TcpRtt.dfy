/** The round trip estimator and the congestion window, as acknowledgements and retransmissions
    move them. Times are in hundredths of a second; srt is kept times 8 and rtde times 4. */
module TcpRtt {
  const SYSERR := -1
  const TCP_MINRXT := 50

  datatype Est = Est(srt: int, rtde: int, rexmt: int, cwnd: int, ssthresh: int, smss: int)

  // ----- what one event does -----

  function Abs(x: int): nat { if x < 0 then -x else x }

  /** The first half of tcprtt: a sample is taken in. */
  function Sample(e: Est, rrt: int): Est {
    var primed := if e.srt == 0 then 8 * rrt else e.srt;
    var delta := rrt - primed / 8;
    var srt := primed + delta;
    var rtde := e.rtde + Abs(delta) - e.rtde / 4;
    var rexmt := (srt / 4 + rtde) / 2;
    e.(srt := srt, rtde := rtde, rexmt := if rexmt < TCP_MINRXT then TCP_MINRXT else rexmt)
  }

  /** The second half: slow start below the threshold, about one segment a window above it. */
  function Open(e: Est): Est
    requires e.cwnd > 0
  {
    e.(cwnd := if e.cwnd < e.ssthresh then e.cwnd + e.smss else e.cwnd + e.smss * e.smss / e.cwnd)
  }

  /** tcprtt. There is no sample if the timer was not set, and none is taken while
      retransmitting. */
  function Acked(e: Est, rrt: int, rexmitting: bool): Est
    requires e.cwnd > 0
  {
    Open(if rrt != SYSERR && !rexmitting then Sample(e, rrt) else e)
  }

  /** What tcprexmt does to the windows. */
  function Dropped(e: Est, swindow: nat, rexmitting: bool): Est {
    var was := if rexmitting then e.ssthresh else e.cwnd;
    var half := (if swindow < was then swindow else was) / 2;
    e.(ssthresh := if half < e.smss then e.smss else half, cwnd := e.smss)
  }

  class RttTcb {
    var srt: int
    var rtde: int
    var rexmt: int
    var cwnd: int
    var ssthresh: int
    const smss: int

    /** tcpsync, and the windows of a new connection. */
    constructor (mss: int)
      requires mss > 0
      ensures View() == Est(0, 0, TCP_MINRXT, mss, 65535, mss)
    {
      srt, rtde, rexmt := 0, 0, TCP_MINRXT;
      cwnd, ssthresh, smss := mss, 65535, mss;
    }

    function View(): Est
      reads this
    {
      Est(srt, rtde, rexmt, cwnd, ssthresh, smss)
    }

    /** tcprtt; `rrt` is what tmclear returned for the retransmission timer. Shifts are of numbers
        that are not negative. */
    method TcpRtt(rrt: int, rexmitting: bool)
      requires cwnd > 0
      modifies this
      ensures View() == Acked(old(View()), rrt, rexmitting)
    {
      if rrt != SYSERR && !rexmitting {
        TakeSample(rrt);
      }
      if cwnd < ssthresh {
        cwnd := cwnd + smss;
      } else {
        cwnd := cwnd + smss * smss / cwnd;
      }
    }

    method TakeSample(rrt: int)
      modifies this
      ensures View() == Sample(old(View()), rrt)
    {
      if srt == 0 {
        srt := rrt * 8;
      }
      var delta := rrt - srt / 8;
      srt := srt + delta;
      if delta < 0 {
        delta := -delta;
      }
      rtde := rtde + (delta - rtde / 4);
      rexmt := (srt / 4 + rtde) / 2;
      if rexmt < TCP_MINRXT {
        rexmt := TCP_MINRXT;
      }
    }

    /** The end of tcprexmt. */
    method CutWindows(swindow: nat, rexmitting: bool)
      modifies this
      ensures View() == Dropped(old(View()), swindow, rexmitting)
    {
      if !rexmitting {
        ssthresh := cwnd;
      }
      ssthresh := (if swindow < ssthresh then swindow else ssthresh) / 2;
      if ssthresh < smss {
        ssthresh := smss;
      }
      cwnd := smss;
    }
  }

  // ----- runs -----

  datatype Event = Ack(rrt: int, rexmitting: bool) | Timeout(swindow: nat, rexmitting: bool)

  /** Every sample is between zero and `m`, or there is none. */
  predicate Within(ev: Event, m: nat) { ev.Ack? ==> ev.rrt == SYSERR || 0 <= ev.rrt <= m }

  /** The deviation is large only while the estimate is far from both ends of what the samples can be:
      srt moves towards whatever makes the deviation grow. The 11 is for the shifts, which round down. */
  predicate Coupled(srt: int, rtde: int, m: nat) { 7 * m * (rtde - 11) <= srt * (8 * m - srt) }

  /** How far each of the three can be for itself. */
  predicate Ranges(e: Est, m: nat) {
    && 0 <= e.srt <= 8 * m && 0 <= e.rtde <= 4 * m
    && TCP_MINRXT <= e.rexmt <= (if 3 * m < TCP_MINRXT then TCP_MINRXT else 3 * m)
  }

  /** The estimates are within what samples up to `m` can make of them, and the window holds a
      segment. */
  predicate Bounded(e: Est, m: nat) {
    && Ranges(e, m) && Coupled(e.srt, e.rtde, m)
    && (e.rexmt == TCP_MINRXT || 896 * e.rexmt <= 1521 * m + 4928)
    && 0 < e.smss <= e.cwnd && e.smss <= e.ssthresh
  }

  function Step(e: Est, ev: Event): Est
    requires e.cwnd > 0
  {
    match ev
    case Ack(rrt, rexmitting) => Acked(e, rrt, rexmitting)
    case Timeout(swindow, rexmitting) => Dropped(e, swindow, rexmitting)
  }

  lemma Times(a: nat, b: nat, c: nat)
    requires b <= c
    ensures 0 <= a * b <= a * c
  {
    assert a * c == a * b + a * (c - b);
  }

  lemma Cancel(m: nat, x: int, y: int)
    requires m > 0 && m * x <= m * y
    ensures x <= y
  {
    assert m * (x - y) == m * x - m * y;
    assert x > y ==> m * (x - y) > 0;
  }

  lemma Product(a: int, b: int, c: int, d: int)
    ensures (a + b) * (c + d) == a * c + a * d + b * c + b * d
  {
  }

  /** What the rounding shift leaves of the deviation. */
  lemma Decayed(m: nat, y: nat, g: nat, p: int)
    requires 7 * m * (y - 11) <= p
    ensures 4 * (7 * m * (y - y / 4 + g - 11)) <= 3 * p + 28 * (m * g) - 56 * m
  {
    var x, z := 3 * (y - 11) + 4 * g - 8, 4 * (y - y / 4 + g - 11);
    assert m * (x - z) >= 0 && m * (x - z) == m * x - m * z;
    assert m * x == 3 * (m * (y - 11)) + 4 * (m * g) - 8 * m;
    assert 7 * m * (y - 11) == 7 * (m * (y - 11));
    assert 4 * (7 * m * (y - y / 4 + g - 11)) == 7 * (m * z);
  }

  /** srt * (8m - srt), with srt as 8s + t and m as s + e. */
  lemma Spread(s: nat, t: nat, e: nat)
    ensures (8 * s + t) * (8 * (s + e) - (8 * s + t)) == 64 * (s * e) - 8 * (s * t) + 8 * (t * e) - t * t
  {
    var n: int := t;
    Product(8 * s, n, 8 * e, -n);
    assert (8 * s) * (8 * e) == 64 * (s * e) && (8 * s) * -n == -8 * (s * t) && t * (8 * e) == 8 * (t * e);
    assert n * -n == -(t * t);
  }

  /** The same with srt moved by `d`. */
  lemma SpreadMoved(s: nat, t: nat, e: nat, d: int)
    ensures var x := 8 * s + t; var m := s + e;
            (x + d) * (8 * m - (x + d))
            == 64 * (s * e) - 8 * (s * t) + 8 * (t * e) - t * t + 8 * (e * d) - 8 * (s * d) - 2 * (t * d) - d * d
  {
    var x := 8 * s + t;
    Spread(s, t, e);
    Product(x, d, 8 * e - t, -d);
    assert x * -d == -(8 * (s * d) + t * d) && d * (8 * e - t) == 8 * (e * d) - t * d && d * -d == -(d * d);
  }

  lemma SpreadDown(s: nat, t: nat, e: nat, f: nat)
    ensures var x := 8 * s + t; var m := s + e;
            (x - f) * (8 * m - (x - f))
            == 64 * (s * e) - 8 * (s * t) + 8 * (t * e) - t * t - 8 * (e * f) + 8 * (s * f) + 2 * (t * f) - f * f
  {
    var n: int := f;
    SpreadMoved(s, t, e, -n);
    assert e * -n == -(e * f) && s * -n == -(s * f) && t * -n == -(t * f) && -n * -n == f * f;
  }

  lemma Squares(t: nat, e: nat)
    requires t < 8 && (e == 0 ==> t == 0)
    ensures t * t <= 56 * e
  {
    Times(t, t, 7);
  }

  lemma DecayedAt(s: nat, e: nat, y: nat, g: nat, p: int)
    requires 7 * (s + e) * (y - 11) <= p
    ensures 4 * (7 * (s + e) * (y - y / 4 + g - 11)) <= 3 * p + 28 * (s * g + e * g) - 56 * (s + e)
  {
    Decayed(s + e, y, g, p);
    assert (s + e) * g == s * g + e * g;
  }

  lemma UpFacts(s: nat, t: nat, e: nat, d: nat)
    requires t < 8 && d <= e && (e == 0 ==> t == 0)
    ensures s * d <= s * e && t * d <= t * e && d * d <= e * d && s * t <= 7 * s && t * t <= 56 * e
  {
    Times(s, d, e);
    Times(t, d, e);
    Times(d, d, e);
    assert d * e == e * d;
    Times(s, t, 7);
    Squares(t, e);
  }

  lemma DownFacts(s: nat, t: nat, e: nat, f: nat)
    requires t < 8 && f <= s && (e == 0 ==> t == 0)
    ensures e * f <= s * e && f * f <= s * f && 0 <= t * e && 0 <= t * f && s * t <= 7 * s && t * t <= 56 * e
  {
    Times(e, f, s);
    Times(f, f, s);
    assert e * s == s * e && f * s == s * f;
    Times(t, 0, e);
    Times(t, 0, f);
    Times(s, t, 7);
    Squares(t, e);
  }

  /** What a move of srt by `d` upwards leaves of srt * (8m - srt) makes up for what the deviation can
      gain. */
  lemma RoomUp(s: nat, t: nat, e: nat, d: nat)
    requires t < 8 && d <= e && (e == 0 ==> t == 0)
    ensures var x := 8 * s + t; var m := s + e;
            3 * (x * (8 * m - x)) + 28 * (s * d + e * d) - 56 * m <= 4 * ((x + d) * (8 * m - (x + d)))
  {
    Spread(s, t, e);
    SpreadMoved(s, t, e, d);
    UpFacts(s, t, e, d);
    UpSum(s, e, s * e, s * d, s * t, t * e, t * d, t * t, e * d, d * d);
  }

  lemma UpSum(s: nat, e: nat, se: nat, sd: int, st: int, te: int, td: int, tt: int, ed: int, dd: int)
    requires sd <= se && td <= te && dd <= ed && st <= 7 * s && tt <= 56 * e
    ensures 3 * (64 * se - 8 * st + 8 * te - tt) + 28 * (sd + ed) - 56 * (s + e)
            <= 4 * (64 * se - 8 * st + 8 * te - tt + 8 * ed - 8 * sd - 2 * td - dd)
  {
  }

  /** And one downwards. */
  lemma RoomDown(s: nat, t: nat, e: nat, f: nat)
    requires t < 8 && f <= s && (e == 0 ==> t == 0)
    ensures var x := 8 * s + t; var m := s + e;
            3 * (x * (8 * m - x)) + 28 * (s * f + e * f) - 56 * m <= 4 * ((x - f) * (8 * m - (x - f)))
  {
    Spread(s, t, e);
    SpreadDown(s, t, e, f);
    DownFacts(s, t, e, f);
    DownSum(s, e, s * e, s * f, s * t, t * e, t * f, t * t, e * f, f * f);
  }

  lemma DownSum(s: nat, e: nat, se: nat, sf: int, st: int, te: nat, tf: nat, tt: int, ef: int, ff: int)
    requires ef <= se && ff <= sf && st <= 7 * s && tt <= 56 * e
    ensures 3 * (64 * se - 8 * st + 8 * te - tt) + 28 * (sf + ef) - 56 * (s + e)
            <= 4 * (64 * se - 8 * st + 8 * te - tt - 8 * ef + 8 * sf + 2 * tf - ff)
  {
  }

  /** A sample above the estimate. */
  lemma CoupledUp(s: nat, t: nat, e: nat, d: nat, y: nat)
    requires t < 8 && d <= e && (e == 0 ==> t == 0) && Coupled(8 * s + t, y, s + e)
    ensures Coupled(8 * s + t + d, y - y / 4 + d, s + e)
  {
    DecayedAt(s, e, y, d, (8 * s + t) * (8 * (s + e) - (8 * s + t)));
    RoomUp(s, t, e, d);
  }

  /** A sample below it. */
  lemma CoupledDown(s: nat, t: nat, e: nat, f: nat, y: nat)
    requires t < 8 && f <= s && (e == 0 ==> t == 0) && Coupled(8 * s + t, y, s + e)
    ensures Coupled(8 * s + t - f, y - y / 4 + f, s + e)
  {
    DecayedAt(s, e, y, f, (8 * s + t) * (8 * (s + e) - (8 * s + t)));
    RoomDown(s, t, e, f);
  }

  /** Every sample keeps the coupling. */
  lemma SampleCoupled(srt: int, rtde: int, m: nat, rrt: nat)
    requires 0 < srt <= 8 * m && 0 <= rtde && Coupled(srt, rtde, m) && rrt <= m
    ensures var delta := rrt - srt / 8; Coupled(srt + delta, rtde + Abs(delta) - rtde / 4, m)
  {
    var s, t: nat := srt / 8, srt % 8;
    var e: nat := m - s;
    assert srt == 8 * s + t && m == s + e;
    if rrt >= s { CoupledUp(s, t, e, rrt - s, rtde); } else { CoupledDown(s, t, e, s - rrt, rtde); }
  }

  lemma TimeoutBound(srt: nat, rtde: nat, m: nat)
    requires m > 0 && Coupled(srt, rtde, m)
    ensures 896 * ((srt / 4 + rtde) / 2) <= 1521 * m + 4928
  {
    var r: nat := (srt / 4 + rtde) / 2;
    TimeoutTimes(m, r, srt, rtde);
    CoupledTimes(m, srt, rtde);
    FarFromTop(m, srt);
    TimeoutSum(m * r, m * srt, m * rtde, srt * srt, m * m, m);
    assert m * (896 * r) == 896 * (m * r);
    assert m * (1521 * m + 4928) == 1521 * (m * m) + 4928 * m;
    Cancel(m, 896 * r, 1521 * m + 4928);
  }

  lemma TimeoutTimes(m: nat, r: nat, srt: nat, rtde: nat)
    requires 8 * r <= srt + 4 * rtde
    ensures 8 * (m * r) <= m * srt + 4 * (m * rtde)
  {
    Times(m, 8 * r, srt + 4 * rtde);
    assert m * (8 * r) == 8 * (m * r);
    assert m * (srt + 4 * rtde) == m * srt + 4 * (m * rtde);
  }

  lemma CoupledTimes(m: nat, srt: int, rtde: int)
    requires Coupled(srt, rtde, m)
    ensures 7 * (m * rtde) - 77 * m <= 8 * (m * srt) - srt * srt
  {
    assert 7 * m * (rtde - 11) == 7 * (m * rtde) - 77 * m;
    assert srt * (8 * m - srt) == 8 * (m * srt) - srt * srt;
  }

  lemma FarFromTop(m: int, srt: int)
    ensures 1521 * (m * m) - 624 * (m * srt) + 64 * (srt * srt) >= 0
  {
    Square(39 * m, 8 * srt);
    assert (39 * m) * (39 * m) == 1521 * (m * m);
    assert (39 * m) * (8 * srt) == 312 * (m * srt);
    assert (8 * srt) * (8 * srt) == 64 * (srt * srt);
  }

  lemma Square(a: int, b: int)
    ensures a * a - 2 * (a * b) + b * b >= 0
  {
    Product(a, -b, a, -b);
    assert a * -b == -(a * b) && -b * a == -(a * b) && -b * -b == b * b;
    assert (a - b) * (a - b) >= 0;
  }

  lemma TimeoutSum(mr: int, ms: int, my: int, ss: int, mm: int, m: int)
    requires 8 * mr <= ms + 4 * my && 7 * my - 77 * m <= 8 * ms - ss
    requires 1521 * mm - 624 * ms + 64 * ss >= 0
    ensures 896 * mr <= 1521 * mm + 4928 * m
  {
  }

  lemma SampleRanges(e: Est, m: nat, rrt: nat)
    requires Ranges(e, m) && rrt <= m
    ensures Ranges(Sample(e, rrt), m)
  {
    var primed := if e.srt == 0 then 8 * rrt else e.srt;
    var delta := rrt - primed / 8;
    assert 0 <= primed / 8 <= m;
    assert Abs(delta) <= m;
  }

  lemma SampleCouples(e: Est, m: nat, rrt: nat)
    requires Ranges(e, m) && Coupled(e.srt, e.rtde, m) && rrt <= m
    ensures var d := Sample(e, rrt); Coupled(d.srt, d.rtde, m)
  {
    if e.srt == 0 { PrimedCoupled(e.rtde, m, rrt); } else { SampleCoupled(e.srt, e.rtde, m, rrt); }
  }

  lemma SampleKeeps(e: Est, m: nat, rrt: nat)
    requires Bounded(e, m) && rrt <= m
    ensures Bounded(Sample(e, rrt), m)
  {
    SampleRanges(e, m, rrt);
    SampleCouples(e, m, rrt);
    var d := Sample(e, rrt);
    if m > 0 { TimeoutBound(d.srt, d.rtde, m); }
  }

  lemma PrimedCoupled(rtde: nat, m: nat, rrt: nat)
    requires Coupled(0, rtde, m) && rrt <= m
    ensures Coupled(8 * rrt, rtde - rtde / 4, m)
  {
    Times(8 * rrt, 0, 8 * m - 8 * rrt);
    if m > 0 {
      assert 7 * m * (rtde - 11) == 7 * (m * (rtde - 11)) && m * 0 == 0;
      Cancel(m, rtde - 11, 0);
      Times(7 * m, 0, 11 - (rtde - rtde / 4));
      assert 7 * m * (rtde - rtde / 4 - 11) == -(7 * m * (11 - (rtde - rtde / 4)));
    }
  }

  lemma GrowthFits(smss: int, cwnd: int)
    requires 0 < smss <= cwnd
    ensures 0 <= smss * smss / cwnd <= smss
  {
    var square := smss * smss;
    Larger(smss, smss, cwnd);
    DivideBound(square, smss, cwnd);
  }

  lemma Larger(a: nat, b: nat, c: nat)
    requires b <= c
    ensures 0 <= a * b <= a * c
  {
    assert a * c == a * b + a * (c - b);
  }

  lemma DivideBound(x: nat, y: nat, d: nat)
    requires d > 0 && x <= y * d
    ensures x / d <= y
  {
    var q := x / d;
    assert x == q * d + x % d;
    assert q >= y + 1 ==> q * d >= y * d + d by { if q >= y + 1 { Larger(d, y + 1, q); } }
  }

  lemma StepKeeps(e: Est, m: nat, ev: Event)
    requires Bounded(e, m) && Within(ev, m)
    ensures Bounded(Step(e, ev), m) && Step(e, ev).smss == e.smss
  {
    if ev.Ack? {
      if ev.rrt != SYSERR && !ev.rexmitting { SampleKeeps(e, m, ev.rrt); }
      GrowthFits(e.smss, e.cwnd);
    }
  }

  ghost predicate RunWithin(evs: seq<Event>, m: nat) { forall ev :: ev in evs ==> Within(ev, m) }

  function Run(e: Est, m: nat, evs: seq<Event>): Est
    requires Bounded(e, m) && RunWithin(evs, m)
    decreases |evs|
  {
    if evs == [] then e else
      (StepKeeps(e, m, evs[0]); Run(Step(e, evs[0]), m, evs[1..]))
  }

  lemma {:induction false} StaysBounded(e: Est, m: nat, evs: seq<Event>)
    requires Bounded(e, m) && RunWithin(evs, m)
    ensures Bounded(Run(e, m, evs), m)
    decreases |evs|
  {
    if evs != [] {
      StepKeeps(e, m, evs[0]);
      StaysBounded(Step(e, evs[0]), m, evs[1..]);
    }
  }

  /** The state of a new connection. */
  function Fresh(mss: nat): Est { Est(0, 0, TCP_MINRXT, mss, 65535, mss) }

  /** Over any run of a connection with samples from 0 to `m`: srt is at most 8m and rtde at most 4m
      and at most 16m/7 + 11, neither is negative, the timeout is between half a second and the larger
      of that and 3m, and of that and 1.7m + 5.5, and the congestion window holds at least one segment. */
  lemma RunKeeps(mss: nat, m: nat, evs: seq<Event>)
    requires 0 < mss <= 65535 && RunWithin(evs, m)
    ensures var e := Run(Fresh(mss), m, evs);
            && Bounded(e, m) && 7 * (e.rtde - 11) <= 16 * m
            && (e.rexmt == TCP_MINRXT || 10 * e.rexmt <= 17 * m + 55)
  {
    StaysBounded(Fresh(mss), m, evs);
    var e := Run(Fresh(mss), m, evs);
    if m > 0 { MostDeviation(e.srt, e.rtde, m); }
  }

  lemma MostDeviation(srt: int, rtde: int, m: nat)
    requires m > 0 && Coupled(srt, rtde, m)
    ensures 7 * (rtde - 11) <= 16 * m
  {
    CoupledTimes(m, srt, rtde);
    Square(srt, 4 * m);
    assert srt * (4 * m) == 4 * (m * srt) && (4 * m) * (4 * m) == 16 * (m * m);
    assert m * (7 * (rtde - 11)) == 7 * (m * rtde) - 77 * m && m * (16 * m) == 16 * (m * m);
    Cancel(m, 7 * (rtde - 11), 16 * m);
  }

  /** The first bound is reached by a run, for every `m`: the first sample may be the largest. */
  lemma SrtReached(mss: nat, m: nat)
    requires 0 < mss <= 65535
    ensures RunWithin([Ack(m, false)], m) && Run(Fresh(mss), m, [Ack(m, false)]).srt == 8 * m
  {
    StepKeeps(Fresh(mss), m, Ack(m, false));
    assert Run(Step(Fresh(mss), Ack(m, false)), m, [Ack(m, false)][1..]).srt == 8 * m;
  }

  /** A run with a sample in front. */
  lemma RunFrom(e: Est, m: nat, r: nat, evs: seq<Event>) returns (d: Est)
    requires Bounded(e, m) && RunWithin(evs, m) && r <= m
    ensures Bounded(d, m) && d.srt == Sample(e, r).srt && d.rtde == Sample(e, r).rtde
    ensures RunWithin([Ack(r, false)] + evs, m) && Run(e, m, [Ack(r, false)] + evs) == Run(d, m, evs)
  {
    var all := [Ack(r, false)] + evs;
    StepKeeps(e, m, all[0]);
    d := Step(e, all[0]);
    assert all[1..] == evs;
  }

  /** That of 4m is reached too, for `m` = 1. */
  lemma RtdeReached(mss: nat, m: nat) returns (evs: seq<Event>)
    requires 0 < mss <= 65535 && m == 1
    ensures RunWithin(evs, m) && Run(Fresh(mss), m, evs).rtde == 4 * m
  {
    var last: seq<Event> := [];
    var four := [Ack(m, false)] + last;
    var three := [Ack(0, false)] + four;
    var two := [Ack(m, false)] + three;
    var one := [Ack(0, false)] + two;
    evs := [Ack(m, false)] + one;
    var e := RunFrom(Fresh(mss), m, m, one);
    assert e.srt == 8 && e.rtde == 0;
    e := RunFrom(e, m, 0, two);
    assert e.srt == 7 && e.rtde == 1;
    e := RunFrom(e, m, m, three);
    assert e.srt == 8 && e.rtde == 2;
    e := RunFrom(e, m, 0, four);
    assert e.srt == 7 && e.rtde == 3;
    e := RunFrom(e, m, m, last);
  }

  /** A sample of m and then five of zero bring rtde to 2.2m, and after four of them the timeout is
      1.66m; m is a multiple of 8^5 here, so that no shift rounds. */
  lemma NearlyReached(mss: nat, m: nat, k: nat) returns (four: seq<Event>, five: seq<Event>)
    requires 0 < mss <= 65535 && k > 0 && m == 32768 * k
    ensures RunWithin(four, m) && Run(Fresh(mss), m, four).rexmt == 54568 * k
    ensures RunWithin(five, m) && Run(Fresh(mss), m, five).rtde == 72248 * k
  {
    four, five := [Ack(m, false)] + Zeros(4), [Ack(m, false)] + Zeros(5);
    var e := RunFrom(Fresh(mss), m, m, Zeros(4));
    FourZeros(e, m, k);
    e := RunFrom(Fresh(mss), m, m, Zeros(5));
    FiveZeros(e, m, k);
  }

  function Zeros(n: nat): (evs: seq<Event>)
    ensures forall ev :: ev in evs ==> ev == Ack(0, false)
  {
    if n == 0 then [] else [Ack(0, false)] + Zeros(n - 1)
  }

  /** A sample of zero, with nothing to round. */
  lemma ZeroSample(e: Est, m: nat, n: nat, a: nat, b: nat) returns (d: Est)
    requires Bounded(e, m) && n > 0 && a > 0 && e.srt == 8 * a && e.rtde == 4 * b
    ensures Bounded(d, m) && d.srt == 7 * a && d.rtde == 3 * b + a
    ensures var r := (7 * a / 4 + 3 * b + a) / 2; d.rexmt == if r < TCP_MINRXT then TCP_MINRXT else r
    ensures RunWithin(Zeros(n), m) && Run(e, m, Zeros(n)) == Run(d, m, Zeros(n - 1))
  {
    StepKeeps(e, m, Ack(0, false));
    d := Step(e, Ack(0, false));
    assert Zeros(n)[0] == Ack(0, false) && Zeros(n)[1..] == Zeros(n - 1);
  }

  lemma ThreeZeros(e: Est, m: nat, k: nat, n: nat) returns (d: Est)
    requires Bounded(e, m) && k > 0 && e.srt == 8 * (32768 * k) && e.rtde == 0 && n >= 3
    ensures Bounded(d, m) && d.srt == 175616 * k && d.rtde == 65024 * k
    ensures RunWithin(Zeros(n), m) && Run(e, m, Zeros(n)) == Run(d, m, Zeros(n - 3))
  {
    d := ZeroSample(e, m, n, 32768 * k, 0);
    d := ZeroSample(d, m, n - 1, 28672 * k, 8192 * k);
    d := ZeroSample(d, m, n - 2, 25088 * k, 13312 * k);
  }

  lemma FourZeros(e: Est, m: nat, k: nat)
    requires Bounded(e, m) && k > 0 && e.srt == 8 * (32768 * k) && e.rtde == 0
    ensures RunWithin(Zeros(4), m) && Run(e, m, Zeros(4)).rexmt == 54568 * k
  {
    var d := ThreeZeros(e, m, k, 4);
    d := ZeroSample(d, m, 1, 21952 * k, 16256 * k);
    assert Zeros(0) == [];
  }

  lemma FiveZeros(e: Est, m: nat, k: nat)
    requires Bounded(e, m) && k > 0 && e.srt == 8 * (32768 * k) && e.rtde == 0
    ensures RunWithin(Zeros(5), m) && Run(e, m, Zeros(5)).rtde == 72248 * k
  {
    var d := ThreeZeros(e, m, k, 5);
    d := ZeroSample(d, m, 2, 21952 * k, 16256 * k);
    d := ZeroSample(d, m, 1, 19208 * k, 17680 * k);
    assert Zeros(0) == [];
  }

  // ----- the estimator settles -----

  /** How far the estimate is from the ones that stand for `r`. */
  function Gap(srt: int, r: nat): nat {
    if srt < 8 * r then 8 * r - srt else if srt > 8 * r + 7 then srt - (8 * r + 7) else 0
  }

  /** A sample moves the estimate towards itself and not past itself; one that agrees moves it not
      at all. */
  lemma Towards(e: Est, r: nat)
    requires e.srt >= 0
    ensures var s := Sample(e, r).srt;
            && (e.srt == 0 || Gap(e.srt, r) == 0 ==> Gap(s, r) == 0)
            && (Gap(e.srt, r) > 0 ==> Gap(s, r) < Gap(e.srt, r))
            && (e.srt > 8 * r + 7 ==> s >= 8 * r) && (0 < e.srt < 8 * r ==> s <= 8 * r + 7)
  {
  }

  function Repeat(e: Est, r: nat, n: nat): Est
    decreases n
  {
    if n == 0 then e else Repeat(Sample(e, r), r, n - 1)
  }

  /** Under a constant round trip time the estimate becomes that time and stays. */
  lemma {:induction false} Settles(e: Est, r: nat, n: nat)
    requires e.srt >= 0 && n >= Gap(e.srt, r)
    ensures Repeat(e, r, n).srt / 8 == r
    decreases n
  {
    if n > 0 {
      Towards(e, r);
      Settles(Sample(e, r), r, n - 1);
    }
  }
}
