/** The routing table as a book that says, for each net and mask, where packets go. Each entry of the
    book has a history of its own: what a call does to it depends on nothing else in the table. */
module RouteBook {
  import opened Wrappers
  import opened RouteHash
  import opened Routes
  import opened RouteRuns
  import opened RouteLookup

  // ----- deletion -----

  /** The routes of a bucket that are not for this net and mask. */
  function Others(rt: seq<Rt>, c: seq<Rid>, net: IPaddr, mask: IPaddr): seq<Rid>
    requires |rt| == RT_BPSIZE
  {
    if c == [] then []
    else (if rt[c[0]].net == net && rt[c[0]].mask == mask then [] else [c[0]]) + Others(rt, c[1..], net, mask)
  }

  lemma {:induction false} OthersIn(rt: seq<Rt>, c: seq<Rid>, net: IPaddr, mask: IPaddr, r: Rid)
    requires |rt| == RT_BPSIZE
    ensures r in Others(rt, c, net, mask) <==> r in c && !(rt[r].net == net && rt[r].mask == mask)
    decreases |c|
  {
    if c != [] { OthersIn(rt, c[1..], net, mask, r); }
  }

  ghost predicate AllElsewhere(rt: seq<Rt>, c: seq<Rid>, net: IPaddr, mask: IPaddr)
    requires |rt| == RT_BPSIZE
  {
    forall i :: 0 <= i < |c| ==> Elsewhere(rt[c[i]], net, mask)
  }

  predicate Elsewhere(x: Rt, net: IPaddr, mask: IPaddr) { x.net != net || x.mask != mask }

  lemma {:induction false} OthersAll(rt: seq<Rt>, c: seq<Rid>, net: IPaddr, mask: IPaddr)
    requires |rt| == RT_BPSIZE && AllElsewhere(rt, c, net, mask)
    ensures Others(rt, c, net, mask) == c
    decreases |c|
  {
    if c != [] { OthersAll(rt, c[1..], net, mask); }
  }

  lemma {:induction false} OthersCut(rt: seq<Rt>, c: seq<Rid>, net: IPaddr, mask: IPaddr, i: nat)
    requires |rt| == RT_BPSIZE && i < |c| && rt[c[i]].net == net && rt[c[i]].mask == mask
    requires AllElsewhere(rt, c[..i], net, mask) && AllElsewhere(rt, c[i + 1..], net, mask)
    ensures Others(rt, c, net, mask) == c[..i] + c[i + 1..]
    decreases |c|
  {
    if i == 0 {
      OthersAll(rt, c[1..], net, mask);
    } else {
      assert c[..i][0] == c[0] && c[..i][1..] == c[1..][..i - 1] && c[1..][i..] == c[i + 1..];
      ElsewhereTail(rt, c[..i], net, mask);
      OthersCut(rt, c[1..], net, mask, i - 1);
    }
  }

  lemma ElsewhereDrop(rt: seq<Rt>, c: seq<Rid>, k: nat, net: IPaddr, mask: IPaddr)
    requires |rt| == RT_BPSIZE && k <= |c| && forall j :: k <= j < |c| ==> Elsewhere(rt[c[j]], net, mask)
    ensures AllElsewhere(rt, c[k..], net, mask)
  {
  }

  lemma ElsewhereTail(rt: seq<Rt>, c: seq<Rid>, net: IPaddr, mask: IPaddr)
    requires |rt| == RT_BPSIZE && c != [] && AllElsewhere(rt, c, net, mask)
    ensures AllElsewhere(rt, c[1..], net, mask) && Elsewhere(rt[c[0]], net, mask)
  {
    forall i | 0 <= i < |c[1..]| ensures Elsewhere(rt[c[1..][i]], net, mask) {
      assert c[1..][i] == c[i + 1];
    }
  }

  /** At most one route of a bucket is for a net and mask, and none in another bucket. */
  lemma BucketOthers(s: Sys, a: nat, net: IPaddr, mask: IPaddr)
    requires Sound(s) && a < RT_TSIZE
    ensures a != Hash(net) ==> AllElsewhere(s.rt, s.chains[a], net, mask)
    ensures forall i :: 0 <= i < |s.chains[a]| && s.rt[s.chains[a][i]].net == net && s.rt[s.chains[a][i]].mask == mask
                        ==> AllElsewhere(s.rt, s.chains[a][..i], net, mask)
                            && AllElsewhere(s.rt, s.chains[a][i + 1..], net, mask)
  {
    var c := s.chains[a];
    assert ChainOk(s, a);
    if a != Hash(net) {
      forall i | 0 <= i < |c| ensures Elsewhere(s.rt[c[i]], net, mask) { assert NodeOk(s, a, c[i]); }
    }
    forall i | 0 <= i < |c| && s.rt[c[i]].net == net && s.rt[c[i]].mask == mask
      ensures AllElsewhere(s.rt, c[..i], net, mask) && AllElsewhere(s.rt, c[i + 1..], net, mask)
    {
      forall j | 0 <= j < i ensures Elsewhere(s.rt[c[..i][j]], net, mask) {
        assert Ahead(s.rt[c[j]], s.rt[c[i]]);
      }
      forall j | i < j < |c| ensures Elsewhere(s.rt[c[j]], net, mask) { assert Ahead(s.rt[c[i]], s.rt[c[j]]); }
      ElsewhereDrop(s.rt, c, i + 1, net, mask);
    }
  }

  /** The buffers say what they said, but for the counts of references. */
  ghost predicate SameRecords(s: Sys, t: Sys)
    requires s.Sized() && t.Sized()
  {
    forall r: Rid :: t.rt[r] == s.rt[r].(refcnt := t.rt[r].refcnt)
  }

  /** Exactly what rtdel takes out: the default if it is for the net, whatever the mask; otherwise the
      routes, and that is one at most, for this net and this mask, and no other. The order stays, and
      every record. */
  lemma DelExact(s: Sys, net: IPaddr, mask: IPaddr)
    requires Sound(s)
    ensures var t := Del(s, net, mask);
            && t.Sized() && SameRecords(s, t)
            && (DefaultFor(s, net) ==> t.dflt == NULL && t.chains == s.chains)
            && (!DefaultFor(s, net) ==>
                  && t.dflt == s.dflt
                  && forall a: nat :: a < RT_TSIZE ==> t.chains[a] == Others(s.rt, s.chains[a], net, mask))
  {
    DelKeeps(s, net, mask);
    if !DefaultFor(s, net) {
      forall a: nat | a < RT_TSIZE
        ensures Del(s, net, mask).chains[a] == Others(s.rt, s.chains[a], net, mask)
      {
        DelBucket(s, net, mask, a);
      }
    }
  }

  lemma DelBucket(s: Sys, net: IPaddr, mask: IPaddr, a: nat)
    requires Sound(s) && !DefaultFor(s, net) && a < RT_TSIZE
    ensures var t := Del(s, net, mask); t.Sized() && t.chains[a] == Others(s.rt, s.chains[a], net, mask)
  {
    DelKeeps(s, net, mask);
    var c := s.chains[a];
    BucketOthers(s, a, net, mask);
    var i := Find(s.rt, c, net, mask);
    if a == Hash(net) && i < |c| {
      OthersCut(s.rt, c, net, mask, i);
    } else {
      OthersAll(s.rt, c, net, mask);
    }
  }

  // ----- addition -----

  /** What a route says, but for the net and mask it is for. */
  datatype Info = Info(gw: IPaddr, metric: nat, ifnum: nat, ttl: int)

  function InfoOf(x: Rt): Info { Info(x.gw, x.metric, x.ifnum, x.ttl) }

  /** The buffers say what they said, but for what `r` says. */
  ghost predicate SameInfo(s: Sys, t: Sys, but: int)
    requires s.Sized() && t.Sized()
  {
    forall r: Rid :: t.rt[r].net == s.rt[r].net && t.rt[r].mask == s.rt[r].mask
                     && (r != but ==> InfoOf(t.rt[r]) == InfoOf(s.rt[r]))
  }

  /** What rtadd makes of a route for a net and mask that has one already, at place `i`: that one with
      another metric, or nothing, or the new one in its place. */
  lemma AddDup(s: Sys, n: Rid, i: nat)
    requires Fresh(s, n) && s.rt[n].net != IP_ANYADDR
    requires var c := s.chains[Hash(s.rt[n].net)];
             i < |c| && s.rt[c[i]].net == s.rt[n].net && s.rt[c[i]].mask == s.rt[n].mask
    ensures var b := Hash(s.rt[n].net); var c := s.chains[b]; var t := AddTo(s, n);
            var x, y := InfoOf(s.rt[c[i]]), InfoOf(s.rt[n]);
            && t.Sized() && t.dflt == s.dflt
            && SameInfo(s, t, if x.gw == y.gw then c[i] else NULL)
            && (x.gw == y.gw ==> t.chains == s.chains && InfoOf(t.rt[c[i]]) == x.(metric := y.metric))
            && (x.gw != y.gw && x.metric <= y.metric ==> t.chains == s.chains)
            && (x.gw != y.gw && x.metric > y.metric ==> t.chains == s.chains[b := c[..i] + [n] + c[i + 1..]])
  {
    var b := Hash(s.rt[n].net);
    var c := s.chains[b];
    assert Has(s, b, c[i], s.rt[n].net, s.rt[n].mask);
    SlotFinds(s, n, c[i]);
    var k := Slot(s.rt, c, s.rt[n]);
    ChainDistinct(s, b);
    assert k == i;
    WhereLinked(s, b, c[i]);
    AddToHolds(s, n);
    var d := c[..i] + c[i + 1..];
    assert d[..i] + [n] + d[i..] == c[..i] + [n] + c[i + 1..];
    if s.rt[c[i]].gw != s.rt[n].gw && s.rt[c[i]].metric > s.rt[n].metric { UnlinkKeeps(s, b, i); }
  }

  /** A route for a net and mask that has none goes into its bucket behind all that have at least as many
      ones in their mask, and in front of all that have fewer. */
  lemma AddFirst(s: Sys, n: Rid)
    requires Fresh(s, n) && s.rt[n].net != IP_ANYADDR
    requires AllElsewhere(s.rt, s.chains[Hash(s.rt[n].net)], s.rt[n].net, s.rt[n].mask)
    ensures var b := Hash(s.rt[n].net); var c := s.chains[b]; var t := AddTo(s, n);
            && t.Sized() && t.dflt == s.dflt && SameInfo(s, t, NULL)
            && exists i :: 0 <= i <= |c| && SplitAt(s, c, n, i) && t.chains == s.chains[b := c[..i] + [n] + c[i..]]
  {
    var b := Hash(s.rt[n].net);
    var c := s.chains[b];
    var i := Slot(s.rt, c, s.rt[n]);
    assert ChainOk(s, b) && !IsDup(s.rt, c, i, s.rt[n]);
    forall j | 0 <= j < |c|
      ensures if j < i then Key(s.rt[c[j]].mask) >= Key(s.rt[n].mask) else Key(s.rt[c[j]].mask) < Key(s.rt[n].mask)
    {
      assert NodeOk(s, b, c[j]);
      assert j < i ==> Passed(s.rt[c[j]], s.rt[n]);
      if i < j { assert Ahead(s.rt[c[i]], s.rt[c[j]]); }
    }
    assert SplitAt(s, c, n, i);
  }

  ghost predicate SplitAt(s: Sys, c: seq<Rid>, n: Rid, i: int)
    requires s.Sized()
  {
    forall j :: 0 <= j < |c| ==>
      if j < i then Key(s.rt[c[j]].mask) >= Key(s.rt[n].mask) else Key(s.rt[c[j]].mask) < Key(s.rt[n].mask)
  }

  // ----- the book -----

  /** What the table says about a net and mask. */
  ghost function Known(s: Sys, net: IPaddr, mask: IPaddr): Option<Info>
    requires s.Sized()
  {
    if r: Rid :| Has(s, Hash(net), r, net, mask) then Some(InfoOf(s.rt[r])) else None
  }

  lemma KnownIs(s: Sys, net: IPaddr, mask: IPaddr, r: Rid)
    requires Sound(s) && Has(s, Hash(net), r, net, mask)
    ensures Known(s, net, mask) == Some(InfoOf(s.rt[r]))
  {
    forall q: Rid | Has(s, Hash(net), q, net, mask) ensures q == r { OnlyOne(s, Hash(net), r, q); }
  }

  /** What is said about the default: its mask and the rest. */
  function KnownDefault(s: Sys): Option<(IPaddr, Info)>
    requires s.Sized()
  {
    if s.dflt == NULL then None else Some((s.rt[s.dflt].mask, InfoOf(s.rt[s.dflt])))
  }

  /** A halfword is the one number in its range that differs by a multiple of 65536. */
  lemma HalfwordsExact(x: nat, y: int)
    ensures 0 <= UShort(x) < 65536 && (x - UShort(x)) % 65536 == 0
    ensures -32768 <= Short(y) < 32768 && (y - Short(y)) % 65536 == 0
  {
  }

  /** What rtnew notes: halfwords. */
  function Noted(op: Op): Info
    requires op.RtAdd?
  {
    Info(op.gw, UShort(op.metric), UShort(op.ifnum), Short(op.ttl))
  }

  /** The time left, or nothing once it has run out. */
  function Worn(x: Info, delta: nat): Option<Info> {
    if Short(x.ttl - delta) <= 0 then None else Some(x.(ttl := Short(x.ttl - delta)))
  }

  /** What a call does to what is known about a net and mask, from that alone: an addition for them is
      taken if nothing was known or the metric is better, and by the same gateway it changes the metric; a
      deletion of them forgets it; the timer takes the seconds off unless the time is unlimited. */
  function Learn(o: Option<Info>, net: IPaddr, mask: IPaddr, op: Op): Option<Info> {
    match op
    case RtAdd(n, m, gw, _, _, _) =>
      if n != net || m != mask then o
      else if o == None then Some(Noted(op))
      else if o.value.gw == gw then Some(o.value.(metric := UShort(op.metric)))
      else if UShort(op.metric) < o.value.metric then Some(Noted(op))
      else o
    case RtDel(n, m) => if n == net && m == mask then None else o
    case RtTimer(delta) =>
      if o == None || o.value.ttl == RT_INF then o else Worn(o.value, delta)
    case _ => o
  }

  /** And to the default: the last one added counts, and its time is unlimited from RT_INF up. */
  function LearnDefault(o: Option<(IPaddr, Info)>, op: Op): Option<(IPaddr, Info)> {
    match op
    case RtAdd(n, m, _, _, _, _) => if n == IP_ANYADDR then Some((m, Noted(op))) else o
    case RtDel(n, _) => if n == IP_ANYADDR then None else o
    case RtTimer(delta) =>
      if o == None || o.value.1.ttl >= RT_INF then o
      else (match Worn(o.value.1, delta) case None => None case Some(x) => Some((o.value.0, x)))
    case _ => o
  }

  /** If the routes of a bucket for a net and mask are the same, and say the same, so does the book. */
  lemma KnownSame(s: Sys, t: Sys, net: IPaddr, mask: IPaddr)
    requires Sound(s) && Sound(t)
    requires forall r: Rid :: Has(s, Hash(net), r, net, mask) <==> Has(t, Hash(net), r, net, mask)
    requires forall r: Rid :: Has(s, Hash(net), r, net, mask) ==> InfoOf(t.rt[r]) == InfoOf(s.rt[r])
    ensures Known(t, net, mask) == Known(s, net, mask)
  {
    if r: Rid :| Has(s, Hash(net), r, net, mask) {
      KnownIs(s, net, mask, r);
      KnownIs(t, net, mask, r);
    }
  }

  lemma AllocKnown(s: Sys, x: Rt, net: IPaddr, mask: IPaddr)
    requires Sound(s) && s.free != [] && x.refcnt == 1
    ensures var t := Alloc(s, x); Sound(t) && Known(t, net, mask) == Known(s, net, mask)
    ensures var t := Alloc(s, x); KnownDefault(t) == KnownDefault(s) && t.rt[s.free[0]] == x
  {
    AllocKeeps(s, x);
    var t, n := Alloc(s, x), s.free[0];
    var b := Hash(net);
    if n in s.chains[b] {
      WhereLinked(s, b, n);
      WhereLinked(t, b, n);
    }
    KnownSame(s, t, net, mask);
  }

  lemma AddToKnown(s: Sys, n: Rid, net: IPaddr, mask: IPaddr)
    requires Fresh(s, n) && s.rt[n].net != IP_ANYADDR
    ensures var t := AddTo(s, n); var o, y := Known(s, net, mask), InfoOf(s.rt[n]);
            && Sound(t) && t.dflt == s.dflt && KnownDefault(t) == KnownDefault(s)
            && (s.rt[n].net != net || s.rt[n].mask != mask ==> Known(t, net, mask) == o)
            && (s.rt[n].net == net && s.rt[n].mask == mask ==>
                  Known(t, net, mask) == if o == None then Some(y)
                                         else if o.value.gw == y.gw then Some(o.value.(metric := y.metric))
                                         else if y.metric < o.value.metric then Some(y) else o)
  {
    AddToKeeps(s, n);
    var b := Hash(s.rt[n].net);
    var c := s.chains[b];
    if AllElsewhere(s.rt, c, s.rt[n].net, s.rt[n].mask) {
      FirstKnown(s, n, net, mask);
    } else {
      var i :| 0 <= i < |c| && !Elsewhere(s.rt[c[i]], s.rt[n].net, s.rt[n].mask);
      DupKnown(s, n, net, mask, i);
    }
  }

  lemma DefaultSame(s: Sys, t: Sys, but: int)
    requires Sound(s) && Sound(t) && t.dflt == s.dflt && SameInfo(s, t, but) && (but == NULL || but != s.dflt)
    ensures KnownDefault(t) == KnownDefault(s)
  {
  }

  lemma FirstKnown(s: Sys, n: Rid, net: IPaddr, mask: IPaddr)
    requires Fresh(s, n) && s.rt[n].net != IP_ANYADDR && Sound(AddTo(s, n))
    requires AllElsewhere(s.rt, s.chains[Hash(s.rt[n].net)], s.rt[n].net, s.rt[n].mask)
    ensures var t := AddTo(s, n);
            && t.dflt == s.dflt && KnownDefault(t) == KnownDefault(s)
            && (s.rt[n].net != net || s.rt[n].mask != mask ==> Known(t, net, mask) == Known(s, net, mask))
            && (s.rt[n].net == net && s.rt[n].mask == mask ==>
                  Known(s, net, mask) == None && Known(t, net, mask) == Some(InfoOf(s.rt[n])))
  {
    var b := Hash(s.rt[n].net);
    var c, t := s.chains[b], AddTo(s, n);
    AddFirst(s, n);
    DefaultSame(s, t, NULL);
    var i :| 0 <= i <= |c| && SplitAt(s, c, n, i) && t.chains == s.chains[b := c[..i] + [n] + c[i..]];
    forall r: Rid ensures r in t.chains[b] <==> r in c || r == n { SplicedIn(c, i, n, r); }
    if s.rt[n].net == net && s.rt[n].mask == mask {
      assert forall r: Rid :: !Has(s, b, r, net, mask);
      assert Has(t, b, n, net, mask);
      KnownIs(t, net, mask, n);
    } else {
      KnownSame(s, t, net, mask);
    }
  }

  lemma DupKnown(s: Sys, n: Rid, net: IPaddr, mask: IPaddr, i: nat)
    requires Fresh(s, n) && s.rt[n].net != IP_ANYADDR && Sound(AddTo(s, n))
    requires i < |s.chains[Hash(s.rt[n].net)]|
    requires !Elsewhere(s.rt[s.chains[Hash(s.rt[n].net)][i]], s.rt[n].net, s.rt[n].mask)
    ensures var t := AddTo(s, n);
            && t.dflt == s.dflt && KnownDefault(t) == KnownDefault(s)
            && (s.rt[n].net != net || s.rt[n].mask != mask ==> Known(t, net, mask) == Known(s, net, mask))
            && (s.rt[n].net == net && s.rt[n].mask == mask ==>
                  var o, y := Known(s, net, mask), InfoOf(s.rt[n]);
                  o.Some? &&
                  Known(t, net, mask) == if o.value.gw == y.gw then Some(o.value.(metric := y.metric))
                                         else if y.metric < o.value.metric then Some(y) else o)
  {
    var b := Hash(s.rt[n].net);
    var c, t := s.chains[b], AddTo(s, n);
    AddDup(s, n, i);
    var q := c[i];
    WhereLinked(s, b, q);
    DefaultSame(s, t, if s.rt[q].gw == s.rt[n].gw then q else NULL);
    ChainDistinct(s, b);
    forall r: Rid ensures r in c[..i] + [n] + c[i + 1..] <==> (r in c && r != q) || r == n { PutIn(c, i, n, r); }
    if s.rt[n].net == net && s.rt[n].mask == mask {
      assert Has(s, b, q, net, mask);
      KnownIs(s, net, mask, q);
      if n in t.chains[b] {
        assert Has(t, b, n, net, mask);
        KnownIs(t, net, mask, n);
      } else {
        assert Has(t, b, q, net, mask);
        KnownIs(t, net, mask, q);
      }
    } else {
      KnownSame(s, t, net, mask);
    }
  }

  lemma PutIn(c: seq<Rid>, i: nat, n: Rid, r: Rid)
    requires i < |c| && forall j, k :: 0 <= j < k < |c| ==> c[j] != c[k]
    ensures r in c[..i] + [n] + c[i + 1..] <==> (r in c && r != c[i]) || r == n
  {
    CutIn(c, i, r);
  }

  // ----- each call -----

  lemma AddKnown(s: Sys, op: Op, net: IPaddr, mask: IPaddr)
    requires Sound(s) && op.RtAdd? && s.free != [] && net != IP_ANYADDR
    ensures var t := (StepKeeps(s, op); Step(s, op));
            && Sound(t) && Known(t, net, mask) == Learn(Known(s, net, mask), net, mask, op)
            && KnownDefault(t) == LearnDefault(KnownDefault(s), op)
  {
    StepKeeps(s, op);
    var x := NewRoute(op.net, op.mask, op.gw, op.metric, op.ifnum, op.ttl);
    AllocKnown(s, x, net, mask);
    AllocKeeps(s, x);
    var t, n := Alloc(s, x), s.free[0];
    if op.net == IP_ANYADDR {
      DefaultKnown(t, n, net, mask);
    } else {
      AddToKnown(t, n, net, mask);
    }
  }

  lemma DefaultKnown(s: Sys, n: Rid, net: IPaddr, mask: IPaddr)
    requires Fresh(s, n) && s.rt[n].net == IP_ANYADDR && Sound(AddDefault(s, n))
    ensures var t := AddDefault(s, n);
            && Known(t, net, mask) == Known(s, net, mask)
            && KnownDefault(t) == Some((s.rt[n].mask, InfoOf(s.rt[n])))
  {
    if s.dflt != NULL { ClearDefaultKeeps(s); }
    KnownSame(s, AddDefault(s, n), net, mask);
  }

  lemma DelKnown(s: Sys, op: Op, net: IPaddr, mask: IPaddr)
    requires Sound(s) && op.RtDel? && net != IP_ANYADDR
    ensures var t := Del(s, op.net, op.mask);
            && Sound(t) && Known(t, net, mask) == Learn(Known(s, net, mask), net, mask, op)
            && KnownDefault(t) == LearnDefault(KnownDefault(s), op)
  {
    var t, b := Del(s, op.net, op.mask), Hash(net);
    DelKeeps(s, op.net, op.mask);
    DelExact(s, op.net, op.mask);
    forall r: Rid | !DefaultFor(s, op.net)
      ensures r in t.chains[b] <==> r in s.chains[b] && !(s.rt[r].net == op.net && s.rt[r].mask == op.mask)
    {
      OthersIn(s.rt, s.chains[b], op.net, op.mask, r);
    }
    if op.net == net && op.mask == mask {
      assert forall r: Rid :: !Has(t, b, r, net, mask);
    } else {
      KnownSame(s, t, net, mask);
    }
  }

  lemma TimerKnown(s: Sys, delta: nat, net: IPaddr, mask: IPaddr)
    requires Sound(s)
    ensures var t := Age(s, delta);
            Sound(t) && Known(t, net, mask) == Learn(Known(s, net, mask), net, mask, RtTimer(delta))
  {
    AgeKeeps(s, delta);
    if r: Rid :| Has(s, Hash(net), r, net, mask) {
      TimerHas(s, delta, net, mask, r);
    } else {
      AgeAllNone(s, delta);
      assert forall q: Rid :: Has(Age(s, delta), Hash(net), q, net, mask) ==> Has(s, Hash(net), q, net, mask);
    }
  }

  lemma TimerHas(s: Sys, delta: nat, net: IPaddr, mask: IPaddr, r: Rid)
    requires Sound(s) && Has(s, Hash(net), r, net, mask)
    ensures var t := Age(s, delta);
            Sound(t) && Known(t, net, mask) == Learn(Known(s, net, mask), net, mask, RtTimer(delta))
  {
    var t, b := Age(s, delta), Hash(net);
    AgeKeeps(s, delta);
    KnownIs(s, net, mask, r);
    TimerRoute(s, delta, b, r);
    if r in t.chains[b] {
      KnownIs(t, net, mask, r);
    } else {
      AgeAllNone(s, delta);
      forall q: Rid | Has(t, b, q, net, mask) ensures q == r { OnlyOne(s, b, r, q); }
      assert Known(t, net, mask) == None;
    }
  }

  /** What the timer does to one route. */
  lemma TimerRoute(s: Sys, delta: nat, b: nat, r: Rid)
    requires Sound(s) && b < RT_TSIZE && r in s.chains[b]
    ensures var t := Age(s, delta);
            && t.Sized() && t.rt[r].net == s.rt[r].net && t.rt[r].mask == s.rt[r].mask
            && InfoOf(t.rt[r]) == InfoOf(s.rt[r]).(ttl := Aged(s.rt[r].ttl, delta))
            && (r in t.chains[b] <==> Aged(s.rt[r].ttl, delta) > 0)
  {
    AgeHolds(s, delta);
    TickOnRoute(s, delta, b, r);
    TimerMetric(s, delta, r);
  }

  // ----- the timer leaves the metric -----

  lemma {:induction false} AgeFromMetric(s: Sys, b: nat, i: nat, delta: nat)
    requires s.Sized() && b < RT_TSIZE && i <= |s.chains[b]|
    ensures forall r: Rid :: AgeFrom(s, b, i, delta).rt[r].metric == s.rt[r].metric
    decreases |s.chains[b]| - i
  {
    if i < |s.chains[b]| {
      var r := s.chains[b][i];
      var t := Tick(s, r, delta);
      if t.rt[r].ttl <= 0 {
        AgeFromMetric(Expire(t, b, i), b, i, delta);
      } else {
        AgeFromMetric(t, b, i + 1, delta);
      }
    }
  }

  lemma {:induction false} AgeBucketsMetric(s: Sys, b: nat, delta: nat)
    requires s.Sized() && b <= RT_TSIZE
    ensures forall r: Rid :: AgeBuckets(s, b, delta).rt[r].metric == s.rt[r].metric
    decreases RT_TSIZE - b
  {
    if b < RT_TSIZE {
      AgeFromMetric(s, b, 0, delta);
      AgeBucketsMetric(AgeFrom(s, b, 0, delta), b + 1, delta);
    }
  }

  lemma TimerMetric(s: Sys, delta: nat, r: Rid)
    requires s.Sized()
    ensures Age(s, delta).Sized() && Age(s, delta).rt[r].metric == s.rt[r].metric
  {
    AgeBucketsMetric(s, 0, delta);
  }

  lemma TimerDefault(s: Sys, delta: nat)
    requires Sound(s)
    ensures var t := Age(s, delta);
            t.Sized() && KnownDefault(t) == LearnDefault(KnownDefault(s), RtTimer(delta))
  {
    BucketsDefault(s, delta);
    AgedDefault(AgeBuckets(s, 0, delta), delta);
  }

  lemma AgedDefault(s: Sys, delta: nat)
    requires s.Sized()
    ensures var t := AgeDefault(s, delta);
            t.Sized() && KnownDefault(t) == LearnDefault(KnownDefault(s), RtTimer(delta))
  {
  }

  /** Ageing the buckets leaves the default as it was. */
  lemma BucketsDefault(s: Sys, delta: nat)
    requires Sound(s)
    ensures KnownDefault(AgeBuckets(s, 0, delta)) == KnownDefault(s)
  {
    AgeBucketsHold(s, 0, delta);
    AgeBucketsMetric(s, 0, delta);
    AgeNone(s, 0, delta);
    if s.dflt != NULL {
      AgeBucketsTtl(s, 0, delta, s.dflt);
      forall a: nat | a < RT_TSIZE ensures s.dflt !in s.chains[a] {
        if s.dflt in s.chains[a] { WhereLinked(s, a, s.dflt); }
      }
    }
  }

  lemma OtherKnown(s: Sys, op: Op, net: IPaddr, mask: IPaddr)
    requires Sound(s) && Enabled(s, op) && (op.RtGet? || op.RtFree?)
    ensures var t := (StepKeeps(s, op); Step(s, op));
            Sound(t) && Known(t, net, mask) == Known(s, net, mask) && KnownDefault(t) == KnownDefault(s)
  {
    StepKeeps(s, op);
    KnownSame(s, Step(s, op), net, mask);
  }

  /** Every call does to each entry of the book what Learn says, and to the default what LearnDefault
      says. */
  lemma StepKnown(s: Sys, op: Op, net: IPaddr, mask: IPaddr)
    requires Sound(s) && Enabled(s, op) && net != IP_ANYADDR
    ensures var t := Step(s, op);
            && Sound(t) && Known(t, net, mask) == Learn(Known(s, net, mask), net, mask, op)
            && KnownDefault(t) == LearnDefault(KnownDefault(s), op)
  {
    StepKeeps(s, op);
    match op
    case RtAdd(_, _, _, _, _, _) => AddKnown(s, op, net, mask);
    case RtDel(_, _) => DelKnown(s, op, net, mask);
    case RtTimer(delta) => TimerKnown(s, delta, net, mask); TimerDefault(s, delta);
    case _ => OtherKnown(s, op, net, mask);
  }

  // ----- runs -----

  function LearnAll(o: Option<Info>, net: IPaddr, mask: IPaddr, ops: seq<Op>): Option<Info>
    decreases |ops|
  {
    if ops == [] then o else LearnAll(Learn(o, net, mask, ops[0]), net, mask, ops[1..])
  }

  function LearnAllDefault(o: Option<(IPaddr, Info)>, ops: seq<Op>): Option<(IPaddr, Info)>
    decreases |ops|
  {
    if ops == [] then o else LearnAllDefault(LearnDefault(o, ops[0]), ops[1..])
  }

  /** Over any run the table is such a book: what it says about a net and mask is what the calls made of
      that entry, one after the other, and so for the default. */
  lemma {:induction false} RunKnown(s: Sys, ops: seq<Op>, net: IPaddr, mask: IPaddr)
    requires Sound(s) && RunEnabled(s, ops) && net != IP_ANYADDR
    ensures var t := Run(s, ops);
            && t.Sized() && Known(t, net, mask) == LearnAll(Known(s, net, mask), net, mask, ops)
            && KnownDefault(t) == LearnAllDefault(KnownDefault(s), ops)
    decreases |ops|
  {
    if ops != [] {
      StepKeeps(s, ops[0]);
      StepKnown(s, ops[0], net, mask);
      RunKnown(Step(s, ops[0]), ops[1..], net, mask);
    }
  }

  /** A lookup notes the use of the route it returns, takes a reference of it, and changes nothing else. */
  lemma GetExact(s: Sys, dst: IPaddr, local: bool, brc: bool)
    requires Sound(s)
    ensures var r, t := Choose(s, dst, local, brc), Get(s, dst, local, brc);
            && t.chains == s.chains && t.dflt == s.dflt && t.free == s.free && t.Sized()
            && (r == NULL ==> t == s)
            && (forall q: Rid :: q != r ==> t.rt[q] == s.rt[q] && t.handles[q] == s.handles[q])
            && (r != NULL ==> t.rt[r] == s.rt[r].(refcnt := s.rt[r].refcnt + 1, usecnt := s.rt[r].usecnt + 1))
  {
  }
}
