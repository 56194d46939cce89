/** What the routing table means: which route a lookup finds, what an addition leaves, and what
    time takes away. */
module RouteLookup {
  import opened RouteHash
  import opened Routes
  import opened RouteRuns

  // ----- the lookup finds the most specific route -----

  /** Every mask contains the class mask of its net. */
  ghost predicate AllClassful(s: Sys)
    requires s.Sized()
  {
    forall b: nat, r: Rid :: b < RT_TSIZE && r in s.chains[b] ==> Classful(s.rt[r])
  }

  predicate Classful(x: Rt) { HasClassMask(x.mask, x.net) }

  /** A route that can be taken for an address: it has time left, does not cost 16, and its net and the
      address are the same wherever its mask has a one. A broadcast or multicast address that is looked up
      for this host is not taken for a host of that address. */
  predicate Serves(x: Rt, dst: IPaddr, local: bool, brc: bool) {
    && x.ttl > 0 && x.metric < 16
    && (forall i :: 0 <= i < 32 && x.mask[i] ==> dst[i] == x.net[i])
    && !(local && (brc || (dst[0] && dst[1] && dst[2] && !dst[3])) && forall i :: 0 <= i < 32 ==> x.mask[i])
  }

  lemma ServesIff(x: Rt, dst: IPaddr, local: bool, brc: bool)
    ensures Usable(x, dst, local, brc) <==> Serves(x, dst, local, brc)
  {
    var all: IPaddr := IP_MASKALL;
    if forall i :: 0 <= i < 32 ==> x.mask[i] { assert x.mask == all; }
  }

  /** Such a route, in any bucket. */
  predicate Candidate(s: Sys, b: nat, i: nat, dst: IPaddr, local: bool, brc: bool)
    requires s.Sized() && b < RT_TSIZE
  {
    i < |s.chains[b]| && Serves(s.rt[s.chains[b][i]], dst, local, brc)
  }

  /** The route chosen has the most ones in its mask of all usable routes in all buckets. The default
      is taken only if no bucket has a usable route. */
  ghost predicate BestChosen(s: Sys, dst: IPaddr, local: bool, brc: bool)
    requires s.Sized()
  {
    var r := Choose(s, dst, local, brc);
    && (forall b: nat, i: nat :: b < RT_TSIZE && Candidate(s, b, i, dst, local, brc) ==>
          r in s.chains[Hash(dst)] && Serves(s.rt[r], dst, local, brc) &&
          Key(s.rt[s.chains[b][i]].mask) <= Key(s.rt[r].mask))
    && ((forall b: nat, i: nat :: b < RT_TSIZE ==> !Candidate(s, b, i, dst, local, brc)) ==>
          r == if s.dflt != NULL && s.rt[s.dflt].metric < 16 then s.dflt else NULL)
  }

  /** rtget looks in one bucket and stops at the first route that will do, and that is the best. */
  lemma LookupIsBest(s: Sys, dst: IPaddr, local: bool, brc: bool)
    requires Sound(s) && AllClassful(s)
    ensures BestChosen(s, dst, local, brc)
  {
    var h := Hash(dst);
    var c := s.chains[h];
    var k := FirstUsable(s.rt, c, dst, local, brc);
    if k < |c| {
      ServesIff(s.rt[c[k]], dst, local, brc);
      assert Candidate(s, h, k, dst, local, brc);
    }
    forall b: nat, i: nat | b < RT_TSIZE && Candidate(s, b, i, dst, local, brc)
      ensures b == h && k <= i && Key(s.rt[c[i]].mask) <= Key(s.rt[c[k]].mask)
    {
      var x := s.rt[s.chains[b][i]];
      ServesIff(x, dst, local, brc);
      assert ChainOk(s, b) && NodeOk(s, b, s.chains[b][i]) && s.chains[b][i] in s.chains[b];
      assert Classful(x);
      SameBucket(dst, x.net, x.mask);
      assert NodeOk(s, h, c[k]);
      if k < i { assert Ahead(s.rt[c[k]], s.rt[c[i]]); }
    }
  }

  // ----- such masks stay -----

  /** No route has moved, and none has come. */
  ghost predicate NoneCome(s: Sys, t: Sys)
    requires s.Sized() && t.Sized()
  {
    && (forall r: Rid :: t.rt[r].net == s.rt[r].net && t.rt[r].mask == s.rt[r].mask)
    && (forall b: nat, r: Rid :: b < RT_TSIZE && r in t.chains[b] ==> r in s.chains[b])
  }

  lemma NoneComeClassful(s: Sys, t: Sys)
    requires s.Sized() && t.Sized() && AllClassful(s) && NoneCome(s, t)
    ensures AllClassful(t)
  {
  }

  lemma ExpireNone(s: Sys, b: nat, i: nat)
    requires s.Sized() && b < RT_TSIZE && i < |s.chains[b]|
    ensures var t := Expire(s, b, i); t.Sized() && NoneCome(s, t)
  {
    var c := s.chains[b];
    forall r: Rid | r in c[..i] + c[i + 1..] ensures r in c { }
  }

  lemma {:induction false} AgeFromNone(s: Sys, b: nat, i: nat, delta: nat)
    requires s.Sized() && b < RT_TSIZE && i <= |s.chains[b]|
    ensures NoneCome(s, AgeFrom(s, b, i, delta))
    decreases |s.chains[b]| - i
  {
    if i < |s.chains[b]| {
      var t := Tick(s, s.chains[b][i], delta);
      if t.rt[s.chains[b][i]].ttl <= 0 {
        ExpireNone(t, b, i);
        AgeFromNone(Expire(t, b, i), b, i, delta);
      } else {
        AgeFromNone(t, b, i + 1, delta);
      }
    }
  }

  lemma {:induction false} AgeNone(s: Sys, b: nat, delta: nat)
    requires s.Sized() && b <= RT_TSIZE
    ensures NoneCome(s, AgeBuckets(s, b, delta))
    decreases RT_TSIZE - b
  {
    if b < RT_TSIZE {
      AgeFromNone(s, b, 0, delta);
      AgeNone(AgeFrom(s, b, 0, delta), b + 1, delta);
    }
  }

  /** Only the route `n` has come, if any. */
  ghost predicate OneCome(s: Sys, t: Sys, n: Rid)
    requires s.Sized() && t.Sized()
  {
    && (forall r: Rid :: t.rt[r].net == s.rt[r].net && t.rt[r].mask == s.rt[r].mask)
    && (forall b: nat, r: Rid :: b < RT_TSIZE && r in t.chains[b] ==> r in s.chains[b] || r == n)
  }

  lemma OneComeClassful(s: Sys, t: Sys, n: Rid)
    requires s.Sized() && t.Sized() && AllClassful(s) && OneCome(s, t, n) && Classful(s.rt[n])
    ensures AllClassful(t)
  {
  }

  lemma LinkOne(s: Sys, b: nat, i: nat, n: Rid)
    requires s.Sized() && b < RT_TSIZE && i <= |s.chains[b]| && s.handles[n] > 0
    ensures var t := Link(s, b, i, n); t.Sized() && OneCome(s, t, n)
  {
    forall r: Rid { SplicedIn(s.chains[b], i, n, r); }
  }

  lemma ReplaceOne(s: Sys, b: nat, i: nat, n: Rid)
    requires Fresh(s, n) && b < RT_TSIZE && i < |s.chains[b]|
    ensures var t := Replace(s, b, i, n); t.Sized() && OneCome(s, t, n)
  {
    UnlinkKeeps(s, b, i);
    WhereLinked(s, b, s.chains[b][i]);
    ExpireNone(s, b, i);
    LinkOne(Expire(s, b, i), b, i, n);
  }

  lemma AddOne(s: Sys, n: Rid)
    requires Fresh(s, n)
    ensures AddTo(s, n).Sized() && OneCome(s, AddTo(s, n), n)
  {
    var b := Hash(s.rt[n].net);
    var c := s.chains[b];
    var i := Slot(s.rt, c, s.rt[n]);
    if IsDup(s.rt, c, i, s.rt[n]) {
      if s.rt[c[i]].gw != s.rt[n].gw && s.rt[c[i]].metric > s.rt[n].metric { ReplaceOne(s, b, i, n); }
    } else {
      LinkOne(s, b, i, n);
    }
  }

  lemma AllocClassful(s: Sys, x: Rt)
    requires Sound(s) && s.free != [] && x.refcnt == 1 && x.key == Key(x.mask) && AllClassful(s)
    ensures var t := Alloc(s, x); t.Sized() && AllClassful(t)
  {
    AllocKeeps(s, x);
    var t, n := Alloc(s, x), s.free[0];
    forall b: nat, r: Rid | b < RT_TSIZE && r in t.chains[b] ensures Classful(t.rt[r]) {
      if r == n { WhereLinked(t, b, n); }
      assert Classful(s.rt[r]);
    }
  }

  lemma AddClassful(s: Sys, x: Rt)
    requires Sound(s) && s.free != [] && x.refcnt == 1 && x.key == Key(x.mask) && AllClassful(s)
    requires x.net != IP_ANYADDR ==> Classful(x)
    ensures Add(s, x).Sized() && AllClassful(Add(s, x))
  {
    AllocKeeps(s, x);
    AllocClassful(s, x);
    AddKeeps(s, x);
    var t, n := Alloc(s, x), s.free[0];
    if x.net != IP_ANYADDR {
      AddOne(t, n);
      OneComeClassful(t, AddTo(t, n), n);
    } else {
      NoneComeClassful(t, AddDefault(t, n));
    }
  }

  lemma DelNone(s: Sys, net: IPaddr, mask: IPaddr)
    requires Sound(s)
    ensures Del(s, net, mask).Sized() && NoneCome(s, Del(s, net, mask))
  {
    var b := Hash(net);
    var i := Find(s.rt, s.chains[b], net, mask);
    if i < |s.chains[b]| { ExpireNone(s, b, i); }
  }

  lemma AgeAllNone(s: Sys, delta: nat)
    requires s.Sized()
    ensures Age(s, delta).Sized() && NoneCome(s, Age(s, delta))
  {
    AgeNone(s, 0, delta);
    AgeDefaultNone(AgeBuckets(s, 0, delta), delta);
  }

  lemma AgeDefaultNone(s: Sys, delta: nat)
    requires s.Sized()
    ensures AgeDefault(s, delta).Sized() && NoneCome(s, AgeDefault(s, delta))
  {
  }

  /** A new route may go in a bucket if its mask contains the class mask of its net. */
  predicate Proper(op: Op) { op.RtAdd? && op.net != IP_ANYADDR ==> HasClassMask(op.mask, op.net) }

  lemma StepClassful(s: Sys, op: Op)
    requires Sound(s) && AllClassful(s) && Enabled(s, op) && Proper(op)
    ensures (StepKeeps(s, op); AllClassful(Step(s, op)))
  {
    StepKeeps(s, op);
    match op
    case RtAdd(net, mask, gw, metric, ifnum, ttl) => AddClassful(s, NewRoute(net, mask, gw, metric, ifnum, ttl));
    case RtDel(net, mask) =>
      DelNone(s, net, mask);
      NoneComeClassful(s, Del(s, net, mask));
    case RtTimer(delta) =>
      AgeAllNone(s, delta);
      NoneComeClassful(s, Age(s, delta));
    case RtGet(dst, local, brc) => NoneComeClassful(s, Get(s, dst, local, brc));
    case RtFree(r) => NoneComeClassful(s, Drop(s, r));
  }

  /** So they do over any run of calls that add such routes only, and every lookup after it finds the
      best route. */
  lemma {:induction false} RunLookupIsBest(s: Sys, ops: seq<Op>, dst: IPaddr, local: bool, brc: bool)
    requires Sound(s) && AllClassful(s) && RunEnabled(s, ops) && forall op :: op in ops ==> Proper(op)
    ensures Run(s, ops).Sized() && BestChosen(Run(s, ops), dst, local, brc)
    decreases |ops|
  {
    if ops == [] {
      LookupIsBest(s, dst, local, brc);
    } else {
      StepKeeps(s, ops[0]);
      StepClassful(s, ops[0]);
      RunLookupIsBest(Step(s, ops[0]), ops[1..], dst, local, brc);
    }
  }

  /** Such a mask is needed: a usable route whose mask is a prefix too short for the class of its
      net is missed by the lookup of an address that matches it. */
  lemma ShortMaskMissed(s: Sys, b: nat, i: nat, n: nat)
    requires Sound(s) && b < RT_TSIZE && i < |s.chains[b]|
    requires var x := s.rt[s.chains[b][i]];
             x.mask == Prefix(n) && !HasClassMask(x.mask, x.net) && x.ttl > 0 && x.metric < RTM_INF
    ensures var r := s.chains[b][i]; var dst := Stray(s.rt[r].net);
            Candidate(s, b, i, dst, false, false) && Choose(s, dst, false, false) != r
  {
    var r := s.chains[b][i];
    var x := s.rt[r];
    var dst := Stray(x.net);
    StrayElsewhere(x.net);
    assert Agree(dst, x.net, x.mask);
    WhereLinked(s, b, r);
    if r in s.chains[Hash(dst)] { WhereLinked(s, Hash(dst), r); }
  }

  // ----- what an addition leaves -----

  /** There is one route at most for a net and mask. */
  lemma OnlyOne(s: Sys, b: nat, r: Rid, q: Rid)
    requires Sound(s) && b < RT_TSIZE && r in s.chains[b] && Has(s, b, q, s.rt[r].net, s.rt[r].mask)
    ensures q == r
  {
    var i :| 0 <= i < |s.chains[b]| && s.chains[b][i] == r;
    var j :| 0 <= j < |s.chains[b]| && s.chains[b][j] == q;
    assert ChainOk(s, b);
    assert i < j ==> Ahead(s.rt[s.chains[b][i]], s.rt[s.chains[b][j]]);
    assert j < i ==> Ahead(s.rt[s.chains[b][j]], s.rt[s.chains[b][i]]);
  }

  /** The scan for a duplicate finds it if there is one. */
  lemma SlotFinds(s: Sys, n: Rid, q: Rid)
    requires Fresh(s, n) && s.rt[n].net != IP_ANYADDR
    requires Has(s, Hash(s.rt[n].net), q, s.rt[n].net, s.rt[n].mask)
    ensures var c := s.chains[Hash(s.rt[n].net)]; var i := Slot(s.rt, c, s.rt[n]);
            IsDup(s.rt, c, i, s.rt[n]) && c[i] == q
  {
    var b := Hash(s.rt[n].net);
    var c := s.chains[b];
    var i := Slot(s.rt, c, s.rt[n]);
    var j :| 0 <= j < |c| && c[j] == q;
    assert ChainOk(s, b) && NodeOk(s, b, c[i]) && NodeOk(s, b, c[j]);
    assert i < j ==> Ahead(s.rt[c[i]], s.rt[c[j]]);
    OnlyOne(s, b, q, c[i]);
  }

  /** What rtadd leaves for the net and mask it was given: the new route if there was none or a
      worse one by another gateway, otherwise the one that was there, with the new metric if the
      gateway is the same. */
  lemma AddPolicy(s: Sys, n: Rid, q: Rid)
    requires Fresh(s, n) && s.rt[n].net != IP_ANYADDR
    requires Has(s, Hash(s.rt[n].net), q, s.rt[n].net, s.rt[n].mask)
    ensures var b := Hash(s.rt[n].net); var t := AddTo(s, n); var x, y := s.rt[q], s.rt[n];
            if x.gw == y.gw then Has(t, b, q, y.net, y.mask) && t.rt[q].metric == y.metric && t.rt[q].ttl == x.ttl
            else if y.metric < x.metric then Has(t, b, n, y.net, y.mask) && !InTable(t, q)
            else Has(t, b, q, y.net, y.mask) && t.rt[q].metric == x.metric && !InTable(t, n)
  {
    SlotFinds(s, n, q);
    var b := Hash(s.rt[n].net);
    var c := s.chains[b];
    var i := Slot(s.rt, c, s.rt[n]);
    WhereLinked(s, b, q);
    if s.rt[q].gw != s.rt[n].gw && s.rt[n].metric < s.rt[q].metric {
      UnlinkKeeps(s, b, i);
      var d := Unlink(s, b, i).chains[b];
      SplicedIn(d, i, n, n);
      SplicedIn(d, i, n, q);
    }
  }

  lemma AddNew(s: Sys, n: Rid)
    requires Fresh(s, n) && s.rt[n].net != IP_ANYADDR
    requires forall q: Rid :: !Has(s, Hash(s.rt[n].net), q, s.rt[n].net, s.rt[n].mask)
    ensures var b := Hash(s.rt[n].net); var t := AddTo(s, n);
            && Has(t, b, n, s.rt[n].net, s.rt[n].mask) && t.rt == s.rt
            && (forall a: nat, r: Rid :: a < RT_TSIZE ==>
                  (r in t.chains[a] <==> r in s.chains[a] || (a == b && r == n)))
  {
    var b := Hash(s.rt[n].net);
    var c := s.chains[b];
    var i := Slot(s.rt, c, s.rt[n]);
    if IsDup(s.rt, c, i, s.rt[n]) { assert Has(s, b, c[i], s.rt[n].net, s.rt[n].mask); }
    forall r: Rid ensures r in AddTo(s, n).chains[b] <==> r in c || r == n { SplicedIn(c, i, n, r); }
  }

  // ----- what time takes away -----

  /** The routes of a bucket that outlast `delta` seconds. */
  function Lasting(rt: seq<Rt>, c: seq<Rid>, delta: nat): seq<Rid>
    requires |rt| == RT_BPSIZE
  {
    if c == [] then [] else (if Aged(rt[c[0]].ttl, delta) > 0 then [c[0]] else []) + Lasting(rt, c[1..], delta)
  }

  lemma {:induction false} LastingIn(rt: seq<Rt>, c: seq<Rid>, delta: nat, r: Rid)
    requires |rt| == RT_BPSIZE
    ensures r in Lasting(rt, c, delta) <==> r in c && Aged(rt[r].ttl, delta) > 0
    decreases |c|
  {
    if c != [] { LastingIn(rt, c[1..], delta, r); }
  }

  lemma {:induction false} LastingSame(rt: seq<Rt>, rt': seq<Rt>, c: seq<Rid>, delta: nat)
    requires |rt| == |rt'| == RT_BPSIZE && forall r :: r in c ==> rt'[r].ttl == rt[r].ttl
    ensures Lasting(rt', c, delta) == Lasting(rt, c, delta)
    decreases |c|
  {
    if c != [] {
      assert forall r :: r in c[1..] ==> r in c;
      assert c[0] in c;
      LastingSame(rt, rt', c[1..], delta);
    }
  }

  /** One step of the walk. */
  lemma AgeOne(s: Sys, b: nat, i: nat, delta: nat) returns (u: Sys, k: nat)
    requires Sound(s) && b < RT_TSIZE && i < |s.chains[b]|
    ensures Sound(u) && k <= |u.chains[b]| && AgeFrom(s, b, i, delta) == AgeFrom(u, b, k, delta)
    ensures u.chains == s.chains[b := u.chains[b]] && u.chains[b][k..] == s.chains[b][i + 1..]
    ensures var r := s.chains[b][i];
            u.chains[b][..k] == s.chains[b][..i] + if Aged(s.rt[r].ttl, delta) > 0 then [r] else []
    ensures forall r: Rid :: u.rt[r].ttl == if r == s.chains[b][i] then Aged(s.rt[r].ttl, delta) else s.rt[r].ttl
  {
    var c := s.chains[b];
    var r := c[i];
    AmendKeeps(s, r, s.rt[r].metric, Aged(s.rt[r].ttl, delta));
    u, k := Tick(s, r, delta), i + 1;
    if u.rt[r].ttl <= 0 {
      ExpireKeeps(u, b, i);
      u, k := Expire(u, b, i), i;
    }
  }

  /** The walk of one bucket takes out exactly the routes that have run out, and leaves the others
      in order. */
  lemma {:induction false} AgeFromExact(s: Sys, b: nat, i: nat, delta: nat)
    requires Sound(s) && b < RT_TSIZE && i <= |s.chains[b]|
    ensures var t := AgeFrom(s, b, i, delta); var c := s.chains[b];
            && t.chains == s.chains[b := t.chains[b]] && t.chains[b] == c[..i] + Lasting(s.rt, c[i..], delta)
            && (forall r: Rid :: t.rt[r].ttl == if r in c[i..] then Aged(s.rt[r].ttl, delta) else s.rt[r].ttl)
    decreases |s.chains[b]| - i
  {
    var c := s.chains[b];
    if i < |c| {
      ChainDistinct(s, b);
      var u, k := AgeOne(s, b, i, delta);
      AgeFromExact(u, b, k, delta);
      LastingSame(s.rt, u.rt, c[i + 1..], delta);
      LastingStep(s.rt, c, i, delta);
    } else {
      assert c[..i] + Lasting(s.rt, c[i..], delta) == c;
    }
  }

  lemma LastingStep(rt: seq<Rt>, c: seq<Rid>, i: nat, delta: nat)
    requires |rt| == RT_BPSIZE && i < |c|
    ensures c[i..] == [c[i]] + c[i + 1..]
    ensures c[..i] + Lasting(rt, c[i..], delta) ==
            c[..i] + (if Aged(rt[c[i]].ttl, delta) > 0 then [c[i]] else []) + Lasting(rt, c[i + 1..], delta)
  {
    assert c[i..][1..] == c[i + 1..];
  }

  lemma {:induction false} AgeBucketsExact(s: Sys, b: nat, delta: nat)
    requires Sound(s) && b <= RT_TSIZE
    ensures var t := AgeBuckets(s, b, delta);
            forall a: nat :: a < RT_TSIZE ==>
              t.chains[a] == if a < b then s.chains[a] else Lasting(s.rt, s.chains[a], delta)
    ensures AgeBuckets(s, b, delta).dflt == s.dflt
    decreases RT_TSIZE - b
  {
    if b < RT_TSIZE {
      AgeFromDefault(s, b, 0, delta);
      AgeFromExact(s, b, 0, delta);
      AgeFromKeeps(s, b, 0, delta);
      var u := AgeFrom(s, b, 0, delta);
      assert s.chains[b][0..] == s.chains[b];
      AgeBucketsExact(u, b + 1, delta);
      forall a: nat | b < a < RT_TSIZE ensures Lasting(u.rt, s.chains[a], delta) == Lasting(s.rt, s.chains[a], delta) {
        forall r | r in s.chains[a] ensures r !in s.chains[b] {
          WhereLinked(s, a, r);
          if r in s.chains[b] { WhereLinked(s, b, r); }
        }
        LastingSame(s.rt, u.rt, s.chains[a], delta);
      }
    }
  }

  /** When a time to live runs out. */
  lemma AgedExact(ttl: int, delta: nat)
    requires 0 < ttl < 0x8000 && delta <= 0x8000
    ensures Aged(ttl, delta) > 0 <==> ttl == RT_INF || ttl > delta
    ensures ttl != RT_INF ==> Aged(ttl, delta) == ttl - delta
  {
  }

  /** rttimer takes out exactly the routes whose time to live is not unlimited and has run out. */
  lemma TimerExact(s: Sys, delta: nat, b: nat, r: Rid)
    requires Sound(s) && b < RT_TSIZE && r in s.chains[b] && 0 < s.rt[r].ttl < 0x8000 && delta <= 0x8000
    ensures var t := Age(s, delta); r in t.chains[b] <==> s.rt[r].ttl == RT_INF || s.rt[r].ttl > delta
  {
    AgeBucketsExact(s, 0, delta);
    AgedExact(s.rt[r].ttl, delta);
    LastingIn(s.rt, s.chains[b], delta, r);
  }

  // ----- what any number of ticks takes away -----

  lemma {:induction false} AgeFromDefault(s: Sys, b: nat, i: nat, delta: nat)
    requires Sound(s) && b < RT_TSIZE && i <= |s.chains[b]|
    ensures AgeFrom(s, b, i, delta).dflt == s.dflt
    decreases |s.chains[b]| - i
  {
    if i < |s.chains[b]| {
      var r := s.chains[b][i];
      AmendKeeps(s, r, s.rt[r].metric, Aged(s.rt[r].ttl, delta));
      var t := Tick(s, r, delta);
      if t.rt[r].ttl <= 0 {
        ExpireKeeps(t, b, i);
        AgeFromDefault(Expire(t, b, i), b, i, delta);
      } else {
        AgeFromDefault(t, b, i + 1, delta);
      }
    }
  }

  /** Each route is aged once, in its own bucket; the others' times stay. */
  lemma {:induction false} AgeBucketsTtl(s: Sys, b: nat, delta: nat, r: Rid)
    requires Sound(s) && b <= RT_TSIZE
    ensures var t := AgeBuckets(s, b, delta);
            t.rt[r].ttl == if exists a: nat :: b <= a < RT_TSIZE && r in s.chains[a] then Aged(s.rt[r].ttl, delta)
                           else s.rt[r].ttl
    decreases RT_TSIZE - b
  {
    if b < RT_TSIZE {
      var u := AgeFrom(s, b, 0, delta);
      AgeFromExact(s, b, 0, delta);
      AgeFromKeeps(s, b, 0, delta);
      assert s.chains[b][0..] == s.chains[b];
      AgeBucketsTtl(u, b + 1, delta, r);
      forall a: nat | b < a < RT_TSIZE ensures u.chains[a] == s.chains[a] {
      }
      if r in s.chains[b] {
        WhereLinked(s, b, r);
        forall a: nat | b < a < RT_TSIZE ensures r !in s.chains[a] {
          if r in s.chains[a] { WhereLinked(s, a, r); }
        }
      }
    }
  }

  /** One tick, as a route in a bucket sees it. */
  lemma TickOnRoute(s: Sys, delta: nat, b: nat, r: Rid)
    requires Sound(s) && b < RT_TSIZE
    ensures var t := Age(s, delta);
            && Sound(t)
            && (r in t.chains[b] <==> r in s.chains[b] && Aged(s.rt[r].ttl, delta) > 0)
            && (r in s.chains[b] ==> t.rt[r].ttl == Aged(s.rt[r].ttl, delta))
  {
    AgeKeeps(s, delta);
    AgeBucketsExact(s, 0, delta);
    AgeBucketsTtl(s, 0, delta, r);
    LastingIn(s.rt, s.chains[b], delta, r);
    if r in s.chains[b] { WhereLinked(s, b, r); }
  }

  function Sum(ds: seq<nat>): nat { if ds == [] then 0 else ds[0] + Sum(ds[1..]) }

  /** What a run of ticks leaves of the table. */
  ghost function Ticks(s: Sys, ds: seq<nat>): (t: Sys)
    requires Sound(s)
    ensures Sound(t)
    decreases |ds|
  {
    if ds == [] then s else AgeKeeps(s, ds[0]); Ticks(Age(s, ds[0]), ds[1..])
  }

  /** Ticks that a clock can be behind by, and a time that fits its halfword. */
  predicate Small(ttl: int, ds: seq<nat>) {
    0 < ttl < 0x8000 && forall i :: 0 <= i < |ds| ==> ds[i] <= 0x8000
  }

  /** Some of the ticks, from the first on, add up to exactly what `ttl` is above RT_INF. */
  predicate Meets(ttl: int, ds: seq<nat>) {
    exists k :: 0 <= k <= |ds| && Sum(ds[..k]) == ttl - RT_INF
  }

  lemma MeetsStep(ttl: int, ds: seq<nat>)
    requires ds != []
    ensures Meets(ttl, ds) <==> ttl == RT_INF || Meets(ttl - ds[0], ds[1..])
  {
    assert ds[..0] == [];
    forall k | 0 < k <= |ds| ensures Sum(ds[..k]) == ds[0] + Sum(ds[1..][..k - 1]) {
      assert ds[..k][1..] == ds[1..][..k - 1];
    }
    if Meets(ttl - ds[0], ds[1..]) {
      var k :| 0 <= k <= |ds[1..]| && Sum(ds[1..][..k]) == ttl - ds[0] - RT_INF;
      assert Sum(ds[..k + 1]) == ttl - RT_INF;
    }
    if ttl == RT_INF { assert Sum(ds[..0]) == ttl - RT_INF; }
    if Meets(ttl, ds) {
      var k :| 0 <= k <= |ds| && Sum(ds[..k]) == ttl - RT_INF;
      assert k > 0 ==> Sum(ds[1..][..k - 1]) == ttl - ds[0] - RT_INF;
    }
  }

  /** A route once gone stays gone. */
  lemma {:induction false} GoneStays(s: Sys, ds: seq<nat>, b: nat, r: Rid)
    requires Sound(s) && b < RT_TSIZE && r !in s.chains[b]
    ensures r !in Ticks(s, ds).chains[b]
    decreases |ds|
  {
    if ds != [] {
      TickOnRoute(s, ds[0], b, r);
      GoneStays(Age(s, ds[0]), ds[1..], b, r);
    }
  }

  /** Exactly how long a route in a bucket lives. One with less time than RT_INF lives until the
      ticks add up to it, one with RT_INF for good, and one with more only as long, unless the ticks
      happen to bring it down to RT_INF on the way: then for good. */
  lemma {:induction false} LivesIff(s: Sys, ds: seq<nat>, b: nat, r: Rid)
    requires Sound(s) && b < RT_TSIZE && r in s.chains[b] && Small(s.rt[r].ttl, ds)
    ensures var ttl := s.rt[r].ttl; r in Ticks(s, ds).chains[b] <==> ttl > Sum(ds) || Meets(ttl, ds)
    decreases |ds|
  {
    var ttl := s.rt[r].ttl;
    if ds != [] {
      TickOnRoute(s, ds[0], b, r);
      AgedExact(ttl, ds[0]);
      MeetsStep(ttl, ds);
      var t := Age(s, ds[0]);
      if r in t.chains[b] {
        LivesIff(t, ds[1..], b, r);
        if ttl == RT_INF { assert ds[1..][..0] == [] && Meets(RT_INF, ds[1..]); }
      } else {
        GoneStays(t, ds[1..], b, r);
        NotMet(ttl - ds[0], ds[1..]);
      }
    }
  }

  lemma NotMet(ttl: int, ds: seq<nat>)
    requires ttl <= 0
    ensures !Meets(ttl, ds)
  {
  }

  function Fours(n: nat): (ds: seq<nat>)
    ensures |ds| == n && Sum(ds) == 4 * n
  {
    if n == 0 then []
    else
      var rest := Fours(n - 1);
      assert ([4] + rest)[1..] == rest;
      [4] + rest
  }

  lemma {:induction false} FoursTake(n: nat, k: nat)
    requires k <= n
    ensures Fours(n)[..k] == Fours(k)
    decreases k
  {
    if k > 0 {
      FoursTake(n - 1, k - 1);
      assert Fours(n)[..k] == [4] + Fours(n - 1)[..k - 1];
    }
  }

  lemma {:induction false} FoursSmall(n: nat)
    ensures forall i :: 0 <= i < n ==> Fours(n)[i] == 4
    decreases n
  {
    if n > 0 {
      FoursSmall(n - 1);
      forall i | 0 <= i < n ensures Fours(n)[i] == 4 {
        if i > 0 { assert Fours(n)[i] == Fours(n - 1)[i - 1]; }
      }
    }
  }

  lemma FoursMiss(n: nat)
    ensures !Meets(1005, Fours(n)) && Small(1005, Fours(n))
  {
    FoursSmall(n);
    forall k | 0 <= k <= n ensures Sum(Fours(n)[..k]) != 1005 - RT_INF {
      FoursTake(n, k);
    }
  }

  lemma FourTwoMeets(ds: seq<nat>)
    requires Small(1005, ds)
    ensures Meets(1005, [4, 2] + ds) && Small(1005, [4, 2] + ds)
  {
    var all := [4, 2] + ds;
    assert all[..2] == [4, 2] && [4, 2][1..] == [2] && [2][1..] == [];
    assert Sum([2]) == 2 && Sum(all[..2]) == 1005 - RT_INF;
  }

  /** With a time of 1005 it depends on how the seconds are counted. Four and then two bring it to
      RT_INF, and it stays whatever comes; four at a time pass that by, and it goes in the end. */
  lemma CountedToForever(s: Sys, ds: seq<nat>, b: nat, r: Rid, n: nat)
    requires Sound(s) && b < RT_TSIZE && r in s.chains[b] && s.rt[r].ttl == 1005 && Small(1005, ds) && n >= 252
    ensures r in Ticks(s, [4, 2] + ds).chains[b] && r !in Ticks(s, Fours(n)).chains[b]
  {
    FourTwoMeets(ds);
    LivesIff(s, [4, 2] + ds, b, r);
    FoursMiss(n);
    LivesIff(s, Fours(n), b, r);
  }

  /** The default route is not aged at all from RT_INF up. */
  lemma {:induction false} DefaultLivesIff(s: Sys, ds: seq<nat>)
    requires Sound(s) && s.dflt != NULL && Small(s.rt[s.dflt].ttl, ds)
    ensures var ttl := s.rt[s.dflt].ttl;
            Ticks(s, ds).dflt == if ttl >= RT_INF || ttl > Sum(ds) then s.dflt else NULL
    decreases |ds|
  {
    if ds != [] {
      TickOnDefault(s, ds[0]);
      var t := Age(s, ds[0]);
      if t.dflt != NULL { DefaultLivesIff(t, ds[1..]); } else { NoDefault(t, ds[1..]); }
    }
  }

  lemma {:induction false} NoDefault(s: Sys, ds: seq<nat>)
    requires Sound(s) && s.dflt == NULL
    ensures Ticks(s, ds).dflt == NULL
    decreases |ds|
  {
    if ds != [] {
      AgeKeeps(s, ds[0]);
      AgeBucketsExact(s, 0, ds[0]);
      NoDefault(Age(s, ds[0]), ds[1..]);
    }
  }

  lemma TickOnDefault(s: Sys, delta: nat)
    requires Sound(s) && s.dflt != NULL && 0 < s.rt[s.dflt].ttl < 0x8000 && delta <= 0x8000
    ensures var t := Age(s, delta); var ttl := s.rt[s.dflt].ttl;
            && Sound(t)
            && (ttl >= RT_INF ==> t.dflt == s.dflt && t.rt[s.dflt].ttl == ttl)
            && (ttl < RT_INF && ttl > delta ==> t.dflt == s.dflt && t.rt[s.dflt].ttl == ttl - delta)
            && (ttl < RT_INF && ttl <= delta ==> t.dflt == NULL)
  {
    AgeKeeps(s, delta);
    AgeBucketsExact(s, 0, delta);
    AgeBucketsTtl(s, 0, delta, s.dflt);
    forall a: nat | a < RT_TSIZE ensures s.dflt !in s.chains[a] {
      if s.dflt in s.chains[a] { WhereLinked(s, a, s.dflt); }
    }
    DefaultAged(AgeBuckets(s, 0, delta), delta);
  }

  lemma DefaultAged(s: Sys, delta: nat)
    requires s.Sized() && s.dflt != NULL && 0 < s.rt[s.dflt].ttl < 0x8000 && delta <= 0x8000
    ensures var t := AgeDefault(s, delta); var ttl := s.rt[s.dflt].ttl;
            && t.Sized()
            && (ttl >= RT_INF ==> t == s)
            && (ttl < RT_INF && ttl > delta ==> t.dflt == s.dflt && t.rt[s.dflt].ttl == ttl - delta)
            && (ttl < RT_INF && ttl <= delta ==> t.dflt == NULL)
  {
  }
}
