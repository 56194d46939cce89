/** The routing calls, what any run of them keeps, and what a lookup finds. */
module RouteRuns {
  import opened RouteHash
  import opened Routes

  // ----- the calls -----

  /** What is left of a number in an unsigned and in a signed halfword. */
  function UShort(x: nat): nat { x % 0x1_0000 }
  function Short(x: int): int { if x % 0x1_0000 < 0x8000 then x % 0x1_0000 else x % 0x1_0000 - 0x1_0000 }

  /** rtnew, and the key rtadd computes. */
  function NewRoute(net: IPaddr, mask: IPaddr, gw: IPaddr, metric: nat, ifnum: nat, ttl: nat): Rt {
    Rt(net, mask, gw, UShort(metric), UShort(ifnum), Key(mask), Short(ttl), 1, 0)
  }

  /** The scan goes past a route with no smaller key and another net or mask. */
  predicate Passed(y: Rt, x: Rt) { x.key <= y.key && !(y.net == x.net && y.mask == x.mask) }

  predicate IsFor(x: Rt, net: IPaddr, mask: IPaddr) { x.net == net && x.mask == mask }

  /** Where rtadd's scan of a bucket stops: at the same net and mask, or at a smaller key. */
  function Slot(rt: seq<Rt>, c: seq<Rid>, x: Rt): (i: nat)
    requires |rt| == RT_BPSIZE
    ensures i <= |c|
    ensures (forall j :: 0 <= j < i ==> Passed(rt[c[j]], x)) && (i < |c| ==> !Passed(rt[c[i]], x))
  {
    if c == [] || !Passed(rt[c[0]], x) then 0 else 1 + Slot(rt, c[1..], x)
  }

  predicate IsDup(rt: seq<Rt>, c: seq<Rid>, i: nat, x: Rt)
    requires |rt| == RT_BPSIZE && i <= |c|
  {
    i < |c| && !(x.key > rt[c[i]].key) && rt[c[i]].net == x.net && rt[c[i]].mask == x.mask
  }

  /** rtadd: a new route, with a place in the table or in place of one there, or only the metric of
      one there, or nothing. */
  ghost function Add(s: Sys, x: Rt): Sys
    requires Sound(s) && s.free != [] && x.refcnt == 1 && x.key == Key(x.mask)
  {
    AllocKeeps(s, x);
    if x.net == IP_ANYADDR then AddDefault(Alloc(s, x), s.free[0]) else AddTo(Alloc(s, x), s.free[0])
  }

  ghost predicate Fresh(s: Sys, n: Rid) {
    Sound(s) && s.handles[n] == 1 && !InTable(s, n) && s.rt[n].key == Key(s.rt[n].mask)
  }

  ghost function AddDefault(s: Sys, n: Rid): Sys
    requires Fresh(s, n)
  {
    if s.dflt == NULL then SetDefault(s, n)
    else
      ClearDefaultKeeps(s);
      SetDefault(Drop(ClearDefault(s), s.dflt), n)
  }

  ghost function AddTo(s: Sys, n: Rid): Sys
    requires Fresh(s, n)
  {
    var b := Hash(s.rt[n].net);
    var c := s.chains[b];
    var i := Slot(s.rt, c, s.rt[n]);
    if IsDup(s.rt, c, i, s.rt[n]) then
      var was := c[i];
      if s.rt[was].gw == s.rt[n].gw then Drop(Amend(s, was, s.rt[n].metric, s.rt[was].ttl), n)
      else if s.rt[was].metric <= s.rt[n].metric then Drop(s, n)
      else Replace(s, b, i, n)
    else Link(s, b, i, n)
  }

  ghost function Replace(s: Sys, b: nat, i: nat, n: Rid): Sys
    requires Fresh(s, n) && b < RT_TSIZE && i < |s.chains[b]|
  {
    UnlinkKeeps(s, b, i);
    WhereLinked(s, b, s.chains[b][i]);
    Link(Drop(Unlink(s, b, i), s.chains[b][i]), b, i, n)
  }

  predicate Usable(x: Rt, dst: IPaddr, local: bool, brc: bool) {
    x.ttl > 0 && NetMatch(dst, x.net, x.mask, local, brc) && x.metric < RTM_INF
  }

  /** Where rtget's scan of a bucket stops. */
  function FirstUsable(rt: seq<Rt>, c: seq<Rid>, dst: IPaddr, local: bool, brc: bool): (i: nat)
    requires |rt| == RT_BPSIZE
    ensures i <= |c| && (i < |c| ==> Usable(rt[c[i]], dst, local, brc))
    ensures forall j :: 0 <= j < i ==> !Usable(rt[c[j]], dst, local, brc)
  {
    if c == [] || Usable(rt[c[0]], dst, local, brc) then 0 else 1 + FirstUsable(rt, c[1..], dst, local, brc)
  }

  /** The route rtget chooses. */
  function Choose(s: Sys, dst: IPaddr, local: bool, brc: bool): int
    requires s.Sized()
  {
    var c := s.chains[Hash(dst)];
    var i := FirstUsable(s.rt, c, dst, local, brc);
    if i < |c| then c[i] else if s.dflt != NULL && s.rt[s.dflt].metric < RTM_INF then s.dflt else NULL
  }

  function Get(s: Sys, dst: IPaddr, local: bool, brc: bool): Sys
    requires s.Sized()
  {
    var r := Choose(s, dst, local, brc);
    if r == NULL then s else Grab(s, r)
  }

  function Find(rt: seq<Rt>, c: seq<Rid>, net: IPaddr, mask: IPaddr): (i: nat)
    requires |rt| == RT_BPSIZE
    ensures i <= |c| && (i < |c| ==> IsFor(rt[c[i]], net, mask))
    ensures forall j :: 0 <= j < i ==> !IsFor(rt[c[j]], net, mask)
  {
    if c == [] || IsFor(rt[c[0]], net, mask) then 0 else 1 + Find(rt, c[1..], net, mask)
  }

  /** The default route, if it is for the net. */
  predicate DefaultFor(s: Sys, net: IPaddr)
    requires s.Sized()
  {
    s.dflt != NULL && s.rt[s.dflt].net == net
  }

  /** The routes of a bucket for a net and mask. */
  predicate Has(s: Sys, b: nat, r: Rid, net: IPaddr, mask: IPaddr)
    requires s.Sized() && b < RT_TSIZE
  {
    r in s.chains[b] && s.rt[r].net == net && s.rt[r].mask == mask
  }

  /** rtdel finds something to take out just when there is something. */
  lemma DelFinds(s: Sys, net: IPaddr, mask: IPaddr)
    requires Sound(s)
    ensures var c := s.chains[Hash(net)];
            Find(s.rt, c, net, mask) < |c| <==> exists r: Rid :: Has(s, Hash(net), r, net, mask)
  {
    var c := s.chains[Hash(net)];
    var i := Find(s.rt, c, net, mask);
    if i < |c| { assert Has(s, Hash(net), c[i], net, mask); }
    if r: Rid :| Has(s, Hash(net), r, net, mask) {
      var j :| 0 <= j < |c| && c[j] == r;
    }
  }

  /** rtdel. */
  ghost function Del(s: Sys, net: IPaddr, mask: IPaddr): Sys
    requires Sound(s)
  {
    if s.dflt != NULL && s.rt[s.dflt].net == net then ClearDefaultKeeps(s); Drop(ClearDefault(s), s.dflt)
    else
      var b := Hash(net);
      var i := Find(s.rt, s.chains[b], net, mask);
      if i < |s.chains[b]| then Expire(s, b, i) else s
  }

  /** A route is taken out of its bucket and its reference given back. */
  function Expire(s: Sys, b: nat, i: nat): Sys
    requires s.Sized() && b < RT_TSIZE && i < |s.chains[b]|
  {
    Drop(Unlink(s, b, i), s.chains[b][i])
  }

  /** What is left of a time to live after `delta` seconds. */
  function Aged(ttl: int, delta: nat): int { if ttl == RT_INF then ttl else Short(ttl - delta) }

  function Tick(s: Sys, r: Rid, delta: nat): Sys
    requires s.Sized()
  {
    Amend(s, r, s.rt[r].metric, Aged(s.rt[r].ttl, delta))
  }

  /** rttimer's walk of a bucket from place `i` on. */
  function AgeFrom(s: Sys, b: nat, i: nat, delta: nat): (t: Sys)
    requires s.Sized() && b < RT_TSIZE && i <= |s.chains[b]|
    ensures t.Sized()
    decreases |s.chains[b]| - i
  {
    if i == |s.chains[b]| then s
    else
      var t := Tick(s, s.chains[b][i], delta);
      if t.rt[s.chains[b][i]].ttl <= 0 then AgeFrom(Expire(t, b, i), b, i, delta) else AgeFrom(t, b, i + 1, delta)
  }

  function AgeBuckets(s: Sys, b: nat, delta: nat): (t: Sys)
    requires s.Sized() && b <= RT_TSIZE
    ensures t.Sized()
    decreases RT_TSIZE - b
  {
    if b == RT_TSIZE then s else AgeBuckets(AgeFrom(s, b, 0, delta), b + 1, delta)
  }

  function AgeDefault(s: Sys, delta: nat): Sys
    requires s.Sized()
  {
    if s.dflt == NULL || s.rt[s.dflt].ttl >= RT_INF then s
    else
      var t := Amend(s, s.dflt, s.rt[s.dflt].metric, Short(s.rt[s.dflt].ttl - delta));
      if t.rt[s.dflt].ttl <= 0 then Drop(ClearDefault(t), s.dflt) else t
  }

  /** rttimer. */
  function Age(s: Sys, delta: nat): Sys
    requires s.Sized()
  {
    AgeDefault(AgeBuckets(s, 0, delta), delta)
  }

  // ----- what they keep -----

  lemma AddKeeps(s: Sys, x: Rt)
    requires Sound(s) && s.free != [] && x.refcnt == 1 && x.key == Key(x.mask)
    ensures Sound(Add(s, x))
  {
    AllocKeeps(s, x);
    var t, n := Alloc(s, x), s.free[0];
    if x.net == IP_ANYADDR {
      if t.dflt == NULL {
        SetDefaultKeeps(t, n);
      } else {
        ClearDefaultKeeps(t);
        DropKeeps(ClearDefault(t), t.dflt);
        SetDefaultKeeps(Drop(ClearDefault(t), t.dflt), n);
      }
    } else {
      AddToKeeps(t, n);
    }
  }

  lemma AddToKeeps(s: Sys, n: Rid)
    requires Fresh(s, n) && s.rt[n].net != IP_ANYADDR
    ensures Sound(AddTo(s, n))
  {
    var b := Hash(s.rt[n].net);
    var c := s.chains[b];
    var i := Slot(s.rt, c, s.rt[n]);
    if IsDup(s.rt, c, i, s.rt[n]) {
      var was := c[i];
      if s.rt[was].gw == s.rt[n].gw {
        AmendKeeps(s, was, s.rt[n].metric, s.rt[was].ttl);
        DropKeeps(Amend(s, was, s.rt[n].metric, s.rt[was].ttl), n);
      } else if s.rt[was].metric <= s.rt[n].metric {
        DropKeeps(s, n);
      } else {
        ReplaceKeeps(s, b, i, n);
      }
    } else {
      SlotFits(s, b, i, n);
      LinkKeeps(s, b, i, n);
    }
  }

  lemma SlotFits(s: Sys, b: nat, i: nat, n: Rid)
    requires Fresh(s, n) && s.rt[n].net != IP_ANYADDR && b == Hash(s.rt[n].net) && i == Slot(s.rt, s.chains[b], s.rt[n])
    requires !IsDup(s.rt, s.chains[b], i, s.rt[n])
    ensures FitsAt(s, b, i, n)
  {
    var c := s.chains[b];
    assert ChainOk(s, b);
    forall j | i <= j < |c| ensures Ahead(s.rt[n], s.rt[c[j]]) {
      assert NodeOk(s, b, c[i]) && NodeOk(s, b, c[j]);
      if i < j { assert Ahead(s.rt[c[i]], s.rt[c[j]]); }
    }
  }

  lemma ReplaceKeeps(s: Sys, b: nat, i: nat, n: Rid)
    requires Fresh(s, n) && b < RT_TSIZE && i < |s.chains[b]| && s.rt[n].net != IP_ANYADDR
    requires var x := s.rt[s.chains[b][i]]; x.net == s.rt[n].net && x.mask == s.rt[n].mask
    ensures Sound(Replace(s, b, i, n))
  {
    var c := s.chains[b];
    var was := c[i];
    WhereLinked(s, b, was);
    UnlinkKeeps(s, b, i);
    var u := Unlink(s, b, i);
    DropKeeps(u, was);
    var t := Drop(u, was);
    var d := t.chains[b];
    assert ChainOk(s, b) && NodeOk(s, b, was) && !InTable(t, n);
    forall j | 0 <= j < |d|
      ensures if j < i then Ahead(t.rt[d[j]], t.rt[n]) else Ahead(t.rt[n], t.rt[d[j]])
    {
      if j < i { assert Ahead(s.rt[c[j]], s.rt[was]); } else { assert Ahead(s.rt[was], s.rt[c[j + 1]]); }
    }
    LinkKeeps(t, b, i, n);
  }

  lemma GetKeeps(s: Sys, dst: IPaddr, local: bool, brc: bool)
    requires Sound(s)
    ensures Sound(Get(s, dst, local, brc))
    ensures var r := Choose(s, dst, local, brc); r == NULL || (InTable(s, r) && s.rt[r].metric < RTM_INF)
  {
    var r := Choose(s, dst, local, brc);
    if r != NULL {
      assert RefOk(s, r);
      if r in s.chains[Hash(dst)] { WhereLinked(s, Hash(dst), r); }
      GrabKeeps(s, r);
    }
  }

  lemma ExpireKeeps(s: Sys, b: nat, i: nat)
    requires Sound(s) && b < RT_TSIZE && i < |s.chains[b]|
    ensures Sound(Expire(s, b, i))
  {
    UnlinkKeeps(s, b, i);
    DropKeeps(Unlink(s, b, i), s.chains[b][i]);
  }

  lemma DelKeeps(s: Sys, net: IPaddr, mask: IPaddr)
    requires Sound(s)
    ensures Sound(Del(s, net, mask))
  {
    if s.dflt != NULL && s.rt[s.dflt].net == net {
      ClearDefaultKeeps(s);
      DropKeeps(ClearDefault(s), s.dflt);
    } else {
      var b := Hash(net);
      var i := Find(s.rt, s.chains[b], net, mask);
      if i < |s.chains[b]| { ExpireKeeps(s, b, i); }
    }
  }

  lemma {:induction false} AgeFromKeeps(s: Sys, b: nat, i: nat, delta: nat)
    requires Sound(s) && b < RT_TSIZE && i <= |s.chains[b]|
    ensures Sound(AgeFrom(s, b, i, delta))
    decreases |s.chains[b]| - i
  {
    if i < |s.chains[b]| {
      var r := s.chains[b][i];
      AmendKeeps(s, r, s.rt[r].metric, Aged(s.rt[r].ttl, delta));
      var t := Tick(s, r, delta);
      if t.rt[r].ttl <= 0 {
        ExpireKeeps(t, b, i);
        AgeFromKeeps(Expire(t, b, i), b, i, delta);
      } else {
        AgeFromKeeps(t, b, i + 1, delta);
      }
    }
  }

  lemma {:induction false} AgeBucketsKeeps(s: Sys, b: nat, delta: nat)
    requires Sound(s) && b <= RT_TSIZE
    ensures Sound(AgeBuckets(s, b, delta))
    decreases RT_TSIZE - b
  {
    if b < RT_TSIZE {
      AgeFromKeeps(s, b, 0, delta);
      AgeBucketsKeeps(AgeFrom(s, b, 0, delta), b + 1, delta);
    }
  }

  lemma AgeDefaultKeeps(s: Sys, delta: nat)
    requires Sound(s)
    ensures Sound(AgeDefault(s, delta))
  {
    if s.dflt != NULL && s.rt[s.dflt].ttl < RT_INF {
      var ttl := Short(s.rt[s.dflt].ttl - delta);
      AmendKeeps(s, s.dflt, s.rt[s.dflt].metric, ttl);
      if ttl <= 0 {
        ForgetKeeps(Amend(s, s.dflt, s.rt[s.dflt].metric, ttl));
      }
    }
  }

  lemma ForgetKeeps(t: Sys)
    requires Sound(t) && t.dflt != NULL
    ensures Sound(Drop(ClearDefault(t), t.dflt))
  {
    ClearDefaultKeeps(t);
    DropKeeps(ClearDefault(t), t.dflt);
  }

  lemma AgeKeeps(s: Sys, delta: nat)
    requires Sound(s)
    ensures Sound(Age(s, delta))
  {
    AgeBucketsKeeps(s, 0, delta);
    AgeDefaultKeeps(AgeBuckets(s, 0, delta), delta);
  }

  // ----- who holds what -----

  /** What no call changes about a route. */
  predicate SameRoute(x: Rt, y: Rt) {
    x.net == y.net && x.mask == y.mask && x.gw == y.gw && x.ifnum == y.ifnum && x.key == y.key
  }

  /** The references of callers are as they were, and so are the routes, but for one buffer. */
  predicate Untouched(s: Sys, t: Sys, but: int)
    requires s.Sized() && t.Sized()
  {
    t.handles == s.handles && forall r: Rid :: r != but ==> SameRoute(t.rt[r], s.rt[r])
  }

  lemma AddDefaultHolds(s: Sys, n: Rid)
    requires Fresh(s, n) && s.rt[n].net == IP_ANYADDR
    ensures var t := AddDefault(s, n); t.Sized() && t.handles == s.handles[n := 0]
    ensures forall r: Rid :: SameRoute(AddDefault(s, n).rt[r], s.rt[r])
  {
    if s.dflt != NULL {
      ClearDefaultKeeps(s);
    }
  }

  lemma AddToHolds(s: Sys, n: Rid)
    requires Fresh(s, n) && s.rt[n].net != IP_ANYADDR
    ensures var t := AddTo(s, n); t.Sized() && t.handles == s.handles[n := 0]
    ensures forall r: Rid :: SameRoute(AddTo(s, n).rt[r], s.rt[r])
  {
    var b := Hash(s.rt[n].net);
    var c := s.chains[b];
    var i := Slot(s.rt, c, s.rt[n]);
    if IsDup(s.rt, c, i, s.rt[n]) {
      WhereLinked(s, b, c[i]);
    }
  }

  lemma AddHolds(s: Sys, x: Rt)
    requires Sound(s) && s.free != [] && x.refcnt == 1 && x.key == Key(x.mask)
    ensures var t := Add(s, x); t.Sized() && Untouched(s, t, s.free[0])
  {
    AllocKeeps(s, x);
    var n := s.free[0];
    assert s.handles[n := 1][n := 0] == s.handles;
    if x.net == IP_ANYADDR { AddDefaultHolds(Alloc(s, x), n); } else { AddToHolds(Alloc(s, x), n); }
  }

  lemma {:induction false} AgeFromHolds(s: Sys, b: nat, i: nat, delta: nat)
    requires Sound(s) && b < RT_TSIZE && i <= |s.chains[b]|
    ensures var t := AgeFrom(s, b, i, delta); Untouched(s, t, NULL) && t.dflt == s.dflt
    decreases |s.chains[b]| - i
  {
    if i < |s.chains[b]| {
      var r := s.chains[b][i];
      AmendKeeps(s, r, s.rt[r].metric, Aged(s.rt[r].ttl, delta));
      var t := Tick(s, r, delta);
      if t.rt[r].ttl <= 0 {
        ExpireKeeps(t, b, i);
        AgeFromHolds(Expire(t, b, i), b, i, delta);
      } else {
        AgeFromHolds(t, b, i + 1, delta);
      }
    }
  }

  lemma {:induction false} AgeBucketsHold(s: Sys, b: nat, delta: nat)
    requires Sound(s) && b <= RT_TSIZE
    ensures var t := AgeBuckets(s, b, delta); Untouched(s, t, NULL) && t.dflt == s.dflt
    decreases RT_TSIZE - b
  {
    if b < RT_TSIZE {
      AgeFromKeeps(s, b, 0, delta);
      AgeFromHolds(s, b, 0, delta);
      AgeBucketsHold(AgeFrom(s, b, 0, delta), b + 1, delta);
    }
  }

  lemma AgeHolds(s: Sys, delta: nat)
    requires Sound(s)
    ensures var t := Age(s, delta); t.Sized() && Untouched(s, t, NULL)
  {
    AgeBucketsKeeps(s, 0, delta);
    AgeBucketsHold(s, 0, delta);
  }

  // ----- runs -----

  datatype Op = RtAdd(net: IPaddr, mask: IPaddr, gw: IPaddr, metric: nat, ifnum: nat, ttl: nat)
              | RtGet(dst: IPaddr, local: bool, brc: bool)
              | RtDel(net: IPaddr, mask: IPaddr)
              | RtFree(r: Rid)
              | RtTimer(delta: nat)

  /** rtadd waits for a free buffer; only a route that is held is given back. */
  predicate Enabled(s: Sys, op: Op)
    requires s.Sized()
  {
    match op
    case RtAdd(_, _, _, _, _, _) => s.free != []
    case RtFree(r) => s.handles[r] > 0
    case _ => true
  }

  ghost function Step(s: Sys, op: Op): Sys
    requires Sound(s) && Enabled(s, op)
  {
    match op
    case RtAdd(net, mask, gw, metric, ifnum, ttl) => Add(s, NewRoute(net, mask, gw, metric, ifnum, ttl))
    case RtGet(dst, local, brc) => Get(s, dst, local, brc)
    case RtDel(net, mask) => Del(s, net, mask)
    case RtFree(r) => Drop(s, r)
    case RtTimer(delta) => Age(s, delta)
  }

  /** Every call keeps the table sound: buckets in order, no net and mask twice, each count the
      place in the table and the references held, each buffer free just when its count is zero.
      Only a lookup takes a reference, of the route it returns, and only a release gives one
      back. */
  lemma StepKeeps(s: Sys, op: Op)
    requires Sound(s) && Enabled(s, op)
    ensures var t := Step(s, op); Sound(t) && t.handles == Holds(s, op)
  {
    match op
    case RtAdd(net, mask, gw, metric, ifnum, ttl) =>
      var x := NewRoute(net, mask, gw, metric, ifnum, ttl);
      AddKeeps(s, x);
      AddHolds(s, x);
    case RtGet(dst, local, brc) => GetKeeps(s, dst, local, brc);
    case RtDel(net, mask) => DelKeeps(s, net, mask);
    case RtFree(r) => DropKeeps(s, r);
    case RtTimer(delta) => AgeKeeps(s, delta); AgeHolds(s, delta);
  }

  function Holds(s: Sys, op: Op): seq<nat>
    requires s.Sized() && Enabled(s, op)
  {
    match op
    case RtGet(dst, local, brc) =>
      var r := Choose(s, dst, local, brc);
      if r == NULL then s.handles else s.handles[r := s.handles[r] + 1]
    case RtFree(r) => s.handles[r := s.handles[r] - 1]
    case _ => s.handles
  }

  /** A route that a caller holds is still that route after any call. */
  lemma HeldStays(s: Sys, op: Op, r: Rid)
    requires Sound(s) && Enabled(s, op) && s.handles[r] > 0
    ensures var t := Step(s, op); t.Sized() && SameRoute(t.rt[r], s.rt[r]) && (op != RtFree(r) ==> r !in t.free)
  {
    StepKeeps(s, op);
    var t := Step(s, op);
    assert RefOk(s, r) && RefOk(t, r);
    match op
    case RtAdd(net, mask, gw, metric, ifnum, ttl) => AddHolds(s, NewRoute(net, mask, gw, metric, ifnum, ttl));
    case RtTimer(delta) => AgeHolds(s, delta);
    case _ =>
  }

  ghost predicate RunEnabled(s: Sys, ops: seq<Op>)
    requires Sound(s)
    decreases |ops|
  {
    ops == [] || (Enabled(s, ops[0]) && (StepKeeps(s, ops[0]); RunEnabled(Step(s, ops[0]), ops[1..])))
  }

  ghost function Run(s: Sys, ops: seq<Op>): Sys
    requires Sound(s) && RunEnabled(s, ops)
    decreases |ops|
  {
    if ops == [] then s else StepKeeps(s, ops[0]); Run(Step(s, ops[0]), ops[1..])
  }

  /** How often a route was given back. */
  function Given(ops: seq<Op>, r: Rid): nat {
    if ops == [] then 0 else (if ops[0] == RtFree(r) then 1 else 0) + Given(ops[1..], r)
  }

  /** Over any run the table stays sound, and a route that some caller has not given back is the
      same route, in a buffer that is not free. */
  lemma {:induction false} RunKeeps(s: Sys, ops: seq<Op>, r: Rid)
    requires Sound(s) && RunEnabled(s, ops)
    ensures Sound(Run(s, ops))
    ensures var t := Run(s, ops); Given(ops, r) < s.handles[r] ==>
              SameRoute(t.rt[r], s.rt[r]) && r !in t.free && t.rt[r].refcnt > 0
    decreases |ops|
  {
    if ops == [] {
      assert RefOk(s, r);
    } else {
      StepKeeps(s, ops[0]);
      if s.handles[r] > 0 { HeldStays(s, ops[0], r); }
      RunKeeps(Step(s, ops[0]), ops[1..], r);
    }
  }
}
