/** The routing table in memory: bucket heads, route buffers linked by number, and the pool's free
    list, each call against the step of the model it makes. */
module RouteTable {
  import opened RouteHash
  import opened Routes
  import opened RouteRuns

  /** What a link to place `i` of a bucket holds. */
  function At(c: seq<Rid>, i: nat): int { if i < |c| then c[i] else NULL }

  /** The place in front of place `i`. */
  function Prev(c: seq<Rid>, i: nat): int
    requires i <= |c|
  {
    if i == 0 then NULL else c[i - 1]
  }

  predicate Linked(head: int, next: seq<int>, c: seq<Rid>)
    requires |next| == RT_BPSIZE
  {
    head == At(c, 0) && forall i :: 0 <= i < |c| ==> next[c[i]] == At(c, i + 1)
  }

  ghost predicate AllLinked(heads: seq<int>, next: seq<int>, chains: seq<seq<Rid>>)
    requires |next| == RT_BPSIZE && |heads| == |chains| == RT_TSIZE
  {
    forall b :: 0 <= b < RT_TSIZE ==> Linked(heads[b], next, chains[b])
  }

  predicate Once(c: seq<Rid>) { forall j, k :: 0 <= j < k < |c| ==> c[j] != c[k] }

  /** Writing one link of a bucket to skip a place takes the route there out. */
  lemma CutChain(head: int, next: seq<int>, c: seq<Rid>, i: nat)
    requires |next| == RT_BPSIZE && Linked(head, next, c) && Once(c) && i < |c|
    ensures var d := c[..i] + c[i + 1..];
            if i == 0 then Linked(At(c, 1), next, d) else Linked(head, next[c[i - 1] := At(c, i + 1)], d)
  {
    var d := c[..i] + c[i + 1..];
    var n := if i == 0 then next else next[c[i - 1] := At(c, i + 1)];
    forall j | 0 <= j < |d| ensures n[d[j]] == At(d, j + 1) {
      CutPlace(c, i, j);
      var k := if j < i then j else j + 1;
      assert next[c[k]] == At(c, k + 1);
    }
  }

  /** Place `j` of a bucket with place `i` taken out, and what comes after it. */
  lemma CutPlace(c: seq<Rid>, i: nat, j: nat)
    requires i < |c| && j < |c| - 1
    ensures var d, k := c[..i] + c[i + 1..], if j < i then j else j + 1;
            d[j] == c[k] && At(d, j + 1) == if j + 1 == i then At(c, i + 1) else At(c, k + 1)
  {
  }

  /** Two writes put a route in at a place. */
  lemma SpliceChain(head: int, next: seq<int>, c: seq<Rid>, i: nat, n: Rid)
    requires |next| == RT_BPSIZE && Linked(head, next, c) && Once(c) && i <= |c| && n !in c
    ensures var d := c[..i] + [n] + c[i..]; var m := next[n := At(c, i)];
            if i == 0 then Linked(n, m, d) else Linked(head, m[c[i - 1] := n], d)
  {
    var d := c[..i] + [n] + c[i..];
    var m := if i == 0 then next[n := At(c, i)] else next[n := At(c, i)][c[i - 1] := n];
    forall j | 0 <= j < |d| ensures m[d[j]] == At(d, j + 1) {
      if j != i {
        var k := if j < i then j else j - 1;
        assert next[c[k]] == At(c, k + 1) && c[k] in c;
      }
    }
  }

  lemma OtherChain(head: int, next: seq<int>, c: seq<Rid>, p: Rid, v: int)
    requires |next| == RT_BPSIZE && Linked(head, next, c) && p !in c
    ensures Linked(head, next[p := v], c)
  {
    forall i | 0 <= i < |c| ensures next[p := v][c[i]] == At(c, i + 1) { assert c[i] in c; }
  }

  /** A route in one bucket is in no other. */
  lemma ElsewhereNot(s: Sys, b: nat, r: Rid, a: nat)
    requires Sound(s) && b < RT_TSIZE && a < RT_TSIZE && a != b && r in s.chains[b]
    ensures r !in s.chains[a]
  {
    WhereLinked(s, b, r);
    if r in s.chains[a] { WhereLinked(s, a, r); }
  }

  /** The link of a route is to the one behind it. */
  lemma LinkBehind(heads: seq<int>, next: seq<int>, chains: seq<seq<Rid>>, b: nat, i: nat)
    requires |next| == RT_BPSIZE && |heads| == |chains| == RT_TSIZE && AllLinked(heads, next, chains)
    requires b < RT_TSIZE && i < |chains[b]|
    ensures next[chains[b][i]] == At(chains[b], i + 1)
  {
    assert Linked(heads[b], next, chains[b]);
  }

  lemma CutLinked(s: Sys, heads: seq<int>, next: seq<int>, b: nat, i: nat)
    requires Sound(s) && |next| == RT_BPSIZE && |heads| == RT_TSIZE && AllLinked(heads, next, s.chains)
    requires b < RT_TSIZE && i < |s.chains[b]|
    ensures var c := s.chains[b]; var d := Unlink(s, b, i).chains;
            if i == 0 then AllLinked(heads[b := At(c, 1)], next, d)
            else AllLinked(heads, next[c[i - 1] := At(c, i + 1)], d)
  {
    var c := s.chains[b];
    ChainDistinct(s, b);
    CutChain(heads[b], next, c, i);
    forall a: nat | a < RT_TSIZE && a != b && i > 0
      ensures Linked(heads[a], next[c[i - 1] := At(c, i + 1)], s.chains[a])
    {
      ElsewhereNot(s, b, c[i - 1], a);
      OtherChain(heads[a], next, s.chains[a], c[i - 1], At(c, i + 1));
    }
  }

  lemma SpliceLinked(s: Sys, heads: seq<int>, next: seq<int>, b: nat, i: nat, n: Rid)
    requires Sound(s) && |next| == RT_BPSIZE && |heads| == RT_TSIZE && AllLinked(heads, next, s.chains)
    requires b < RT_TSIZE && i <= |s.chains[b]| && !InTable(s, n) && s.handles[n] > 0
    ensures var c := s.chains[b]; var d := Link(s, b, i, n).chains; var next' := next[n := At(c, i)];
            if i == 0 then AllLinked(heads[b := n], next', d)
            else AllLinked(heads, next'[c[i - 1] := n], d)
  {
    var c := s.chains[b];
    ChainDistinct(s, b);
    NowhereIn(s, n);
    SpliceChain(heads[b], next, c, i, n);
    var next' := next[n := At(c, i)];
    forall a: nat | a < RT_TSIZE && a != b
      ensures Linked(heads[a], next', s.chains[a]) && (i > 0 ==> Linked(heads[a], next'[c[i - 1] := n], s.chains[a]))
    {
      OtherChain(heads[a], next, s.chains[a], n, At(c, i));
      if i > 0 {
        ElsewhereNot(s, b, c[i - 1], a);
        OtherChain(heads[a], next', s.chains[a], c[i - 1], n);
      }
    }
  }

  lemma NowhereIn(s: Sys, n: Rid)
    requires Sound(s) && !InTable(s, n)
    ensures forall a: nat :: a < RT_TSIZE ==> n !in s.chains[a]
  {
    forall a: nat | a < RT_TSIZE ensures n !in s.chains[a] { if n in s.chains[a] { WhereLinked(s, a, n); } }
  }

  /** The same two writes when the new route takes the place of another. */
  lemma ReplaceLinked(s: Sys, heads: seq<int>, next: seq<int>, b: nat, i: nat, n: Rid)
    requires Fresh(s, n) && |next| == RT_BPSIZE && |heads| == RT_TSIZE && AllLinked(heads, next, s.chains)
    requires b < RT_TSIZE && i < |s.chains[b]|
    ensures var c := s.chains[b]; var d := Replace(s, b, i, n).chains; var next' := next[n := At(c, i + 1)];
            if i == 0 then AllLinked(heads[b := n], next', d)
            else AllLinked(heads, next'[c[i - 1] := n], d)
  {
    var c := s.chains[b];
    var r := c[i];
    WhereLinked(s, b, r);
    UnlinkKeeps(s, b, i);
    CutLinked(s, heads, next, b, i);
    var u := Unlink(s, b, i);
    DropKeeps(u, r);
    var t := Drop(u, r);
    if i == 0 {
      SpliceLinked(t, heads[b := At(c, 1)], next, b, i, n);
      assert heads[b := At(c, 1)][b := n] == heads[b := n];
    } else {
      SpliceLinked(t, heads, next[c[i - 1] := At(c, i + 1)], b, i, n);
      Overwritten(next, c[i - 1], n, At(c, i + 1));
    }
  }

  lemma Overwritten(next: seq<int>, p: Rid, n: Rid, v: int)
    requires |next| == RT_BPSIZE
    ensures next[p := v][n := v][p := n] == next[n := v][p := n]
  {
  }

  lemma AgeFromStep(s: Sys, b: nat, i: nat, delta: nat)
    requires s.Sized() && b < RT_TSIZE && i < |s.chains[b]|
    ensures var r := s.chains[b][i]; var t := Tick(s, r, delta);
            AgeFrom(s, b, i, delta) ==
            if t.rt[r].ttl <= 0 then AgeFrom(Expire(t, b, i), b, i, delta) else AgeFrom(t, b, i + 1, delta)
  {
  }

  class RouteTable {
    const rttable: array<int>
    const rt: array<Rt>
    const next: array<int>
    var dflt: int
    var free: seq<Rid>
    ghost var sys: Sys

    ghost predicate Data()
      reads this, rttable, rt, next
    {
      && rttable != next && rttable.Length == RT_TSIZE && rt.Length == next.Length == RT_BPSIZE
      && sys.Sized() && sys.rt == rt[..] && sys.free == free && sys.dflt == dflt
    }

    ghost predicate Valid()
      reads this, rttable, rt, next
    {
      Data() && AllLinked(rttable[..], next[..], sys.chains)
    }

    /** rtinit. */
    constructor ()
      ensures Valid() && Sound(sys) && fresh(rttable) && fresh(rt) && fresh(next)
      ensures sys.handles == seq(RT_BPSIZE, _ => 0) && dflt == NULL && |free| == RT_BPSIZE
    {
      rttable := new int[RT_TSIZE](_ => NULL);
      next := new int[RT_BPSIZE](_ => NULL);
      rt := new Rt[RT_BPSIZE](_ => Rt(IP_ANYADDR, IP_ANYADDR, IP_ANYADDR, 0, 0, 0, 0, 0, 0));
      dflt := NULL;
      free := seq(RT_BPSIZE, i requires 0 <= i < RT_BPSIZE => i);
      new;
      sys := Sys(seq(RT_TSIZE, _ => []), NULL, rt[..], free, seq(RT_BPSIZE, _ => 0));
      forall r: Rid ensures RefOk(sys, r) { assert free[r] == r; }
    }

    /** rtnew. */
    method RtNew(net: IPaddr, mask: IPaddr, gw: IPaddr, metric: nat, ifnum: nat, ttl: nat, key: nat) returns (n: Rid)
      requires Data() && free != [] && key == Key(mask)
      modifies this`sys, this`free, rt
      ensures Data() && old(free) != [] && n == old(free)[0]
      ensures sys == Alloc(old(sys), NewRoute(net, mask, gw, metric, ifnum, ttl))
    {
      n := free[0];
      free := free[1..];
      rt[n] := Rt(net, mask, gw, UShort(metric), UShort(ifnum), key, Short(ttl), 1, 0);
      sys := Alloc(sys, rt[n]);
    }

    /** RTFREE. */
    method Release(r: Rid)
      requires Data() && sys.handles[r] > 0
      modifies this`sys, this`free, rt
      ensures Data() && sys == Drop(old(sys), r)
    {
      rt[r] := rt[r].(refcnt := rt[r].refcnt - 1);
      if rt[r].refcnt <= 0 {
        free := [r] + free;
      }
      sys := Drop(sys, r);
    }

    /** The link to a place is changed: that of the route in front, or the bucket's. */
    method SetLink(prev: int, b: nat, v: int)
      requires Data() && b < RT_TSIZE && (prev == NULL || 0 <= prev < RT_BPSIZE)
      modifies rttable, next
      ensures Data()
      ensures rttable[..] == if prev == NULL then old(rttable[..])[b := v] else old(rttable[..])
      ensures next[..] == if prev == NULL then old(next[..]) else old(next[..])[prev := v]
    {
      if prev != NULL {
        next[prev] := v;
      } else {
        rttable[b] := v;
      }
    }

    /** The first route of a bucket, and the one behind a place in it. */
    method First(b: nat) returns (r: int)
      requires Valid() && b < RT_TSIZE
      ensures r == At(sys.chains[b], 0)
    {
      assert Linked(rttable[..][b], next[..], sys.chains[b]);
      r := rttable[b];
    }

    method Behind(prt: Rid, ghost b: nat, ghost i: nat) returns (r: int)
      requires Valid() && b < RT_TSIZE && i < |sys.chains[b]| && prt == sys.chains[b][i]
      ensures r == At(sys.chains[b], i + 1)
    {
      assert Linked(rttable[..][b], next[..], sys.chains[b]) && next[..][sys.chains[b][i]] == At(sys.chains[b], i + 1);
      r := next[prt];
    }

    /** rtfree. */
    method RtFree(r: Rid)
      requires Valid() && Sound(sys) && sys.handles[r] > 0
      modifies this`sys, this`free, rt
      ensures Valid() && Sound(sys) && sys == Drop(old(sys), r)
    {
      DropKeeps(sys, r);
      Release(r);
    }

    /** rtget. `brc` says whether `dest` is a broadcast address of this host. */
    method RtGet(dest: IPaddr, local: bool, brc: bool) returns (prt: int)
      requires Valid() && Sound(sys)
      modifies this`sys, rt
      ensures Valid() && Sound(sys) && sys == Get(old(sys), dest, local, brc)
      ensures prt == Choose(old(sys), dest, local, brc)
    {
      GetKeeps(sys, dest, local, brc);
      prt := Select(dest, local, brc);
      if prt != NULL {
        Take(prt);
      }
    }

    /** A reference is taken. */
    method Take(r: Rid)
      requires Valid()
      modifies this`sys, rt
      ensures Valid() && sys == Grab(old(sys), r)
    {
      rt[r] := rt[r].(refcnt := rt[r].refcnt + 1, usecnt := rt[r].usecnt + 1);
      sys := Grab(sys, r);
    }

    method Select(dest: IPaddr, local: bool, brc: bool) returns (prt: int)
      requires Valid()
      ensures prt == Choose(sys, dest, local, brc)
    {
      var hv := RtHash(dest);
      prt := Search(hv, dest, local, brc);
      if prt == NULL {
        prt := dflt;
      }
      if prt != NULL && rt[prt].metric >= RTM_INF {
        prt := NULL;
      }
    }

    /** The loop of rtget. */
    method Search(hv: nat, dest: IPaddr, local: bool, brc: bool) returns (prt: int)
      requires Valid() && hv < RT_TSIZE
      ensures var c := sys.chains[hv]; prt == At(c, FirstUsable(sys.rt, c, dest, local, brc))
    {
      ghost var c, i := sys.chains[hv], 0;
      prt := First(hv);
      while prt != NULL
        invariant i <= |c| && prt == At(c, i)
        invariant forall j :: 0 <= j < i ==> !Usable(sys.rt[c[j]], dest, local, brc)
        decreases |c| - i
      {
        if Usable(rt[prt], dest, local, brc) {
          break;
        }
        prt := Behind(prt, hv, i);
        i := i + 1;
      }
      FirstUsableIs(sys.rt, c, dest, local, brc, i);
    }

    /** rtdel. */
    method RtDel(net: IPaddr, mask: IPaddr) returns (ok: bool)
      requires Valid() && Sound(sys)
      modifies this`sys, this`free, this`dflt, rt, rttable, next
      ensures Valid() && Sound(sys) && sys == Del(old(sys), net, mask)
      ensures ok == (DefaultFor(old(sys), net) || exists r: Rid :: Has(old(sys), Hash(net), r, net, mask))
    {
      DelKeeps(sys, net, mask);
      DelFinds(sys, net, mask);
      if dflt != NULL && rt[dflt].net == net {
        DropDefault();
        return true;
      }
      var hv := RtHash(net);
      var prev, prt, i := Locate(hv, net, mask);
      if prt == NULL {
        return false;
      }
      TakeOut(hv, prev, prt, i);
      ok := true;
    }

    /** The default route is given up. */
    method DropDefault()
      requires Valid() && Sound(sys) && dflt != NULL
      modifies this`sys, this`free, this`dflt, rt
      ensures Valid() && sys == Drop(ClearDefault(old(sys)), old(sys).dflt) && dflt == NULL
    {
      ClearDefaultKeeps(sys);
      var d := dflt;
      sys := ClearDefault(sys);
      dflt := NULL;
      Release(d);
    }

    /** The loop of rtdel. */
    method Locate(hv: nat, net: IPaddr, mask: IPaddr) returns (prev: int, prt: int, ghost i: nat)
      requires Valid() && hv < RT_TSIZE
      ensures i == Find(sys.rt, sys.chains[hv], net, mask)
      ensures var c := sys.chains[hv]; var k := Find(sys.rt, c, net, mask); prt == At(c, k) && prev == Prev(c, k)
    {
      ghost var c := sys.chains[hv];
      prt := First(hv);
      prev, i := NULL, 0;
      while prt != NULL && !IsFor(rt[prt], net, mask)
        invariant i <= |c| && prt == At(c, i) && prev == Prev(c, i)
        invariant NoneFor(sys.rt, c, i, net, mask)
        decreases |c| - i
      {
        prev := prt;
        prt := Behind(prt, hv, i);
        i := i + 1;
      }
      FindIs(sys.rt, c, net, mask, i);
    }

    /** A route is unlinked and its reference given back. */
    method TakeOut(hv: nat, prev: int, prt: Rid, ghost i: nat)
      requires Valid() && Sound(sys) && hv < RT_TSIZE && i < |sys.chains[hv]| && prt == sys.chains[hv][i]
      requires prev == Prev(sys.chains[hv], i)
      modifies this`sys, this`free, rt, rttable, next
      ensures Valid() && Sound(sys) && sys == Expire(old(sys), hv, i)
      ensures dflt == old(dflt)
    {
      ghost var s := sys;
      UnlinkKeeps(s, hv, i);
      ExpireKeeps(s, hv, i);
      CutLinked(s, rttable[..], next[..], hv, i);
      LinkBehind(rttable[..], next[..], s.chains, hv, i);
      SetLink(prev, hv, next[prt]);
      sys := Unlink(s, hv, i);
      Release(prt);
    }

    /** rttimer. */
    method RtTimer(delta: nat)
      requires Valid() && Sound(sys)
      modifies this`sys, this`free, this`dflt, rt, rttable, next
      ensures Valid() && Sound(sys) && sys == Age(old(sys), delta)
    {
      AgeKeeps(sys, delta);
      for i := 0 to RT_TSIZE
        invariant Valid() && Sound(sys) && AgeBuckets(sys, i, delta) == AgeBuckets(old(sys), 0, delta)
      {
        AgeFromKeeps(sys, i, 0, delta);
        AgeBucket(i, delta);
      }
      AgeDefaultRoute(delta);
    }

    /** The end of rttimer. */
    method AgeDefaultRoute(delta: nat)
      requires Valid() && Sound(sys)
      modifies this`sys, this`free, this`dflt, rt
      ensures Valid() && sys == AgeDefault(old(sys), delta)
    {
      if dflt != NULL && rt[dflt].ttl < RT_INF {
        SetTtl(dflt, Short(rt[dflt].ttl - delta));
        if rt[dflt].ttl <= 0 {
          DropDefault();
        }
      }
    }

    method SetTtl(r: Rid, ttl: int)
      requires Valid() && Sound(sys)
      modifies this`sys, rt
      ensures Valid() && Sound(sys) && sys == Amend(old(sys), r, old(sys).rt[r].metric, ttl)
    {
      AmendKeeps(sys, r, sys.rt[r].metric, ttl);
      rt[r] := rt[r].(ttl := ttl);
      sys := Amend(sys, r, sys.rt[r].metric, ttl);
    }

    /** rttimer's walk of one bucket. */
    method AgeBucket(b: nat, delta: nat)
      requires Valid() && Sound(sys) && b < RT_TSIZE
      modifies this`sys, this`free, rt, rttable, next
      ensures Valid() && Sound(sys) && sys == AgeFrom(old(sys), b, 0, delta) && dflt == old(dflt)
    {
      ghost var i: nat := 0;
      var prev := NULL;
      var prt := First(b);
      while prt != NULL
        invariant Valid() && Sound(sys) && dflt == old(dflt) && i <= |sys.chains[b]|
        invariant prt == At(sys.chains[b], i) && prev == Prev(sys.chains[b], i)
        invariant AgeFrom(sys, b, i, delta) == AgeFrom(old(sys), b, 0, delta)
        decreases |sys.chains[b]| - i
      {
        AgeFromStep(sys, b, i, delta);
        ghost var t;
        prev, prt, i, t := AgeRoute(b, prev, prt, i, delta);
      }
    }

    method AgeRoute(b: nat, prev: int, prt: Rid, ghost i: nat, delta: nat)
      returns (prev': int, prt': int, ghost i': nat, ghost t: Sys)
      requires Valid() && Sound(sys) && b < RT_TSIZE && i < |sys.chains[b]|
      requires prt == sys.chains[b][i] && prev == Prev(sys.chains[b], i)
      modifies this`sys, this`free, rt, rttable, next
      ensures Valid() && Sound(sys) && dflt == old(dflt) && t == Tick(old(sys), prt, delta)
      ensures if t.rt[prt].ttl <= 0 then sys == Expire(t, b, i) && i' == i else sys == t && i' == i + 1
      ensures i' <= |sys.chains[b]| && prt' == At(sys.chains[b], i') && prev' == Prev(sys.chains[b], i')
    {
      TickRoute(prt, delta);
      t := sys;
      if rt[prt].ttl <= 0 {
        prt' := TakeOutNext(b, prev, prt, i);
        prev', i' := prev, i;
      } else {
        prt' := Behind(prt, b, i);
        prev', i' := prt, i + 1;
      }
    }

    method TickRoute(prt: Rid, delta: nat)
      requires Valid() && Sound(sys)
      modifies this`sys, rt
      ensures Valid() && Sound(sys) && sys == Tick(old(sys), prt, delta)
    {
      var ttl := rt[prt].ttl;
      if ttl != RT_INF {
        ttl := Short(ttl - delta);
      }
      assert ttl == Aged(sys.rt[prt].ttl, delta);
      SetTtl(prt, ttl);
    }

    method TakeOutNext(b: nat, prev: int, prt: Rid, ghost i: nat) returns (prt': int)
      requires Valid() && Sound(sys) && b < RT_TSIZE && i < |sys.chains[b]| && prt == sys.chains[b][i]
      requires prev == Prev(sys.chains[b], i)
      modifies this`sys, this`free, rt, rttable, next
      ensures Valid() && Sound(sys) && sys == Expire(old(sys), b, i) && dflt == old(dflt)
      ensures prt' == At(sys.chains[b], i) && i <= |sys.chains[b]| == |old(sys).chains[b]| - 1
      ensures prev == Prev(sys.chains[b], i)
    {
      TakeOut(b, prev, prt, i);
      if prev != NULL {
        prt' := Behind(prev, b, i - 1);
      } else {
        prt' := First(b);
      }
    }

    /** rtadd. */
    method RtAdd(net: IPaddr, mask: IPaddr, gw: IPaddr, metric: nat, intf: nat, ttl: nat)
      requires Valid() && Sound(sys) && free != []
      modifies this`sys, this`free, this`dflt, rt, rttable, next
      ensures Valid() && Sound(sys) && sys == Add(old(sys), NewRoute(net, mask, gw, metric, intf, ttl))
    {
      ghost var x := NewRoute(net, mask, gw, metric, intf, ttl);
      AllocKeeps(sys, x);
      AddKeeps(sys, x);
      var key := CountOnes(mask);
      var prt := RtNew(net, mask, gw, metric, intf, ttl, key);
      if net == IP_ANYADDR {
        AddAsDefault(prt);
      } else {
        AddToBucket(prt, metric);
      }
    }

    method AddAsDefault(prt: Rid)
      requires Valid() && Fresh(sys, prt)
      modifies this`sys, this`free, this`dflt, rt
      ensures Valid() && sys == AddDefault(old(sys), prt)
    {
      if dflt != NULL {
        DropDefault();
      }
      sys := SetDefault(sys, prt);
      dflt := prt;
    }

    /** The loop of rtadd. */
    method Scan(hv: nat, prt: Rid) returns (prev: int, srt: int, isdup: bool, ghost i: nat)
      requires Valid() && hv < RT_TSIZE
      ensures i == Slot(sys.rt, sys.chains[hv], sys.rt[prt])
      ensures var c, x := sys.chains[hv], sys.rt[prt]; var k := Slot(sys.rt, c, x);
              srt == At(c, k) && prev == Prev(c, k) && isdup == IsDup(sys.rt, c, k, x)
    {
      ghost var c := sys.chains[hv];
      srt := First(hv);
      prev, i := NULL, 0;
      while srt != NULL && Passed(rt[srt], rt[prt])
        invariant i <= |c| && srt == At(c, i) && prev == Prev(c, i)
        invariant GonePast(sys.rt, c, i, sys.rt[prt])
        decreases |c| - i
      {
        prev := srt;
        srt := Behind(srt, hv, i);
        i := i + 1;
      }
      isdup := srt != NULL && rt[prt].key <= rt[srt].key;
      SlotIs(sys.rt, c, sys.rt[prt], i);
    }

    method AddToBucket(prt: Rid, metric: nat)
      requires Valid() && Fresh(sys, prt) && sys.rt[prt].net != IP_ANYADDR && sys.rt[prt].metric == UShort(metric)
      modifies this`sys, this`free, rt, rttable, next
      ensures Valid() && sys == AddTo(old(sys), prt)
    {
      ghost var s := sys;
      var hv := RtHash(rt[prt].net);
      var prev, srt, isdup, i := Scan(hv, prt);
      if isdup {
        if rt[srt].gw == rt[prt].gw {
          AmendKeeps(s, srt, s.rt[prt].metric, s.rt[srt].ttl);
          rt[srt] := rt[srt].(metric := UShort(metric));
          sys := Amend(s, srt, s.rt[prt].metric, s.rt[srt].ttl);
          assert rt[..] == sys.rt;
          Release(prt);
          return;
        }
        if rt[srt].metric <= rt[prt].metric {
          Release(prt);
          return;
        }
        PutInPlace(hv, prev, srt, prt, i);
      } else {
        PutIn(hv, prev, srt, prt, i);
      }
    }

    /** The end of rtadd: the new route is chained in. */
    method PutIn(hv: nat, prev: int, srt: int, prt: Rid, ghost i: nat)
      requires Valid() && Fresh(sys, prt) && hv < RT_TSIZE && i <= |sys.chains[hv]| && srt == At(sys.chains[hv], i)
      requires prev == Prev(sys.chains[hv], i)
      modifies this`sys, rttable, next
      ensures Valid() && sys == Link(old(sys), hv, i, prt)
    {
      SpliceLinked(sys, rttable[..], next[..], hv, i, prt);
      next[prt] := srt;
      assert next[..] == old(next[..])[prt := srt];
      SetLink(prev, hv, prt);
      sys := Link(sys, hv, i, prt);
    }

    /** The same when it takes the place of a worse one, whose reference is given back. */
    method PutInPlace(hv: nat, prev: int, tmprt: Rid, prt: Rid, ghost i: nat)
      requires Valid() && Fresh(sys, prt) && hv < RT_TSIZE && i < |sys.chains[hv]| && tmprt == sys.chains[hv][i]
      requires prev == Prev(sys.chains[hv], i)
      modifies this`sys, this`free, rt, rttable, next
      ensures Valid() && sys == Replace(old(sys), hv, i, prt)
    {
      ghost var c := sys.chains[hv];
      UnlinkKeeps(sys, hv, i);
      WhereLinked(sys, hv, tmprt);
      ReplaceLinked(sys, rttable[..], next[..], hv, i, prt);
      assert Linked(rttable[..][hv], next[..], c) && next[..][c[i]] == At(c, i + 1);
      var srt := next[tmprt];
      sys := Unlink(sys, hv, i);
      Release(tmprt);
      next[prt] := srt;
      assert next[..] == old(next[..])[prt := srt];
      SetLink(prev, hv, prt);
      sys := Link(sys, hv, i, prt);
    }
  }

  /** The scan goes past the first `i` of a bucket. */
  ghost predicate GonePast(rt: seq<Rt>, c: seq<Rid>, i: nat, x: Rt)
    requires |rt| == RT_BPSIZE && i <= |c|
  {
    forall j :: 0 <= j < i ==> Passed(rt[c[j]], x)
  }

  lemma {:induction false} SlotIs(rt: seq<Rt>, c: seq<Rid>, x: Rt, i: nat)
    requires |rt| == RT_BPSIZE && i <= |c| && forall j :: 0 <= j < i ==> Passed(rt[c[j]], x)
    requires i < |c| ==> !Passed(rt[c[i]], x)
    ensures Slot(rt, c, x) == i
  {
    if i > 0 {
      assert Passed(rt[c[0]], x);
      forall j | 0 <= j < i - 1 ensures Passed(rt[c[1..][j]], x) { assert Passed(rt[c[j + 1]], x); }
      SlotIs(rt, c[1..], x, i - 1);
    }
  }

  lemma FirstUsableIs(rt: seq<Rt>, c: seq<Rid>, dst: IPaddr, local: bool, brc: bool, i: nat)
    requires |rt| == RT_BPSIZE && i <= |c| && forall j :: 0 <= j < i ==> !Usable(rt[c[j]], dst, local, brc)
    requires i < |c| ==> Usable(rt[c[i]], dst, local, brc)
    ensures FirstUsable(rt, c, dst, local, brc) == i
  {
  }

  /** None of the first `i` routes is for this net and mask. */
  predicate NoneFor(rt: seq<Rt>, c: seq<Rid>, i: nat, net: IPaddr, mask: IPaddr)
    requires |rt| == RT_BPSIZE && i <= |c|
  {
    forall j :: 0 <= j < i ==> !IsFor(rt[c[j]], net, mask)
  }

  lemma {:induction false} FindIs(rt: seq<Rt>, c: seq<Rid>, net: IPaddr, mask: IPaddr, i: nat)
    requires |rt| == RT_BPSIZE && i <= |c| && NoneFor(rt, c, i, net, mask)
    requires i < |c| ==> IsFor(rt[c[i]], net, mask)
    ensures Find(rt, c, net, mask) == i
  {
    if i > 0 {
      assert !IsFor(rt[c[0]], net, mask);
      forall j | 0 <= j < i - 1 ensures !IsFor(rt[c[1..][j]], net, mask) { assert !IsFor(rt[c[j + 1]], net, mask); }
      FindIs(rt, c[1..], net, mask, i - 1);
    }
  }
}
