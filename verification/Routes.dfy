/** The routing table: hash buckets of routes in order of their masks, a default route, and a
    count of references to each. */
module Routes {
  import opened RouteHash

  const RT_BPSIZE: nat := 20
  const RT_INF := 999
  const RTM_INF := 16
  const NULL := -1

  /** The number of a buffer in the pool. */
  type Rid = r: nat | r < RT_BPSIZE

  datatype Rt = Rt(net: IPaddr, mask: IPaddr, gw: IPaddr, metric: nat, ifnum: nat, key: nat, ttl: int,
                   refcnt: int, usecnt: nat)

  /** The table. Routes are known by the buffer they are in; `handles` counts the references that
      callers hold and have not given back. */
  datatype Sys = Sys(chains: seq<seq<Rid>>, dflt: int, rt: seq<Rt>, free: seq<Rid>, handles: seq<nat>) {
    ghost predicate Sized() {
      && |chains| == RT_TSIZE && |rt| == |handles| == RT_BPSIZE && NULL <= dflt < RT_BPSIZE
    }
  }

  // ----- invariant -----

  predicate InTable(s: Sys, r: Rid)
    requires s.Sized()
  {
    r == s.dflt || r in s.chains[Hash(s.rt[r].net)]
  }

  /** The count of a route is one if it is in the table and one for each caller that holds it; the
      buffer is free just when it is zero. */
  predicate RefOk(s: Sys, r: Rid)
    requires s.Sized()
  {
    && s.rt[r].refcnt == (if InTable(s, r) then 1 else 0) + s.handles[r]
    && (r in s.free <==> s.rt[r].refcnt == 0)
  }

  predicate NodeOk(s: Sys, b: nat, r: Rid)
    requires s.Sized()
  {
    s.rt[r].net != IP_ANYADDR && Hash(s.rt[r].net) == b && s.rt[r].key == Key(s.rt[r].mask)
  }

  /** No smaller key in front of a larger, and no net and mask twice. */
  predicate Ahead(x: Rt, y: Rt) { x.key >= y.key && !(x.net == y.net && x.mask == y.mask) }

  ghost predicate ChainOk(s: Sys, b: nat)
    requires s.Sized() && b < RT_TSIZE
  {
    var c := s.chains[b];
    && (forall i :: 0 <= i < |c| ==> NodeOk(s, b, c[i]))
    && (forall i, j :: 0 <= i < j < |c| ==> Ahead(s.rt[c[i]], s.rt[c[j]]))
  }

  predicate Distinct(f: seq<Rid>) { forall i, j :: 0 <= i < j < |f| ==> f[i] != f[j] }

  ghost predicate Sound(s: Sys) {
    && s.Sized() && Distinct(s.free)
    && (s.dflt != NULL ==> s.rt[s.dflt].net == IP_ANYADDR)
    && (forall b: nat :: b < RT_TSIZE ==> ChainOk(s, b))
    && (forall r: Rid :: RefOk(s, r))
  }

  lemma WhereLinked(s: Sys, b: nat, r: Rid)
    requires Sound(s) && b < RT_TSIZE && r in s.chains[b]
    ensures InTable(s, r) && Hash(s.rt[r].net) == b && r != s.dflt
  {
    var i :| 0 <= i < |s.chains[b]| && s.chains[b][i] == r;
    assert ChainOk(s, b) && NodeOk(s, b, s.chains[b][i]);
  }

  lemma ChainFrame(s: Sys, t: Sys, b: nat)
    requires s.Sized() && t.Sized() && b < RT_TSIZE && ChainOk(s, b) && t.chains[b] == s.chains[b]
    requires forall r :: r in s.chains[b] ==>
               t.rt[r].net == s.rt[r].net && t.rt[r].mask == s.rt[r].mask && t.rt[r].key == s.rt[r].key
    ensures ChainOk(t, b)
  {
    var c := s.chains[b];
    forall i | 0 <= i < |c| ensures NodeOk(t, b, c[i]) { assert c[i] in c && NodeOk(s, b, c[i]); }
    forall i, j | 0 <= i < j < |c| ensures Ahead(t.rt[c[i]], t.rt[c[j]]) {
      assert c[i] in c && c[j] in c && Ahead(s.rt[c[i]], s.rt[c[j]]);
    }
  }

  // ----- what is done to the table, one reference at a time -----

  /** getbuf and rtnew: the first free buffer, with one reference, the caller's. */
  function Alloc(s: Sys, x: Rt): Sys
    requires s.Sized() && s.free != []
  {
    var n := s.free[0];
    s.(rt := s.rt[n := x], free := s.free[1..], handles := s.handles[n := 1])
  }

  /** A held route goes into a bucket, and the reference with it. */
  function Link(s: Sys, b: nat, i: nat, n: Rid): Sys
    requires s.Sized() && b < RT_TSIZE && i <= |s.chains[b]| && s.handles[n] > 0
  {
    s.(chains := s.chains[b := s.chains[b][..i] + [n] + s.chains[b][i..]], handles := s.handles[n := s.handles[n] - 1])
  }

  function Unlink(s: Sys, b: nat, i: nat): Sys
    requires s.Sized() && b < RT_TSIZE && i < |s.chains[b]|
  {
    var r := s.chains[b][i];
    assert r in s.chains[b];
    s.(chains := s.chains[b := s.chains[b][..i] + s.chains[b][i + 1..]], handles := s.handles[r := s.handles[r] + 1])
  }

  function SetDefault(s: Sys, n: Rid): Sys
    requires s.Sized() && s.handles[n] > 0
  {
    s.(dflt := n, handles := s.handles[n := s.handles[n] - 1])
  }

  function ClearDefault(s: Sys): Sys
    requires s.Sized() && s.dflt != NULL
  {
    s.(dflt := NULL, handles := s.handles[s.dflt := s.handles[s.dflt] + 1])
  }

  /** RTFREE. */
  function Drop(s: Sys, r: Rid): Sys
    requires s.Sized() && s.handles[r] > 0
  {
    var k := s.rt[r].refcnt - 1;
    s.(rt := s.rt[r := s.rt[r].(refcnt := k)], free := if k <= 0 then [r] + s.free else s.free,
       handles := s.handles[r := s.handles[r] - 1])
  }

  function Grab(s: Sys, r: Rid): Sys
    requires s.Sized()
  {
    s.(rt := s.rt[r := s.rt[r].(refcnt := s.rt[r].refcnt + 1, usecnt := s.rt[r].usecnt + 1)],
       handles := s.handles[r := s.handles[r] + 1])
  }

  function Amend(s: Sys, r: Rid, metric: nat, ttl: int): Sys
    requires s.Sized()
  {
    s.(rt := s.rt[r := s.rt[r].(metric := metric, ttl := ttl)])
  }

  lemma AllocKeeps(s: Sys, x: Rt)
    requires Sound(s) && s.free != [] && x.refcnt == 1
    ensures Sound(Alloc(s, x))
    ensures var n := s.free[0]; !InTable(s, n) && s.handles[n] == 0 && !InTable(Alloc(s, x), n)
  {
    var n, t := s.free[0], Alloc(s, x);
    assert n in s.free && RefOk(s, n);
    forall b: nat | b < RT_TSIZE ensures n !in s.chains[b] && ChainOk(t, b) {
      if n in s.chains[b] { WhereLinked(s, b, n); }
      assert ChainOk(s, b);
      ChainFrame(s, t, b);
    }
    forall r: Rid ensures RefOk(t, r) {
      assert RefOk(s, r);
      TailIn(s.free, r);
    }
    assert Distinct(t.free) by { TailDistinct(s.free); }
  }

  lemma TailIn(f: seq<Rid>, r: Rid)
    requires f != [] && Distinct(f)
    ensures r in f[1..] <==> r in f && r != f[0]
  {
    if r in f && r != f[0] {
      var i :| 0 <= i < |f| && f[i] == r;
      assert f[1..][i - 1] == r;
    }
    if r in f[1..] {
      var i :| 0 <= i < |f[1..]| && f[1..][i] == r;
      assert f[i + 1] == r;
    }
  }

  lemma TailDistinct(f: seq<Rid>)
    requires f != [] && Distinct(f)
    ensures Distinct(f[1..])
  {
  }

  /** Whether a route can go at place `i` of a bucket. */
  ghost predicate FitsAt(s: Sys, b: nat, i: nat, n: Rid)
    requires s.Sized() && b < RT_TSIZE
  {
    var c := s.chains[b];
    && i <= |c| && NodeOk(s, b, n)
    && (forall j :: 0 <= j < i ==> Ahead(s.rt[c[j]], s.rt[n]))
    && (forall j :: i <= j < |c| ==> Ahead(s.rt[n], s.rt[c[j]]))
  }

  lemma LinkKeeps(s: Sys, b: nat, i: nat, n: Rid)
    requires Sound(s) && b < RT_TSIZE && s.handles[n] > 0 && !InTable(s, n) && FitsAt(s, b, i, n)
    ensures Sound(Link(s, b, i, n)) && InTable(Link(s, b, i, n), n)
  {
    var c, t := s.chains[b], Link(s, b, i, n);
    var d := t.chains[b];
    assert ChainOk(s, b);
    forall r: Rid ensures r in d <==> r in c || r == n { SplicedIn(c, i, n, r); }
    assert t.Sized();
    forall a: nat | a < RT_TSIZE ensures ChainOk(t, a) {
      if a == b {
        forall j | 0 <= j < |d| ensures NodeOk(t, b, d[j]) {
          if j != i { assert NodeOk(s, b, c[if j < i then j else j - 1]); }
        }
        forall j, k | 0 <= j < k < |d| ensures Ahead(t.rt[d[j]], t.rt[d[k]]) {
          var x, y := if j < i then j else j - 1, if k < i then k else k - 1;
          if j != i && k != i { assert Ahead(s.rt[c[x]], s.rt[c[y]]); }
        }
      } else {
        assert ChainOk(s, a);
        ChainFrame(s, t, a);
      }
    }
    forall r: Rid ensures RefOk(t, r) { assert RefOk(s, r); }
  }

  lemma SplicedIn(c: seq<Rid>, i: nat, n: Rid, r: Rid)
    requires i <= |c|
    ensures r in c[..i] + [n] + c[i..] <==> r in c || r == n
  {
    assert c == c[..i] + c[i..];
  }

  lemma CutIn(c: seq<Rid>, i: nat, r: Rid)
    requires i < |c| && forall j, k :: 0 <= j < k < |c| ==> c[j] != c[k]
    ensures r in c[..i] + c[i + 1..] <==> r in c && r != c[i]
  {
    var d := c[..i] + c[i + 1..];
    if r in c && r != c[i] {
      var j :| 0 <= j < |c| && c[j] == r;
      assert d[if j < i then j else j - 1] == r;
    }
    if r in d {
      var j :| 0 <= j < |d| && d[j] == r;
      assert c[if j < i then j else j + 1] == r;
    }
  }

  lemma ChainDistinct(s: Sys, b: nat)
    requires Sound(s) && b < RT_TSIZE
    ensures forall j, k :: 0 <= j < k < |s.chains[b]| ==> s.chains[b][j] != s.chains[b][k]
  {
    var c := s.chains[b];
    forall j, k | 0 <= j < k < |c| ensures c[j] != c[k] { assert ChainOk(s, b) && Ahead(s.rt[c[j]], s.rt[c[k]]); }
  }

  lemma UnlinkKeeps(s: Sys, b: nat, i: nat)
    requires Sound(s) && b < RT_TSIZE && i < |s.chains[b]|
    ensures Sound(Unlink(s, b, i)) && !InTable(Unlink(s, b, i), s.chains[b][i])
  {
    var c, t := s.chains[b], Unlink(s, b, i);
    var d, n := t.chains[b], c[i];
    WhereLinked(s, b, n);
    ChainDistinct(s, b);
    forall r: Rid ensures r in d <==> r in c && r != n { CutIn(c, i, r); }
    assert t.Sized();
    forall a: nat | a < RT_TSIZE ensures ChainOk(t, a) {
      assert ChainOk(s, a);
      if a == b {
        forall j | 0 <= j < |d| ensures NodeOk(t, b, d[j]) { assert NodeOk(s, b, c[if j < i then j else j + 1]); }
        forall j, k | 0 <= j < k < |d| ensures Ahead(t.rt[d[j]], t.rt[d[k]]) {
          var x, y := if j < i then j else j + 1, if k < i then k else k + 1;
          assert Ahead(s.rt[c[x]], s.rt[c[y]]);
        }
      } else {
        ChainFrame(s, t, a);
      }
    }
    forall r: Rid ensures RefOk(t, r) { assert RefOk(s, r); }
  }

  /** Steps that change no bucket. */
  lemma SameChains(s: Sys, t: Sys)
    requires Sound(s) && t.Sized() && t.chains == s.chains
    requires forall r: Rid ::
               t.rt[r].net == s.rt[r].net && t.rt[r].mask == s.rt[r].mask && t.rt[r].key == s.rt[r].key
    ensures forall b: nat :: b < RT_TSIZE ==> ChainOk(t, b)
  {
    forall b: nat | b < RT_TSIZE ensures ChainOk(t, b) {
      assert ChainOk(s, b);
      ChainFrame(s, t, b);
    }
  }

  lemma DropKeeps(s: Sys, r: Rid)
    requires Sound(s) && s.handles[r] > 0
    ensures Sound(Drop(s, r))
    ensures forall x: Rid :: InTable(Drop(s, r), x) == InTable(s, x)
  {
    var t := Drop(s, r);
    assert RefOk(s, r);
    SameChains(s, t);
    forall x: Rid ensures RefOk(t, x) { assert RefOk(s, x); }
  }

  lemma GrabKeeps(s: Sys, r: Rid)
    requires Sound(s) && s.rt[r].refcnt > 0
    ensures Sound(Grab(s, r))
  {
    var t := Grab(s, r);
    SameChains(s, t);
    forall x: Rid ensures RefOk(t, x) { assert RefOk(s, x); }
  }

  lemma AmendKeeps(s: Sys, r: Rid, metric: nat, ttl: int)
    requires Sound(s)
    ensures Sound(Amend(s, r, metric, ttl))
    ensures forall x: Rid :: InTable(Amend(s, r, metric, ttl), x) == InTable(s, x)
  {
    var t := Amend(s, r, metric, ttl);
    SameChains(s, t);
    forall x: Rid ensures RefOk(t, x) { assert RefOk(s, x); }
  }

  lemma SetDefaultKeeps(s: Sys, n: Rid)
    requires Sound(s) && s.handles[n] > 0 && s.dflt == NULL && !InTable(s, n)
    requires s.rt[n].net == IP_ANYADDR
    ensures Sound(SetDefault(s, n))
  {
    var t := SetDefault(s, n);
    SameChains(s, t);
    forall x: Rid ensures RefOk(t, x) { assert RefOk(s, x); }
  }

  lemma ClearDefaultKeeps(s: Sys)
    requires Sound(s) && s.dflt != NULL
    ensures Sound(ClearDefault(s)) && !InTable(ClearDefault(s), s.dflt)
  {
    var t, d: Rid := ClearDefault(s), s.dflt;
    SameChains(s, t);
    forall b: nat | b < RT_TSIZE ensures d !in s.chains[b] {
      if d in s.chains[b] { WhereLinked(s, b, d); }
    }
    forall x: Rid ensures RefOk(t, x) { assert RefOk(s, x); }
  }
}
