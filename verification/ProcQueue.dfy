/** The shared q array: doubly linked lists of processes, linked by index. Entries 0 to NPROC-1
    are the processes; after them come a head and a tail for every list. */
module ProcQueue {
  import opened Wrappers

  const NPROC := 50
  const MAXINT := 0x7fffffff
  const MININT := -0x80000000
  const EMPTY := -1

  /** A process on a list, with its key there. */
  datatype Item = Item(pid: nat, key: int)

  type List = seq<Item>

  function Head(l: nat): nat { NPROC + 2 * l }
  function Tail(l: nat): nat { NPROC + 2 * l + 1 }

  /** Index in q of place `i` of list `l`: the head, the processes, the tail. */
  function NodeAt(ls: seq<List>, l: nat, i: nat): nat
    requires l < |ls| && i <= |ls[l]| + 1
  {
    if i == 0 then Head(l) else if i <= |ls[l]| then ls[l][i - 1].pid else Tail(l)
  }

  predicate On(q: List, pid: nat) { exists i :: 0 <= i < |q| && q[i].pid == pid }

  predicate Apart(q: List, i: nat, j: nat)
    requires i < |q| && j < |q|
  {
    q[i].pid != q[j].pid
  }

  /** Every process is on at most one list, and there once. */
  ghost predicate Separate(ls: seq<List>) {
    && (forall l :: 0 <= l < |ls| ==> PidsOk(ls[l]) && NoDup(ls[l]))
    && (forall l, m, p: nat :: 0 <= l < m < |ls| && On(ls[l], p) ==> !On(ls[m], p))
  }

  ghost predicate PidsOk(q: List) {
    forall i :: 0 <= i < |q| ==> q[i].pid < NPROC
  }

  ghost predicate NoDup(q: List) {
    forall i, j :: 0 <= i < j < |q| ==> Apart(q, i, j)
  }

  /** Different places are different entries of q. */
  lemma NodesDiffer(ls: seq<List>, l: nat, i: nat, m: nat, j: nat)
    requires Separate(ls) && l < |ls| && i <= |ls[l]| + 1 && m < |ls| && j <= |ls[m]| + 1
    requires l != m || i != j
    ensures NodeAt(ls, l, i) != NodeAt(ls, m, j)
  {
    assert PidsOk(ls[l]) && PidsOk(ls[m]);
    if 0 < i <= |ls[l]| && 0 < j <= |ls[m]| {
      if l == m {
        assert NoDup(ls[l]);
        assert Apart(ls[l], if i < j then i - 1 else j - 1, if i < j then j - 1 else i - 1);
      } else {
        assert On(ls[l], ls[l][i - 1].pid) && On(ls[m], ls[m][j - 1].pid);
      }
    }
  }

  /** Where insert puts a key: in front of the first that is not smaller. */
  function FirstNotBelow(q: List, key: int): (p: nat)
    ensures p <= |q| && (p < |q| ==> q[p].key >= key) && forall i :: 0 <= i < p ==> q[i].key < key
  {
    if q == [] || q[0].key >= key then 0 else 1 + FirstNotBelow(q[1..], key)
  }

  function Splice(q: List, p: nat, it: Item): (r: List)
    requires p <= |q|
  {
    q[..p] + [it] + q[p..]
  }

  function Cut(q: List, i: nat): (r: List)
    requires i < |q|
  {
    q[..i] + q[i + 1..]
  }

  lemma SpliceOn(q: List, p: nat, it: Item, x: nat)
    requires p <= |q|
    ensures On(Splice(q, p, it), x) <==> On(q, x) || x == it.pid
  {
    var r := Splice(q, p, it);
    if On(q, x) {
      var i :| 0 <= i < |q| && q[i].pid == x;
      assert r[if i < p then i else i + 1] == q[i];
    }
    if On(r, x) && x != it.pid {
      var i :| 0 <= i < |r| && r[i].pid == x;
      assert q[if i < p then i else i - 1] == r[i];
    }
    assert r[p] == it;
  }

  /** A process on no list is at no place. */
  lemma PidIsNoNode(ls: seq<List>, pid: nat, l: nat, i: nat)
    requires pid < NPROC && l < |ls| && i <= |ls[l]| + 1 && !On(ls[l], pid)
    ensures NodeAt(ls, l, i) != pid
  {
  }

  lemma SpliceNodes(ls: seq<List>, l: nat, p: nat, it: Item, i: nat)
    requires l < |ls| && p <= |ls[l]| && i <= |ls[l]| + 2
    ensures var ls' := ls[l := Splice(ls[l], p, it)];
            NodeAt(ls', l, i) ==
              if i <= p then NodeAt(ls, l, i) else if i == p + 1 then it.pid else NodeAt(ls, l, i - 1)
  {
  }

  lemma CutNodes(ls: seq<List>, l: nat, p: nat, i: nat)
    requires l < |ls| && p < |ls[l]| && i <= |ls[l]|
    ensures var ls' := ls[l := Cut(ls[l], p)];
            NodeAt(ls', l, i) == NodeAt(ls, l, if i <= p then i else i + 1)
  {
  }

  lemma SpliceSeparate(ls: seq<List>, l: nat, p: nat, it: Item)
    requires Separate(ls) && l < |ls| && p <= |ls[l]| && it.pid < NPROC
    requires forall m :: 0 <= m < |ls| ==> !On(ls[m], it.pid)
    ensures Separate(ls[l := Splice(ls[l], p, it)])
  {
    var q := ls[l];
    var r := Splice(q, p, it);
    var ls' := ls[l := r];
    forall i, j | 0 <= i < j < |r| ensures Apart(r, i, j) {
      var a, b := if i < p then i else i - 1, if j < p then j else j - 1;
      assert NoDup(q);
      if i == p { assert r[j] == q[b]; }
      else if j == p { assert r[i] == q[a]; }
      else { assert r[i] == q[a] && r[j] == q[b] && Apart(q, a, b); }
    }
    assert PidsOk(q);
    forall i | 0 <= i < |r| ensures r[i].pid < NPROC {
      if i != p { assert r[i] == q[if i < p then i else i - 1]; }
    }
    forall a, b, x: nat | 0 <= a < b < |ls'| && On(ls'[a], x) ensures !On(ls'[b], x) {
      SpliceOn(q, p, it, x);
    }
  }

  lemma CutOn(q: List, i: nat, x: nat)
    requires i < |q| && NoDup(q)
    ensures On(Cut(q, i), x) <==> On(q, x) && x != q[i].pid
  {
    var r := Cut(q, i);
    if On(r, x) {
      var k :| 0 <= k < |r| && r[k].pid == x;
      var m := if k < i then k else k + 1;
      assert q[m] == r[k] && (if m < i then Apart(q, m, i) else Apart(q, i, m));
    }
    if On(q, x) && x != q[i].pid {
      var m :| 0 <= m < |q| && q[m].pid == x;
      assert r[if m < i then m else m - 1] == q[m];
    }
  }

  lemma CutSeparate(ls: seq<List>, l: nat, i: nat)
    requires Separate(ls) && l < |ls| && i < |ls[l]|
    ensures Separate(ls[l := Cut(ls[l], i)])
  {
    var q := ls[l];
    var r := Cut(q, i);
    var ls' := ls[l := r];
    assert NoDup(q);
    forall j, k | 0 <= j < k < |r| ensures Apart(r, j, k) {
      var a, b := if j < i then j else j + 1, if k < i then k else k + 1;
      assert r[j] == q[a] && r[k] == q[b] && Apart(q, a, b);
    }
    assert PidsOk(q);
    forall j | 0 <= j < |r| ensures r[j].pid < NPROC { assert r[j] == q[if j < i then j else j + 1]; }
    forall a, b, x: nat | 0 <= a < b < |ls'| && On(ls'[a], x) ensures !On(ls'[b], x) {
      CutOn(q, i, x);
    }
  }

  /** Places `i` and `i+1` of list `l` are linked both ways in q, and the first has its key. */
  predicate Linked(ls: seq<List>, qkey: seq<int>, qnext: seq<int>, qprev: seq<int>, l: nat, i: nat)
    requires l < |ls| && i <= |ls[l]| && |qkey| == |qnext| == |qprev|
  {
    var n, m := NodeAt(ls, l, i), NodeAt(ls, l, i + 1);
    && n < |qkey| && m < |qkey| && qnext[n] == m && qprev[m] == n
    && qkey[n] == (if i == 0 then MININT else ls[l][i - 1].key)
    && (i == |ls[l]| ==> qkey[m] == MAXINT)
  }

  ghost predicate AllLinked(ls: seq<List>, qkey: seq<int>, qnext: seq<int>, qprev: seq<int>)
    requires |qkey| == |qnext| == |qprev|
  {
    forall l: nat, i: nat :: l < |ls| && i <= |ls[l]| ==> Linked(ls, qkey, qnext, qprev, l, i)
  }

  /** Unlinking one place leaves every other linked as it was. */
  lemma CutLinked(ls: seq<List>, k: seq<int>, n: seq<int>, v: seq<int>, l: nat, p: nat, m: nat, i: nat)
    requires |k| == |n| == |v| && Separate(ls) && AllLinked(ls, k, n, v) && l < |ls| && p < |ls[l]|
    requires m < |ls| && i <= if m == l then |ls[l]| - 1 else |ls[m]|
    requires NodeAt(ls, l, p) < |n| && NodeAt(ls, l, p + 2) < |n|
    ensures Linked(ls[l := Cut(ls[l], p)], k, n[NodeAt(ls, l, p) := NodeAt(ls, l, p + 2)],
                   v[NodeAt(ls, l, p + 2) := NodeAt(ls, l, p)], m, i)
  {
    var j := if m == l && i > p then i + 1 else i;
    assert Linked(ls, k, n, v, m, j);
    if m == l {
      CutNodes(ls, l, p, i);
      CutNodes(ls, l, p, i + 1);
    }
    if m == l && i == p {
      assert Linked(ls, k, n, v, l, p + 1);
    } else {
      NodesDiffer(ls, m, j, l, p);
      NodesDiffer(ls, m, j + 1, l, p + 2);
    }
  }

  /** Linking a process in leaves every other place linked as it was. */
  lemma SpliceLinked(ls: seq<List>, k: seq<int>, n: seq<int>, v: seq<int>, l: nat, p: nat, it: Item, m: nat, i: nat)
    requires |k| == |n| == |v| == NPROC + 2 * |ls| && Separate(ls) && AllLinked(ls, k, n, v) && l < |ls| && p <= |ls[l]|
    requires it.pid < NPROC && forall j :: 0 <= j < |ls| ==> !On(ls[j], it.pid)
    requires m < |ls| && i <= if m == l then |ls[l]| + 1 else |ls[m]|
    requires NodeAt(ls, l, p) < |n| && NodeAt(ls, l, p + 1) < |n|
    ensures Linked(ls[l := Splice(ls[l], p, it)], k[it.pid := it.key],
                   n[it.pid := NodeAt(ls, l, p + 1)][NodeAt(ls, l, p) := it.pid],
                   v[it.pid := NodeAt(ls, l, p)][NodeAt(ls, l, p + 1) := it.pid], m, i)
  {
    var j := if m == l && i > p then i - 1 else i;
    assert Linked(ls, k, n, v, m, j);
    if m == l {
      SpliceNodes(ls, l, p, it, i);
      SpliceNodes(ls, l, p, it, i + 1);
    }
    if m == l && (i == p || i == p + 1) {
      PidIsNoNode(ls, it.pid, l, p);
      PidIsNoNode(ls, it.pid, l, p + 1);
    } else {
      Untouched(ls, m, j, l, p, it.pid);
    }
  }

  lemma CutAllLinked(ls: seq<List>, k: seq<int>, n: seq<int>, v: seq<int>, l: nat, p: nat)
    requires |k| == |n| == |v| && Separate(ls) && AllLinked(ls, k, n, v) && l < |ls| && p < |ls[l]|
    requires NodeAt(ls, l, p) < |n| && NodeAt(ls, l, p + 2) < |n|
    ensures AllLinked(ls[l := Cut(ls[l], p)], k, n[NodeAt(ls, l, p) := NodeAt(ls, l, p + 2)],
                      v[NodeAt(ls, l, p + 2) := NodeAt(ls, l, p)])
  {
    var ls' := ls[l := Cut(ls[l], p)];
    var n', v' := n[NodeAt(ls, l, p) := NodeAt(ls, l, p + 2)], v[NodeAt(ls, l, p + 2) := NodeAt(ls, l, p)];
    forall m: nat, i: nat | m < |ls'| && i <= |ls'[m]| ensures Linked(ls', k, n', v', m, i) {
      CutLinked(ls, k, n, v, l, p, m, i);
    }
  }

  lemma SpliceAllLinked(ls: seq<List>, k: seq<int>, n: seq<int>, v: seq<int>, l: nat, p: nat, it: Item)
    requires |k| == |n| == |v| == NPROC + 2 * |ls| && Separate(ls) && AllLinked(ls, k, n, v) && l < |ls| && p <= |ls[l]|
    requires it.pid < NPROC && forall j :: 0 <= j < |ls| ==> !On(ls[j], it.pid)
    requires NodeAt(ls, l, p) < |n| && NodeAt(ls, l, p + 1) < |n|
    ensures AllLinked(ls[l := Splice(ls[l], p, it)], k[it.pid := it.key],
                      n[it.pid := NodeAt(ls, l, p + 1)][NodeAt(ls, l, p) := it.pid],
                      v[it.pid := NodeAt(ls, l, p)][NodeAt(ls, l, p + 1) := it.pid])
  {
    var ls', k' := ls[l := Splice(ls[l], p, it)], k[it.pid := it.key];
    var n' := n[it.pid := NodeAt(ls, l, p + 1)][NodeAt(ls, l, p) := it.pid];
    var v' := v[it.pid := NodeAt(ls, l, p)][NodeAt(ls, l, p + 1) := it.pid];
    forall m: nat, i: nat | m < |ls'| && i <= |ls'[m]| ensures Linked(ls', k', n', v', m, i) {
      SpliceLinked(ls, k, n, v, l, p, it, m, i);
    }
  }

  /** A key changed in place leaves everything linked. */
  lemma KeyAllLinked(ls: seq<List>, k: seq<int>, n: seq<int>, v: seq<int>, l: nat, p: nat, key: int)
    requires |k| == |n| == |v| && Separate(ls) && AllLinked(ls, k, n, v) && l < |ls| && p < |ls[l]|
    requires ls[l][p].pid < |k|
    ensures AllLinked(ls[l := ls[l][p := Item(ls[l][p].pid, key)]], k[ls[l][p].pid := key], n, v)
  {
    var pid := ls[l][p].pid;
    var ls', k' := ls[l := ls[l][p := Item(pid, key)]], k[pid := key];
    forall m: nat, i: nat | m < |ls'| && i <= |ls'[m]| ensures Linked(ls', k', n, v, m, i) {
      assert Linked(ls, k, n, v, m, i);
      if m != l || i != p + 1 { NodesDiffer(ls, m, i, l, p + 1); }
      NodesDiffer(ls, l, p + 1, m, if m == l && i == p then 0 else i + 1);
    }
  }

  // ----- the code -----

  class QTable {
    const qkey: array<int>
    const qnext: array<int>
    const qprev: array<int>
    ghost var lists: seq<List>

    ghost predicate Valid()
      reads this, qkey, qnext, qprev
    {
      && qkey != qnext && qnext != qprev && qkey != qprev
      && qkey.Length == qnext.Length == qprev.Length == NPROC + 2 * |lists|
      && Separate(lists)
      && AllLinked(lists, qkey[..], qnext[..], qprev[..])
    }

    ghost predicate LinkAt(l: nat, i: nat)
      requires l < |lists| && i <= |lists[l]|
      requires qkey.Length == qnext.Length == qprev.Length
      reads this, qkey, qnext, qprev
    {
      Linked(lists, qkey[..], qnext[..], qprev[..], l, i)
    }

    /** queueinit and newqueue: `n` empty lists. */
    constructor (n: nat)
      ensures Valid() && |lists| == n && forall l :: 0 <= l < n ==> lists[l] == []
      ensures fresh(qkey) && fresh(qnext) && fresh(qprev)
    {
      qkey := new int[NPROC + 2 * n](i => if i < NPROC then 0 else if (i - NPROC) % 2 == 0 then MININT else MAXINT);
      qnext := new int[NPROC + 2 * n](i => if i < NPROC then 0 else if (i - NPROC) % 2 == 0 then i + 1 else EMPTY);
      qprev := new int[NPROC + 2 * n](i => if i < NPROC then 0 else if (i - NPROC) % 2 == 0 then EMPTY else i - 1);
      lists := seq(n, _ => []);
      new;
      ghost var ls, k, x, v := lists, qkey[..], qnext[..], qprev[..];
      forall l: nat, i: nat | l < |ls| && i <= |ls[l]| ensures Linked(ls, k, x, v, l, i) {
        assert i == 0 && k[Head(l)] == MININT && k[Tail(l)] == MAXINT;
      }
    }

    /** The end of insert and of insertd: `pid` goes between `prev` and `next`. */
    method Link(pid: nat, prev: nat, next: nat, key: int, ghost l: nat, ghost p: nat)
      requires Valid() && pid < NPROC && l < |lists| && p <= |lists[l]|
      requires forall m :: 0 <= m < |lists| ==> !On(lists[m], pid)
      requires prev == NodeAt(lists, l, p) && next == NodeAt(lists, l, p + 1)
      modifies this`lists, qkey, qnext, qprev
      ensures Valid() && lists == old(lists)[l := Splice(old(lists)[l], p, Item(pid, key))]
    {
      ghost var was, it := lists, Item(pid, key);
      assert LinkAt(l, p);
      PidIsNoNode(was, pid, l, p);
      PidIsNoNode(was, pid, l, p + 1);
      NodesDiffer(was, l, p, l, p + 1);
      qnext[pid] := next;
      qprev[pid] := prev;
      qkey[pid] := key;
      qnext[prev] := pid;
      qprev[next] := pid;
      SpliceSeparate(lists, l, p, it);
      lists := lists[l := Splice(lists[l], p, it)];
      assert qkey[..] == old(qkey[..])[pid := key];
      assert qnext[..] == old(qnext[..])[pid := next][prev := pid];
      assert qprev[..] == old(qprev[..])[pid := prev][next := pid];
      SpliceAllLinked(was, old(qkey[..]), old(qnext[..]), old(qprev[..]), l, p, it);
    }

    /** insert: `pid` goes on list `l` in front of the first key not below its own. */
    method Insert(pid: nat, l: nat, key: int)
      requires Valid() && pid < NPROC && l < |lists| && key <= MAXINT
      requires forall m :: 0 <= m < |lists| ==> !On(lists[m], pid)
      modifies this`lists, qkey, qnext, qprev
      ensures Valid()
      ensures lists == old(lists)[l := Splice(old(lists)[l], FirstNotBelow(old(lists)[l], key), Item(pid, key))]
    {
      ghost var q, i := lists[l], 0;
      assert LinkAt(l, 0);
      var next := qnext[Head(l)];
      while qkey[next] < key
        invariant i <= |q| && next == NodeAt(lists, l, i + 1)
        invariant forall k :: 0 <= k < i ==> q[k].key < key
        invariant 0 <= next < qkey.Length
        decreases |q| - i
      {
        assert LinkAt(l, i) && i < |q| && LinkAt(l, i + 1);
        next := qnext[next];
        i := i + 1;
      }
      assert LinkAt(l, i) && (i < |q| ==> LinkAt(l, i + 1));
      FirstNotBelowIs(q, key, i);
      Link(pid, qprev[next], next, key, l, i);
    }

    /** dequeue: `item`, at place `p` of list `l`, is unlinked. */
    method Dequeue(item: nat, ghost l: nat, ghost p: nat)
      requires Valid() && l < |lists| && p < |lists[l]| && lists[l][p].pid == item
      modifies this`lists, qnext, qprev
      ensures Valid() && lists == old(lists)[l := Cut(old(lists)[l], p)]
    {
      ghost var was := lists;
      assert LinkAt(l, p) && LinkAt(l, p + 1) && item == NodeAt(lists, l, p + 1);
      var prev, next := qprev[item], qnext[item];
      qnext[prev] := next;
      qprev[next] := prev;
      CutSeparate(lists, l, p);
      lists := lists[l := Cut(lists[l], p)];
      assert qnext[..] == old(qnext[..])[prev := next];
      assert qprev[..] == old(qprev[..])[next := prev];
      CutAllLinked(was, old(qkey[..]), old(qnext[..]), old(qprev[..]), l, p);
    }

    /** getlast: the process with the highest key, and among equals the one put on first. */
    method GetLast(l: nat) returns (pid: int)
      requires Valid() && l < |lists|
      modifies this`lists, qnext, qprev
      ensures Valid()
      ensures var q := old(lists)[l];
              if q == [] then pid == EMPTY && lists == old(lists)
              else pid == q[|q| - 1].pid && lists == old(lists)[l := q[..|q| - 1]]
    {
      ghost var n := |lists[l]|;
      assert LinkAt(l, n);
      pid := qprev[Tail(l)];
      assert PidsOk(lists[l]);
      if pid < NPROC {
        Dequeue(pid, l, n - 1);
        assert Cut(old(lists)[l], n - 1) == old(lists)[l][..n - 1];
      } else {
        pid := EMPTY;
      }
    }

    /** getfirst: the process with the lowest key. */
    method GetFirst(l: nat) returns (pid: int)
      requires Valid() && l < |lists|
      modifies this`lists, qnext, qprev
      ensures Valid()
      ensures var q := old(lists)[l];
              if q == [] then pid == EMPTY && lists == old(lists)
              else pid == q[0].pid && lists == old(lists)[l := q[1..]]
    {
      assert LinkAt(l, 0);
      pid := qnext[Head(l)];
      assert PidsOk(lists[l]);
      if pid < NPROC {
        Dequeue(pid, l, 0);
        assert Cut(old(lists)[l], 0) == old(lists)[l][1..];
      } else {
        pid := EMPTY;
      }
    }

    /** A key changed in place. */
    method SetKey(pid: nat, key: int, ghost l: nat, ghost p: nat)
      requires Valid() && l < |lists| && p < |lists[l]| && lists[l][p].pid == pid
      modifies this`lists, qkey
      ensures Valid() && lists == old(lists)[l := old(lists)[l][p := Item(pid, key)]]
    {
      ghost var was := lists;
      assert LinkAt(l, p + 1);
      qkey[pid] := key;
      lists := lists[l := lists[l][p := Item(pid, key)]];
      SameSeparate(was, lists, l);
      assert qkey[..] == old(qkey[..])[pid := key];
      KeyAllLinked(was, old(qkey[..]), qnext[..], qprev[..], l, p, key);
    }

    /** insertd: `pid` goes on a list of differences to sleep for `key`. */
    method InsertD(pid: nat, l: nat, key: int)
      requires Valid() && pid < NPROC && l < |lists|
      requires forall m :: 0 <= m < |lists| ==> !On(lists[m], pid)
      requires KeyFits(lists[l], key)
      modifies this`lists, qkey, qnext, qprev
      ensures Valid() && lists == old(lists)[l := PlaceD(old(lists)[l], Item(pid, key))]
    {
      var prev, next, k, i := FindD(l, key);
      PlaceDFrom(lists[l], Item(pid, key), i);
      LinkD(pid, prev, next, k, l, i);
    }

    /** The loop of insertd: the place to link at, and what is left of the key there. */
    method FindD(l: nat, key: int) returns (prev: nat, next: nat, k: int, ghost i: nat)
      requires Valid() && l < |lists| && KeyFits(lists[l], key)
      ensures i <= |lists[l]| && Passed(lists[l], key, i)
      ensures i < |lists[l]| ==> lists[l][i].key >= Left(lists[l], key, i)
      ensures prev == NodeAt(lists, l, i) && next == NodeAt(lists, l, i + 1) && k == Left(lists[l], key, i)
    {
      ghost var q := lists[l];
      assert LinkAt(l, 0);
      k := key;
      prev, next, i := Head(l), qnext[Head(l)], 0;
      while qkey[next] < k
        invariant i <= |q| && next == NodeAt(lists, l, i + 1) && prev == NodeAt(lists, l, i)
        invariant next < qkey.Length && k == Left(q, key, i)
        invariant Passed(q, key, i)
        decreases |q| - i
      {
        assert LinkAt(l, i) && i < |q| && LinkAt(l, i + 1);
        k := k - qkey[next];
        prev, next := next, qnext[next];
        i := i + 1;
      }
      assert LinkAt(l, i) && (i < |q| ==> LinkAt(l, i + 1));
    }

    /** The end of insertd: the one behind the new one counts from it. */
    method LinkD(pid: nat, prev: nat, next: nat, key: int, ghost l: nat, ghost p: nat)
      requires Valid() && pid < NPROC && l < |lists| && p <= |lists[l]|
      requires forall m :: 0 <= m < |lists| ==> !On(lists[m], pid)
      requires prev == NodeAt(lists, l, p) && next == NodeAt(lists, l, p + 1)
      requires p < |lists[l]| ==> lists[l][p].key >= key
      modifies this`lists, qkey, qnext, qprev
      ensures Valid()
      ensures var q := old(lists)[l]; lists == old(lists)[l := q[..p] + PlaceD(q[p..], Item(pid, key))]
    {
      ghost var was, q := lists, lists[l];
      PlaceDHere(q, Item(pid, key), p);
      assert PidsOk(q);
      Link(pid, prev, next, key, l, p);
      ghost var v := Splice(q, p, Item(pid, key));
      assert lists == was[l := v];
      if next < NPROC {
        assert v[p + 1] == q[p];
        assert LinkAt(l, p + 2);
        SetKey(next, qkey[next] - key, l, p + 1);
        assert lists == was[l := v[p + 1 := Item(next, q[p].key - key)]];
      }
    }
  }

  lemma FirstNotBelowIs(q: List, key: int, p: nat)
    requires p <= |q| && (p < |q| ==> q[p].key >= key) && forall i :: 0 <= i < p ==> q[i].key < key
    ensures FirstNotBelow(q, key) == p
  {
  }

  lemma SameSeparate(was: seq<List>, ls: seq<List>, l: nat)
    requires Separate(was) && l < |was| == |ls| && ls == was[l := ls[l]]
    requires |ls[l]| == |was[l]| && forall i :: 0 <= i < |ls[l]| ==> ls[l][i].pid == was[l][i].pid
    ensures Separate(ls)
  {
    assert PidsOk(was[l]) && NoDup(was[l]);
    forall i, j | 0 <= i < j < |ls[l]| ensures Apart(ls[l], i, j) { assert Apart(was[l], i, j); }
    forall x ensures On(ls[l], x) <==> On(was[l], x) {
      if On(was[l], x) {
        var i :| 0 <= i < |was[l]| && was[l][i].pid == x;
        assert ls[l][i].pid == x;
      }
    }
  }

  // ----- lists of differences: the sleep queue -----

  /** insertd: in front of the first process that wakes no earlier. */
  function PlaceD(q: List, it: Item): (r: List)
    ensures |r| == |q| + 1
  {
    if q == [] then [it]
    else if q[0].key >= it.key then [it, Item(q[0].pid, q[0].key - it.key)] + q[1..]
    else [q[0]] + PlaceD(q[1..], Item(it.pid, it.key - q[0].key))
  }

  /** What is left of a key after passing the first `i`. */
  function Left(q: List, key: int, i: nat): int
    requires i <= |q|
  {
    if i == 0 then key else Left(q, key, i - 1) - q[i - 1].key
  }

  /** What is left of a key never grows past the sentinel, which can only happen behind negative
      keys. */
  predicate KeyFits(q: List, key: int) { forall i :: 0 <= i <= |q| ==> Left(q, key, i) <= MAXINT }

  lemma {:induction false} LeftBelow(q: List, key: int, i: nat)
    requires i <= |q| && forall j :: 0 <= j < |q| ==> q[j].key >= 0
    ensures Left(q, key, i) <= key
    decreases i
  {
    if i > 0 { LeftBelow(q, key, i - 1); }
  }

  predicate Passed(q: List, key: int, i: nat)
    requires i <= |q|
  {
    forall j :: 0 <= j < i ==> q[j].key < Left(q, key, j)
  }

  lemma {:induction false} PlaceDFrom(q: List, it: Item, i: nat)
    requires i <= |q| && Passed(q, it.key, i)
    ensures q[..i] + PlaceD(q[i..], Item(it.pid, Left(q, it.key, i))) == PlaceD(q, it)
    decreases i
  {
    if i == 0 {
      assert q[0..] == q;
    } else {
      PlaceDFrom(q, it, i - 1);
      PlaceDStep(q, Item(it.pid, Left(q, it.key, i - 1)), i - 1);
    }
  }

  lemma PlaceDStep(q: List, it: Item, i: nat)
    requires i < |q| && q[i].key < it.key
    ensures q[..i] + PlaceD(q[i..], it) == q[..i + 1] + PlaceD(q[i + 1..], Item(it.pid, it.key - q[i].key))
  {
    var rest := PlaceD(q[i + 1..], Item(it.pid, it.key - q[i].key));
    assert q[i..][1..] == q[i + 1..];
    assert PlaceD(q[i..], it) == [q[i]] + rest;
    Regroup(q[..i], [q[i]], rest);
    assert q[..i] + [q[i]] == q[..i + 1];
  }

  lemma PlaceDHere(q: List, it: Item, i: nat)
    requires i <= |q| && (i < |q| ==> q[i].key >= it.key)
    ensures var v := Splice(q, i, it);
            q[..i] + PlaceD(q[i..], it) == if i < |q| then v[i + 1 := Item(q[i].pid, q[i].key - it.key)] else v
  {
    if i < |q| {
      assert q[i..][1..] == q[i + 1..];
      assert q[..i] + PlaceD(q[i..], it) == Splice(q, i, it)[i + 1 := Item(q[i].pid, q[i].key - it.key)];
    }
  }

  /** Linking at one place writes to no entry that matters at another. */
  lemma Untouched(ls: seq<List>, m: nat, i: nat, l: nat, p: nat, pid: nat)
    requires Separate(ls) && m < |ls| && i <= |ls[m]| && l < |ls| && p <= |ls[l]| && (m != l || i != p)
    requires pid < NPROC && forall k :: 0 <= k < |ls| ==> !On(ls[k], pid)
    ensures var n, n' := NodeAt(ls, m, i), NodeAt(ls, m, i + 1);
            && n != NodeAt(ls, l, p) && n' != NodeAt(ls, l, p + 1) && n != pid && n' != pid
  {
    NodesDiffer(ls, m, i, l, p);
    NodesDiffer(ls, m, i + 1, l, p + 1);
    PidIsNoNode(ls, pid, m, i);
    PidIsNoNode(ls, pid, m, i + 1);
  }
}
