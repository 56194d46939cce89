/** The generic priority queue of gpq.c: two parallel arrays kept in order of falling key,
    first come first served among equal keys. */
module Gpq {
  import opened Wrappers

  datatype Item<T> = Item(key: int, elt: T)

  /** Keys never rise from head to tail. */
  ghost predicate Sorted<T>(q: seq<Item<T>>) {
    forall i, j :: 0 <= i < j < |q| ==> q[i].key >= q[j].key
  }

  /** Where enq puts a new key: it walks from the tail towards the head past smaller keys. */
  function EnqPos<T>(q: seq<Item<T>>, key: int): (p: nat)
    ensures p <= |q|
    ensures p > 0 ==> q[p - 1].key >= key
    ensures forall i :: p <= i < |q| ==> q[i].key < key
  {
    if q == [] || q[|q| - 1].key >= key then |q| else EnqPos(q[..|q| - 1], key)
  }

  function Insert<T>(q: seq<Item<T>>, it: Item<T>): (r: seq<Item<T>>)
    ensures |r| == |q| + 1
  {
    var p := EnqPos(q, it.key);
    q[..p] + [it] + q[p..]
  }

  /** The position is the only one at which the walk can stop. */
  lemma EnqPosUnique<T>(q: seq<Item<T>>, key: int, p: nat)
    requires p <= |q| && (p > 0 ==> q[p - 1].key >= key)
    requires forall i :: p <= i < |q| ==> q[i].key < key
    ensures p == EnqPos(q, key)
  {
    var e := EnqPos(q, key);
    assert !(p < e);
    assert !(e < p);
  }

  /** An insertion, element by element. */
  lemma InsertByIndex<T>(q: seq<Item<T>>, it: Item<T>, p: nat)
    requires p == EnqPos(q, it.key)
    ensures var r := Insert(q, it);
            && |r| == |q| + 1 && r[p] == it
            && (forall k :: 0 <= k < p ==> r[k] == q[k])
            && (forall k :: p < k <= |q| ==> r[k] == q[k - 1])
  {
  }

  lemma InsertSorted<T>(q: seq<Item<T>>, it: Item<T>)
    requires Sorted(q)
    ensures Sorted(Insert(q, it))
  {
    var p := EnqPos(q, it.key);
    var r := Insert(q, it);
    forall i, j | 0 <= i < j < |r| ensures r[i].key >= r[j].key {
      if i < p { assert i < p - 1 ==> q[i].key >= q[p - 1].key; }
    }
  }

  lemma InsertElements<T>(q: seq<Item<T>>, it: Item<T>)
    ensures multiset(Insert(q, it)) == multiset(q) + multiset{it}
  {
    var p := EnqPos(q, it.key);
    assert q == q[..p] + q[p..];
  }

  class PriorityQueue<T(0)> {
    ghost var items: seq<Item<T>>
    const qMax: nat
    const qKey: array<int>
    const qElt: array<T>
    var qCount: int
    var qSeen: int

    ghost predicate Valid()
      reads this, qKey, qElt
    {
      && qKey.Length == qMax && qElt.Length == qMax && (qKey as object) != qElt
      && 0 <= qCount <= qMax && -1 <= qSeen
      && |items| == qCount
      && forall i :: 0 <= i < qCount ==> items[i] == Item(qKey[i], qElt[i])
    }

    /** newq: an empty queue with room for `size` elements. */
    constructor (size: nat)
      ensures Valid() && items == [] && qMax == size && qSeen == -1
      ensures fresh(qKey) && fresh(qElt)
    {
      qMax := size;
      qKey := new int[size];
      qElt := new T[size];
      qCount, qSeen := 0, -1;
      items := [];
    }

    /** enq: returns the slots left, or -1 and no change when the queue is full. */
    method Enq(elt: T, key: int) returns (left: int)
      requires Valid()
      modifies this`items, this`qCount, qKey, qElt
      ensures Valid()
      ensures if old(qCount) >= qMax then left == -1 && items == old(items)
              else left == qMax - qCount && items == Insert(old(items), Item(key, elt))
    {
      if qCount >= qMax {
        return -1;
      }
      ghost var was := items;
      var i := qCount - 1;
      while i >= 0 && key > qKey[i]
        invariant -1 <= i < qCount
        invariant forall k :: i < k < qCount ==> was[k].key < key
      {
        i := i - 1;
      }
      EnqPosUnique(was, key, i + 1);
      PutAt(i + 1, elt, key);
      left := qMax - qCount;
    }

    /** The end of enq: the element goes into its slot. */
    method PutAt(p: nat, elt: T, key: int)
      requires Valid() && qCount < qMax && p == EnqPos(items, key)
      modifies this`items, this`qCount, qKey, qElt
      ensures Valid() && items == Insert(old(items), Item(key, elt)) && qCount == old(qCount) + 1
    {
      ghost var was, it := items, Item(key, elt);
      ShiftUp(p - 1);
      qKey[p] := key;
      qElt[p] := elt;
      qCount := qCount + 1;
      InsertByIndex(was, it, p);
      items := Insert(was, it);
      forall k | 0 <= k < qCount ensures items[k] == Item(qKey[k], qElt[k]) {
        if k < p {
          assert items[k] == was[k];
        } else if k > p {
          assert items[k] == was[k - 1];
        }
      }
    }

    /** The second loop of enq: everything behind slot `i` moves one slot back. */
    method ShiftUp(i: int)
      requires Valid() && qCount < qMax && -1 <= i <= qCount - 1
      modifies qKey, qElt
      ensures forall k :: 0 <= k <= i ==> items[k] == Item(qKey[k], qElt[k])
      ensures forall k :: i + 1 < k <= qCount ==> items[k - 1] == Item(qKey[k], qElt[k])
    {
      var j := qCount - 1;
      while j > i
        invariant i <= j < qCount
        invariant forall k :: 0 <= k <= j ==> items[k] == Item(qKey[k], qElt[k])
        invariant forall k :: j + 1 < k <= qCount ==> items[k - 1] == Item(qKey[k], qElt[k])
      {
        qKey[j + 1] := qKey[j];
        qElt[j + 1] := qElt[j];
        j := j - 1;
      }
    }

    /** deq: removes and returns the head, or None and no change when the queue is empty. */
    method Deq() returns (r: Option<T>)
      requires Valid()
      modifies this`items, this`qCount, qKey, qElt
      ensures Valid()
      ensures if old(items) == [] then r == None && items == []
              else r == Some(old(items)[0].elt) && items == old(items)[1..]
    {
      if qCount <= 0 {
        return None;
      }
      ghost var was := items;
      var elt := qElt[0];
      var i := 1;
      while i < qCount
        invariant 1 <= i <= qCount == |was|
        invariant forall k :: 0 <= k < i - 1 ==> qKey[k] == was[k + 1].key && qElt[k] == was[k + 1].elt
        invariant forall k :: i <= k < qCount ==> qKey[k] == was[k].key && qElt[k] == was[k].elt
      {
        qElt[i - 1] := qElt[i];
        qKey[i - 1] := qKey[i];
        i := i + 1;
      }
      qCount := qCount - 1;
      r := Some(elt);
      items := was[1..];
    }

    /** headq: the head, left in place. */
    method Headq() returns (r: Option<T>)
      requires Valid()
      ensures r == if items == [] then None else Some(items[0].elt)
    {
      if qCount == 0 {
        return None;
      }
      r := Some(qElt[0]);
    }

    /** seeq: moves the cursor one on and returns what it meets; at the end it resets. */
    method Seeq() returns (r: Option<T>)
      requires Valid()
      modifies this`qSeen
      ensures Valid() && items == old(items)
      ensures (r, qSeen) == See(items, old(qSeen))
    {
      if qCount == 0 {
        return None;
      }
      qSeen := qSeen + 1;
      if qSeen >= qCount {
        qSeen := -1;
        return None;
      }
      r := Some(qElt[qSeen]);
    }
  }

  /** One call of seeq: what it returns and where it leaves the cursor. */
  function See<T>(q: seq<Item<T>>, seen: int): (Option<T>, int)
    requires -1 <= seen
  {
    if q == [] then (None, seen)
    else if seen + 1 >= |q| then (None, -1)
    else (Some(q[seen + 1].elt), seen + 1)
  }

  /** What `calls` successive calls of seeq return, and the cursor after them. */
  function SeeMany<T>(q: seq<Item<T>>, seen: int, calls: nat): (r: (seq<Option<T>>, int))
    requires -1 <= seen
    ensures -1 <= r.1
    decreases calls
  {
    if calls == 0 then ([], seen)
    else
      var one := See(q, seen);
      var rest := SeeMany(q, one.1, calls - 1);
      ([one.0] + rest.0, rest.1)
  }

  /** From any cursor inside the queue, the rest of a pass shows the remaining elements once
      each in order, then None, and leaves the cursor reset. */
  lemma {:induction false} SeeRest<T>(q: seq<Item<T>>, seen: int)
    requires -1 <= seen < |q| || (q == [] && seen == -1)
    ensures var r := SeeMany(q, seen, |q| - seen);
            && r.1 == -1 && |r.0| == |q| - seen && r.0[|q| - seen - 1] == None
            && forall k :: 0 <= k < |q| - seen - 1 ==> r.0[k] == Some(q[seen + 1 + k].elt)
    decreases |q| - seen
  {
    if q != [] && seen + 1 < |q| {
      SeeRest(q, seen + 1);
      var rest := SeeMany(q, seen + 1, |q| - seen - 1);
      assert SeeMany(q, seen, |q| - seen).0 == [Some(q[seen + 1].elt)] + rest.0;
    } else {
      assert SeeMany(q, seen, 1).0 == [See(q, seen).0] + SeeMany(q, See(q, seen).1, 0).0;
      assert |q| - seen == 1;
    }
  }

  /** A full pass over an unchanged queue: every element once, head first, then None. */
  lemma SeePass<T>(q: seq<Item<T>>)
    ensures SeeMany(q, -1, |q| + 1) == (seq(|q|, i requires 0 <= i < |q| => Some(q[i].elt)) + [None], -1)
  {
    SeeRest(q, -1);
    var shown := SeeMany(q, -1, |q| + 1).0;
    var all := seq(|q|, i requires 0 <= i < |q| => Some(q[i].elt)) + [None];
    assert |shown| == |all|;
    assert forall k :: 0 <= k < |q| ==> shown[k] == all[k];
    assert shown == all;
  }

  // ----- any run of enq and deq -----

  datatype Op<T> = Enq(elt: T, key: int) | Deq

  /** An element with the moment it entered. */
  datatype Stamped<T> = Stamped(at: nat, elt: T)

  /** A queue with its past: everything that entered, and everything that left, in order. */
  datatype History<T(==)> = History(queue: seq<Item<Stamped<T>>>, clock: nat,
                                entered: multiset<Item<Stamped<T>>>, left: seq<Item<Stamped<T>>>)

  ghost function Step<T>(h: History<T>, op: Op<T>, max: nat): History<T> {
    match op
    case Enq(elt, key) =>
      if |h.queue| >= max then h
      else
        var it := Item(key, Stamped(h.clock, elt));
        h.(queue := Insert(h.queue, it), clock := h.clock + 1, entered := h.entered + multiset{it})
    case Deq =>
      if h.queue == [] then h
      else h.(queue := h.queue[1..], left := h.left + [h.queue[0]])
  }

  ghost function Run<T>(ops: seq<Op<T>>, max: nat): History<T> {
    if ops == [] then History([], 0, multiset{}, [])
    else Step(Run(ops[..|ops| - 1], max), ops[|ops| - 1], max)
  }

  /** The order of service: higher key first, earlier arrival first among equal keys. */
  predicate Before<T>(a: Item<Stamped<T>>, b: Item<Stamped<T>>) {
    a.key > b.key || (a.key == b.key && a.elt.at < b.elt.at)
  }

  ghost predicate Faithful<T>(h: History<T>, max: nat) {
    && |h.queue| <= max
    && Ordered(h.queue)
    && (forall i :: 0 <= i < |h.queue| ==> h.queue[i].elt.at < h.clock)
    && h.entered == multiset(h.queue) + multiset(h.left)
  }

  ghost predicate Ordered<T>(q: seq<Item<Stamped<T>>>) {
    forall i, j :: 0 <= i < j < |q| ==> Before(q[i], q[j])
  }

  lemma InsertOrdered<T>(q: seq<Item<Stamped<T>>>, it: Item<Stamped<T>>)
    requires Ordered(q)
    requires forall i :: 0 <= i < |q| ==> q[i].elt.at < it.elt.at
    ensures Ordered(Insert(q, it))
  {
    var p := EnqPos(q, it.key);
    var r := Insert(q, it);
    forall i, j | 0 <= i < j < |r| ensures Before(r[i], r[j]) {
      if j == p {
        if i < p - 1 { assert Before(q[i], q[p - 1]); }
      } else if i == p {
        assert r[j] == q[j - 1];
      } else {
        var i', j' := if i < p then i else i - 1, if j < p then j else j - 1;
        assert r[i] == q[i'] && r[j] == q[j'] && i' < j';
        assert Before(q[i'], q[j']);
      }
    }
  }

  lemma EnqFaithful<T>(h: History<T>, elt: T, key: int, max: nat)
    requires Faithful(h, max)
    ensures Faithful(Step(h, Op.Enq(elt, key), max), max)
  {
    if |h.queue| < max {
      var it := Item(key, Stamped(h.clock, elt));
      InsertElements(h.queue, it);
      InsertOrdered(h.queue, it);
      InsertEarlier(h.queue, it, h.clock + 1);
    }
  }

  lemma InsertEarlier<T>(q: seq<Item<Stamped<T>>>, it: Item<Stamped<T>>, t: int)
    requires it.elt.at < t && forall i :: 0 <= i < |q| ==> q[i].elt.at < t
    ensures forall i :: 0 <= i < |Insert(q, it)| ==> Insert(q, it)[i].elt.at < t
  {
    var p, r := EnqPos(q, it.key), Insert(q, it);
    forall i | 0 <= i < |r| ensures r[i].elt.at < t {
      if i != p { assert r[i] == q[if i < p then i else i - 1]; }
    }
  }

  /** An element enters if and only if there is room for it, and then it is the only change. */
  lemma EnqTakes<T>(h: History<T>, elt: T, key: int, max: nat)
    requires Faithful(h, max)
    ensures var t := Step(h, Op.Enq(elt, key), max); var it := Item(key, Stamped(h.clock, elt));
            && t.left == h.left
            && (|h.queue| < max ==> t.entered == h.entered + multiset{it}
                                    && multiset(t.queue) == multiset(h.queue) + multiset{it})
            && (|h.queue| == max ==> t == h)
  {
    InsertElements(h.queue, Item(key, Stamped(h.clock, elt)));
  }

  lemma DeqFaithful<T>(h: History<T>, max: nat)
    requires Faithful(h, max)
    ensures Faithful(Step(h, Op<T>.Deq, max), max)
  {
    if h.queue != [] {
      assert h.queue == [h.queue[0]] + h.queue[1..];
      assert multiset(h.left + [h.queue[0]]) == multiset(h.left) + multiset{h.queue[0]};
    }
  }

  /** Over every run of enq and deq nothing is lost, duplicated or reordered: what entered is
      what is queued plus what left, and the queue stands in the order of service. */
  lemma {:induction false} RunFaithful<T>(ops: seq<Op<T>>, max: nat)
    ensures Faithful(Run(ops, max), max)
  {
    if ops != [] {
      RunFaithful(ops[..|ops| - 1], max);
      var h := Run(ops[..|ops| - 1], max);
      match ops[|ops| - 1]
      case Enq(elt, key) => EnqFaithful(h, elt, key, max);
      case Deq => DeqFaithful(h, max);
    }
  }

  /** After any run, deq hands out the one waiting element that goes before all the others. */
  lemma DeqServesBest<T>(ops: seq<Op<T>>, max: nat, it: Item<Stamped<T>>)
    requires var h := Run(ops, max); it in h.entered - multiset(h.left)
    ensures var h := Run(ops, max);
            && h.queue != []
            && Run(ops + [Op<T>.Deq], max).left == h.left + [h.queue[0]]
            && (it == h.queue[0] || Before(h.queue[0], it))
  {
    RunFaithful(ops, max);
    var h := Run(ops, max);
    assert it in multiset(h.queue);
    assert (ops + [Op<T>.Deq])[..|ops|] == ops;
  }
}
