/** What holds of the heap over whole runs: no cell is ever lost or handed out twice, and which
    blocks can be given back at all. */
module HeapRuns {
  import opened Wrappers
  import opened Heap

  /** The free list and the blocks handed out. */
  datatype State = State(free: seq<Block>, live: set<Block>)

  ghost predicate InLive(live: set<Block>, c: nat) {
    exists b :: b in live && In(b, c)
  }

  predicate Disjoint(a: Block, b: Block) { a.End() <= b.at || b.End() <= a.at }

  /** Every cell of the arena is in a free block or in exactly one live block, never in both. */
  ghost predicate Inv(s: State, top: nat) {
    && FreeOk(s.free, top)
    && (forall b :: b in s.live ==> 0 < b.at && 0 < b.len && b.End() <= top + 1 && Clear(s.free, b))
    && (forall a, b :: a in s.live && b in s.live && a != b ==> Disjoint(a, b))
    && (forall c: nat :: 0 < c <= top ==> InFree(s.free, c) || InLive(s.live, c))
  }

  datatype Op = GetMem(nbytes: nat) | GetStk(nbytes: nat) | FreeMem(b: Block)

  /** Callers ask for stacks in whole cells, and give back only what they were given. */
  predicate Allowed(s: State, op: Op) {
    match op
    case GetMem(_) => true
    case GetStk(n) => n % 8 == 0
    case FreeMem(b) => b in s.live
  }

  function Grant(s: State, r: Option<(seq<Block>, Block)>): State {
    match r
    case None => s
    case Some(got) => State(got.0, s.live + {got.1})
  }

  function Step(s: State, op: Op, top: nat): State {
    match op
    case GetMem(n) => Grant(s, Take(s.free, Cells(n)))
    case GetStk(n) => Grant(s, TakeEnd(s.free, n / 8))
    case FreeMem(b) =>
      if Refuses(s.free, b, top) then s else State(Put(s.free, b), s.live - {b})
  }

  function Run(s: State, ops: seq<Op>, top: nat): State {
    if ops == [] then s else Step(Run(s, ops[..|ops| - 1], top), ops[|ops| - 1], top)
  }

  ghost predicate AllAllowed(s: State, ops: seq<Op>, top: nat) {
    forall i :: 0 <= i < |ops| ==> Allowed(Run(s, ops[..i], top), ops[i])
  }

  // ----- conservation -----

  lemma InitInv(top: nat)
    requires top > 0
    ensures Inv(State([Block(1, top)], {}), top)
  {
    var s := State([Block(1, top)], {});
    assert Inside(s.free, 0, top);
    forall c: nat | 0 < c <= top ensures InFree(s.free, c) { assert In(s.free[0], c); }
  }

  /** A block cut out of the free list was no one's. */
  lemma GrantKeeps(s: State, r: seq<Block>, b: Block, top: nat)
    requires Inv(s, top) && FreeOk(r, top) && 0 < b.at && 0 < b.len && b.End() <= top + 1 && Clear(r, b)
    requires forall c: nat :: InFree(s.free, c) <==> InFree(r, c) || In(b, c)
    ensures Inv(State(r, s.live + {b}), top)
  {
    forall a | a in s.live ensures Disjoint(a, b) && Clear(r, a) {
      forall c: nat ensures !(In(a, c) && In(b, c)) {
        if In(a, c) { ClearMeansApart(s.free, a, c); }
      }
      ApartMeansDisjoint(a, b);
      forall i | 0 <= i < |r| ensures ClearOf(r, i, a) {
        Two(r, i, i, top, 1);
        forall c: nat ensures !(In(a, c) && In(r[i], c)) {
          if In(a, c) {
            ClearMeansApart(s.free, a, c);
            assert !InFree(r, c);
          }
        }
        ApartMeansDisjoint(r[i], a);
      }
    }
    forall c: nat | 0 < c <= top ensures InFree(r, c) || InLive(s.live + {b}, c) {
      if InLive(s.live, c) {
        var a :| a in s.live && In(a, c);
        assert a in s.live + {b};
      } else if In(b, c) {
        assert b in s.live + {b};
      }
    }
  }

  lemma ApartMeansDisjoint(a: Block, b: Block)
    requires 0 < a.len && 0 < b.len && forall c: nat :: !(In(a, c) && In(b, c))
    ensures Disjoint(a, b)
  {
    assert !(In(a, a.at) && In(b, a.at)) && !(In(a, b.at) && In(b, b.at));
  }

  lemma FreeKeeps(s: State, b: Block, top: nat)
    requires Inv(s, top) && b in s.live && !Refuses(s.free, b, top)
    ensures Inv(State(Put(s.free, b), s.live - {b}), top)
  {
    PutOk(s.free, b, top);
    PutCells(s.free, b);
    var r := Put(s.free, b);
    forall a | a in s.live - {b} ensures Clear(r, a) {
      forall i | 0 <= i < |r| ensures ClearOf(r, i, a) {
        Two(r, i, i, top, 1);
        forall c: nat ensures !(In(a, c) && In(r[i], c)) {
          if In(a, c) {
            ClearMeansApart(s.free, a, c);
            assert Disjoint(a, b);
            assert !InFree(r, c);
          }
        }
        ApartMeansDisjoint(r[i], a);
      }
    }
    forall c: nat | 0 < c <= top ensures InFree(r, c) || InLive(s.live - {b}, c) {
      if InLive(s.live, c) {
        var a :| a in s.live && In(a, c);
        if a != b { assert a in s.live - {b}; }
      }
    }
  }

  lemma StepKeeps(s: State, op: Op, top: nat)
    requires Inv(s, top) && Allowed(s, op)
    ensures Inv(Step(s, op, top), top)
  {
    match op
    case GetMem(n) =>
      if Take(s.free, Cells(n)).Some? {
        TakeOk(s.free, Cells(n), top);
        TakeCells(s.free, Cells(n), top);
        var (r, b) := Take(s.free, Cells(n)).value;
        GrantKeeps(s, r, b, top);
      }
    case GetStk(n) =>
      if TakeEnd(s.free, n / 8).Some? {
        TakeEndOk(s.free, n / 8, top);
        TakeEndCells(s.free, n / 8, top);
        var (r, b) := TakeEnd(s.free, n / 8).value;
        GrantKeeps(s, r, b, top);
      }
    case FreeMem(b) =>
      if !Refuses(s.free, b, top) { FreeKeeps(s, b, top); }
  }

  /** Over any run of getmem, getstk and freemem the free list stays in order and joined, and
      free and live blocks share out the arena between them. */
  lemma {:induction false} RunKeeps(ops: seq<Op>, top: nat)
    requires top > 0 && AllAllowed(State([Block(1, top)], {}), ops, top)
    ensures Inv(Run(State([Block(1, top)], {}), ops, top), top)
    decreases |ops|
  {
    var s := State([Block(1, top)], {});
    if ops == [] {
      InitInv(top);
    } else {
      var before := ops[..|ops| - 1];
      forall i | 0 <= i < |before| ensures Allowed(Run(s, before[..i], top), before[i]) {
        assert before[..i] == ops[..i] && before[i] == ops[i];
      }
      RunKeeps(before, top);
      StepKeeps(Run(s, before, top), ops[|ops| - 1], top);
    }
  }

  // ----- what can be had -----

  /** `n` cells from `at` on are free. */
  ghost predicate AllFree(free: seq<Block>, at: nat, n: nat) {
    forall c: nat :: at <= c < at + n ==> InFree(free, c)
  }

  lemma CellIn(free: seq<Block>, c: nat) returns (i: nat)
    requires InFree(free, c)
    ensures i < |free| && free[i].at <= c < free[i].End()
  {
    i :| 0 <= i < |free| && In(free[i], c);
  }

  /** Free cells in a row lie in one free block, since no two blocks touch. */
  lemma {:induction false} InOneBlock(free: seq<Block>, at: nat, n: nat, top: nat) returns (i: nat)
    requires FreeOk(free, top) && n > 0 && AllFree(free, at, n)
    ensures i < |free| && free[i].at <= at && at + n <= free[i].End()
    decreases n
  {
    if n == 1 {
      i := CellIn(free, at);
    } else {
      i := InOneBlock(free, at, n - 1, top);
      var j := CellIn(free, at + n - 1);
      Two(free, i, j, top, 1);
    }
  }

  lemma BlockIsFree(free: seq<Block>, i: nat, at: nat, n: nat)
    requires i < |free| && free[i].at <= at && at + n <= free[i].End()
    ensures AllFree(free, at, n)
  {
    forall c: nat | at <= c < at + n ensures InFree(free, c) { assert In(free[i], c); }
  }

  /** getmem fails if and only if there are not that many free cells in a row, and otherwise hands out
      the lowest such cells. */
  lemma TakeLowest(free: seq<Block>, n: nat, top: nat)
    requires FreeOk(free, top) && n > 0
    ensures Take(free, n) == None <==> forall at: nat :: !AllFree(free, at, n)
    ensures Take(free, n).Some? ==>
              var b := Take(free, n).value.1;
              b.len == n && AllFree(free, b.at, n) && forall at: nat :: AllFree(free, at, n) ==> b.at <= at
  {
    var f := FirstFit(free, n);
    forall at: nat | AllFree(free, at, n) ensures f < |free| && free[f].at <= at {
      var i := InOneBlock(free, at, n, top);
      Two(free, f, i, top, 1);
    }
    if f < |free| { BlockIsFree(free, f, free[f].at, n); }
  }

  /** getstk fails likewise, and hands out the highest such cells. */
  lemma TakeEndHighest(free: seq<Block>, n: nat, top: nat)
    requires FreeOk(free, top) && n > 0
    ensures TakeEnd(free, n) == None <==> forall at: nat :: !AllFree(free, at, n)
    ensures TakeEnd(free, n).Some? ==>
              var b := TakeEnd(free, n).value.1;
              b.len == n && AllFree(free, b.at, n) && forall at: nat :: AllFree(free, at, n) ==> at <= b.at
  {
    var f := LastFit(free, n);
    forall at: nat | AllFree(free, at, n) ensures f >= 0 && at + n <= free[f].End() {
      var i := InOneBlock(free, at, n, top);
      Two(free, f, i, top, 1);
    }
    if f >= 0 { BlockIsFree(free, f, free[f].End() - n, n); }
  }

  // ----- what can be given back -----

  /** freemem turns down an empty block, one outside the arena, one below the first free block, and one
      that has a free cell; and no other. */
  lemma RefusesExact(free: seq<Block>, b: Block, top: nat)
    requires FreeOk(free, top)
    ensures Refuses(free, b, top) <==>
              || b.len == 0 || b.at > top || (free != [] && b.at < free[0].at)
              || exists c: nat :: In(b, c) && InFree(free, c)
  {
    var k := Below(free, b.at);
    if c: nat :| In(b, c) && InFree(free, c) {
      var i := CellIn(free, c);
      if k > 0 { Two(free, k - 1, i, top, 1); }
      if k < |free| { Two(free, k, i, top, 1); }
    }
    if k > 0 && free[k - 1].End() > b.at && b.len > 0 {
      assert In(free[k - 1], b.at) && In(b, b.at);
    }
    if k < |free| && b.End() > free[k].at && b.len > 0 {
      Two(free, k, k, top, 1);
      assert In(free[k], free[k].at) && In(b, free[k].at);
    }
  }

  /** A live block is turned down exactly when the first free block lies above it: the tests
      for overlap never fail for a caller who gives back what it was given. */
  lemma RefusedIff(s: State, b: Block, top: nat)
    requires Inv(s, top) && b in s.live
    ensures Refuses(s.free, b, top) <==> s.free != [] && b.at < s.free[0].at
  {
    var k := Below(s.free, b.at);
    if k > 0 {
      assert ClearOf(s.free, k - 1, b);
      Two(s.free, k - 1, k - 1, top, 1);
    }
    if k < |s.free| {
      assert ClearOf(s.free, k, b);
      Two(s.free, k, k, top, 1);
    }
  }

  /** Giving `b` back to the list `r` is refused exactly if `bad`, and otherwise makes it
      `free` again. */
  predicate Undoes(free: seq<Block>, r: seq<Block>, b: Block, top: nat, bad: bool) {
    (Refuses(r, b, top) <==> bad) && (!bad ==> Put(r, b) == free)
  }

  /** A whole block taken out and put back. */
  lemma WholeAndBack(free: seq<Block>, i: nat, top: nat)
    requires FreeOk(free, top) && i < |free|
    ensures Undoes(free, free[..i] + free[i + 1..], free[i], top, i == 0 && |free| > 1)
  {
    var r, b := free[..i] + free[i + 1..], free[i];
    if i > 0 { Two(free, i - 1, i, top, 1); }
    if i > 0 { Two(free, 0, i, top, 1); }
    if i + 1 < |free| { Two(free, i, i + 1, top, 1); }
    Two(free, i, i, top, 1);
    forall j | 0 <= j < i ensures r[j].at < b.at { Two(free, j, i, top, 1); }
    BelowIs(r, b.at, i);
    assert r[..i] + [b] + r[i..] == free;
  }

  /** The front of block `i` taken off and put back. */
  lemma FrontAndBack(free: seq<Block>, i: nat, n: nat, top: nat)
    requires FreeOk(free, top) && i < |free| && 0 < n < free[i].len
    ensures Undoes(free, free[i := Block(free[i].at + n, free[i].len - n)], Block(free[i].at, n), top, i == 0)
  {
    var r, b := free[i := Block(free[i].at + n, free[i].len - n)], Block(free[i].at, n);
    if i > 0 { Two(free, i - 1, i, top, 1); }
    if i > 0 { Two(free, 0, i, top, 1); }
    Two(free, i, i, top, 1);
    forall j | 0 <= j < i ensures r[j].at < b.at { Two(free, j, i, top, 1); }
    BelowIs(r, b.at, i);
    assert r[i := free[i]] == free;
  }

  /** The end of block `i` taken off and put back. */
  lemma EndAndBack(free: seq<Block>, i: nat, n: nat, top: nat)
    requires FreeOk(free, top) && i < |free| && 0 < n < free[i].len
    ensures Undoes(free, free[i := Block(free[i].at, free[i].len - n)],
                   Block(free[i].at + (free[i].len - n), n), top, false)
  {
    var r, b := free[i := Block(free[i].at, free[i].len - n)], Block(free[i].at + (free[i].len - n), n);
    if i > 0 { Two(free, 0, i, top, 1); }
    if i + 1 < |free| { Two(free, i, i + 1, top, 1); }
    Two(free, i, i, top, 1);
    forall j | 0 <= j < i ensures r[j].at < b.at { Two(free, j, i, top, 1); }
    BelowIs(r, b.at, i + 1);
    assert r[i := free[i]] == free;
  }

  /** freemem straight after getmem undoes it, if and only if the block did not come off the
      front of the free list with free memory remaining above it. */
  lemma FreeUndoesGetMem(free: seq<Block>, n: nat, top: nat)
    requires FreeOk(free, top) && Take(free, n).Some?
    ensures var (r, b) := Take(free, n).value;
            Undoes(free, r, b, top, FirstFit(free, n) == 0 && (|free| > 1 || free[0].len > n))
  {
    var i := FirstFit(free, n);
    Two(free, i, i, top, 1);
    var (r, b) := Take(free, n).value;
    if free[i].len == n {
      assert r == free[..i] + free[i + 1..] && b == free[i];
      WholeAndBack(free, i, top);
    } else {
      assert r == free[i := Block(free[i].at + n, free[i].len - n)] && b == Block(free[i].at, n);
      FrontAndBack(free, i, n, top);
    }
  }

  /** freemem straight after getstk undoes it, unless the stack took the whole of the first
      free block and another lies above. */
  lemma FreeUndoesGetStk(free: seq<Block>, n: nat, top: nat)
    requires FreeOk(free, top) && TakeEnd(free, n).Some?
    ensures var (r, b) := TakeEnd(free, n).value;
            Undoes(free, r, b, top, LastFit(free, n) == 0 && free[0].len == n && |free| > 1)
  {
    var i := LastFit(free, n);
    var bad := i == 0 && free[0].len == n && |free| > 1;
    Two(free, i, i, top, 1);
    if free[i].len == n {
      WholeAndBack(free, i, top);
      assert bad == (i == 0 && |free| > 1);
      assert TakeEnd(free, n).value == (free[..i] + free[i + 1..], free[i]);
    } else {
      EndAndBack(free, i, n, top);
      assert !bad;
      assert TakeEnd(free, n).value == (free[i := Block(free[i].at, free[i].len - n)],
                                        Block(free[i].at + (free[i].len - n), n));
    }
  }

  /** The first free block never moves down while there is one. */
  lemma HeadNeverFalls(s: State, op: Op, top: nat)
    requires Inv(s, top) && Allowed(s, op)
    ensures var t := Step(s, op, top);
            s.free != [] && t.free != [] ==> s.free[0].at <= t.free[0].at
  {
    if s.free != [] {
      if |s.free| > 1 { Two(s.free, 0, 1, top, 1); }
      Two(s.free, 0, 0, top, 1);
    }
  }

  /** So a block turned down once is turned down for good, over any run in which memory never
      runs out altogether. */
  lemma {:induction false} RefusedForGood(s: State, b: Block, ops: seq<Op>, top: nat)
    requires Inv(s, top) && AllAllowed(s, ops, top) && b in s.live && Refuses(s.free, b, top)
    requires forall i :: 0 <= i <= |ops| ==> Run(s, ops[..i], top).free != []
    ensures var t := Run(s, ops, top); Inv(t, top) && b in t.live && Refuses(t.free, b, top)
    decreases |ops|
  {
    assert ops[..|ops|] == ops;
    if ops != [] {
      var before, op := ops[..|ops| - 1], ops[|ops| - 1];
      forall i | 0 <= i < |before| ensures Allowed(Run(s, before[..i], top), before[i]) {
        assert before[..i] == ops[..i] && before[i] == ops[i];
      }
      forall i | 0 <= i <= |before| ensures Run(s, before[..i], top).free != [] {
        assert before[..i] == ops[..i];
      }
      RefusedForGood(s, b, before, top);
      var t := Run(s, before, top);
      StepKeeps(t, op, top);
      HeadNeverFalls(t, op, top);
      RefusedIff(t, b, top);
      RefusedIff(Step(t, op, top), b, top);
    }
  }
}
