/** The heap: getmem, getstk and freemem over an address-ordered free list that lives in the
    free memory itself. Memory is counted in cells of eight octets, the size of an mblock. */
module Heap {
  import opened Wrappers

  datatype Block = Block(at: nat, len: nat) {
    function End(): nat { at + len }
  }

  /** Octets to cells (roundmb). */
  function Cells(nbytes: nat): (n: nat)
    ensures 8 * n - 8 < nbytes <= 8 * n || (nbytes == 0 && n == 0)
  {
    (nbytes + 7) / 8
  }

  /** The free list of a heap whose cells are 1 to `top`: in address order, no two blocks
      overlapping, and none touching the next, so that nothing is left to join. */
  ghost predicate FreeOk(free: seq<Block>, top: nat) {
    InOrder(free, top, 1)
  }

  /** Blocks in address order, at least `gap` cells apart. */
  ghost predicate InOrder(free: seq<Block>, top: nat, gap: nat) {
    && (forall i :: 0 <= i < |free| ==> Inside(free, i, top))
    && (forall i, j :: 0 <= i < j < |free| ==> Apart(free, i, j, gap))
  }

  predicate Inside(free: seq<Block>, i: nat, top: nat)
    requires i < |free|
  {
    0 < free[i].at && 0 < free[i].len && free[i].at + free[i].len <= top + 1
  }

  predicate Apart(free: seq<Block>, i: nat, j: nat, gap: nat)
    requires i < j < |free|
  {
    free[i].at + free[i].len + gap <= free[j].at
  }

  /** What being in order says of two blocks. */
  lemma Two(free: seq<Block>, i: nat, j: nat, top: nat, gap: nat)
    requires InOrder(free, top, gap) && i < |free| && j < |free|
    ensures Inside(free, i, top) && Inside(free, j, top)
    ensures i < j ==> free[i].End() + gap <= free[j].at
    ensures j < i ==> free[j].End() + gap <= free[i].at
  {
    assert i < j ==> Apart(free, i, j, gap);
    assert j < i ==> Apart(free, j, i, gap);
  }

  // ----- what the operations do to the list -----

  function FirstFit(free: seq<Block>, n: nat): (i: nat)
    ensures i <= |free| && (i < |free| ==> free[i].len >= n) && forall k :: 0 <= k < i ==> free[k].len < n
  {
    if free == [] || free[0].len >= n then 0 else 1 + FirstFit(free[1..], n)
  }

  function LastFit(free: seq<Block>, n: nat): (i: int)
    ensures -1 <= i < |free| && (i >= 0 ==> free[i].len >= n) && forall k :: i < k < |free| ==> free[k].len < n
  {
    if free == [] then -1
    else if free[|free| - 1].len >= n then |free| - 1
    else LastFit(free[..|free| - 1], n)
  }

  /** getmem takes the front of the first block that is large enough. */
  function Take(free: seq<Block>, n: nat): (r: Option<(seq<Block>, Block)>)
  {
    var i := FirstFit(free, n);
    if n == 0 || i == |free| then None
    else
      var b := free[i];
      Some((if b.len == n then free[..i] + free[i + 1..] else free[i := Block(b.at + n, b.len - n)],
            Block(b.at, n)))
  }

  /** getstk takes the end of the last block that is large enough. */
  function TakeEnd(free: seq<Block>, n: nat): (r: Option<(seq<Block>, Block)>)
  {
    var i := LastFit(free, n);
    if n == 0 || i < 0 then None
    else
      var b := free[i];
      Some((if b.len == n then free[..i] + free[i + 1..] else free[i := Block(b.at, b.len - n)],
            Block(b.at + (b.len - n), n)))
  }

  /** How many free blocks lie below an address. */
  function Below(free: seq<Block>, at: nat): (k: nat)
    ensures k <= |free| && (k < |free| ==> free[k].at >= at) && forall j :: 0 <= j < k ==> free[j].at < at
  {
    if free == [] || free[0].at >= at then 0 else 1 + Below(free[1..], at)
  }

  /** What freemem turns down: nothing, an address outside or below the first free block, and
      a block that runs into a free one. */
  predicate Refuses(free: seq<Block>, b: Block, top: nat) {
    b.len == 0 || b.at > top || (free != [] && b.at < free[0].at) ||
    var k := Below(free, b.at);
    (k > 0 && free[k - 1].End() > b.at) || (k < |free| && b.End() > free[k].at)
  }

  predicate JoinsBelow(free: seq<Block>, b: Block) {
    var k := Below(free, b.at);
    k > 0 && free[k - 1].End() == b.at
  }

  predicate JoinsAbove(free: seq<Block>, b: Block) {
    var k := Below(free, b.at);
    k < |free| && b.End() == free[k].at
  }

  /** The list with a block put back, joined with the free blocks it touches. */
  function Put(free: seq<Block>, b: Block): seq<Block> {
    var k := Below(free, b.at);
    if JoinsBelow(free, b) then
      if JoinsAbove(free, b) then
        free[..k - 1] + [Block(free[k - 1].at, free[k - 1].len + b.len + free[k].len)] + free[k + 1..]
      else free[k - 1 := Block(free[k - 1].at, free[k - 1].len + b.len)]
    else if JoinsAbove(free, b) then free[k := Block(b.at, b.len + free[k].len)]
    else free[..k] + [b] + free[k..]
  }

  // ----- the code -----

  /** Cell 0 is the anchor memlist, with no memory of its own; as a link, 0 is NULL. The header
      of a free block lies in the block's own first cell. */
  class Memory {
    const mnext: array<nat>
    const mlen: array<nat>
    ghost var free: seq<Block>

    function Top(): nat
    {
      if mnext.Length == 0 then 0 else mnext.Length - 1
    }

    ghost predicate Valid()
      reads this, mnext, mlen
    {
      Loose() && FreeOk(free, Top())
    }

    /** The links spell the list `free`. In the middle of freemem two blocks may touch. */
    ghost predicate Loose()
      reads this, mnext, mlen
    {
      && mnext != mlen && mnext.Length == mlen.Length >= 1 && mlen[0] == 0
      && InOrder(free, Top(), 0)
      && mnext[0] == At(free, 0)
      && forall i: nat :: i < |free| ==> LinkAt(i)
    }

    /** The header of block `i` holds its length and the address of the next. */
    ghost predicate LinkAt(i: nat)
      requires mnext.Length == mlen.Length
      reads this, mnext, mlen
    {
      i < |free| && free[i].at < mnext.Length
      && mlen[free[i].at] == free[i].len && mnext[free[i].at] == At(free, i + 1)
    }

    /** meminit: one free block, all there is. */
    constructor (cells: nat)
      requires cells > 0
      ensures Valid() && free == [Block(1, cells)] && Top() == cells && fresh(mnext) && fresh(mlen)
    {
      mnext := new nat[cells + 1](i => if i == 0 then 1 else 0);
      mlen := new nat[cells + 1](i => if i == 1 then cells else 0);
      free := [Block(1, cells)];
    }

    /** getmem: the address of `nbytes` octets, rounded up, or None. */
    method GetMem(nbytes: nat) returns (r: Option<nat>)
      requires Valid()
      modifies this`free, mnext, mlen
      ensures Valid()
      ensures match Take(old(free), Cells(nbytes))
              case None => r == None && free == old(free)
              case Some(got) => r == Some(got.1.at) && free == got.0
    {
      EndOfList(free, 0, Top());
      if nbytes == 0 || mnext[0] == 0 {
        return None;
      }
      var n := (nbytes + 7) / 8;
      ghost var i := 0;
      var q, p := 0, mnext[0];
      while p != 0
        invariant i <= |free| && p == At(free, i) && q == Before(free, i)
        invariant forall k :: 0 <= k < i ==> free[k].len < n
        decreases |free| - i
      {
        assert LinkAt(i);
        if mlen[p] == n {
          FirstFitIs(free, n, i);
          TakeOk(free, n, Top());
          Unlink(q, p, i);
          return Some(p);
        } else if mlen[p] > n {
          FirstFitIs(free, n, i);
          TakeOk(free, n, Top());
          CutFront(q, p, n, i);
          return Some(p);
        }
        q, p := p, mnext[p];
        i := i + 1;
      }
      EndOfList(free, i, Top());
      FirstFitIs(free, n, i);
      r := None;
    }

    /** Block `i`, at `p` behind `q`, leaves the list. */
    method Unlink(q: nat, p: nat, ghost i: nat)
      requires Loose() && i < |free| && p == free[i].at && q == Before(free, i)
      modifies this`free, mnext
      ensures Loose() && free == old(free)[..i] + old(free)[i + 1..]
    {
      ghost var was := free;
      assert LinkAt(i) && (i > 0 ==> LinkAt(i - 1));
      if i > 0 { Two(free, i - 1, i, Top(), 0); }
      mnext[q] := mnext[p];
      free := free[..i] + free[i + 1..];
      RemoveInOrder(was, i, Top(), 0);
      forall k: nat | k < |free| ensures LinkAt(k) {
        var m := if k < i then k else k + 1;
        assert free[k] == was[m] && old(LinkAt(m));
        if i > 0 { Two(was, m, i - 1, Top(), 0); } else { Two(was, m, i, Top(), 0); }
      }
    }

    /** Block `i` loses its first `n` cells; its header moves up. */
    method CutFront(q: nat, p: nat, n: nat, ghost i: nat)
      requires Loose() && i < |free| && p == free[i].at && q == Before(free, i) && 0 < n < free[i].len
      modifies this`free, mnext, mlen
      ensures Loose() && free == old(free)[i := Block(p + n, old(free)[i].len - n)]
    {
      ghost var was := free;
      assert LinkAt(i) && (i > 0 ==> LinkAt(i - 1));
      Two(free, if i > 0 then i - 1 else i, i, Top(), 0);
      var leftover := p + n;
      mnext[q] := leftover;
      mnext[leftover] := mnext[p];
      mlen[leftover] := mlen[p] - n;
      free := free[i := Block(leftover, free[i].len - n)];
      ShrinkInOrder(was, i, free[i], Top(), 0);
      forall k: nat | k < |free| ensures LinkAt(k) {
        assert old(LinkAt(k));
        Two(was, k, i, Top(), 0);
        if i > 0 { Two(was, k, i - 1, Top(), 0); }
      }
    }

    /** Block `i`, at `p`, loses its last `n` cells. */
    method CutEnd(p: nat, n: nat, ghost i: nat)
      requires Loose() && i < |free| && p == free[i].at && 0 < n < free[i].len
      modifies this`free, mlen
      ensures Loose() && free == old(free)[i := Block(p, old(free)[i].len - n)]
    {
      ghost var was := free;
      assert LinkAt(i);
      Two(free, i, i, Top(), 0);
      mlen[p] := mlen[p] - n;
      free := free[i := Block(p, free[i].len - n)];
      ShrinkInOrder(was, i, free[i], Top(), 0);
      forall k: nat | k < |free| ensures LinkAt(k) {
        assert old(LinkAt(k));
        Two(was, k, i, Top(), 0);
      }
    }

    /** getstk, for a size that is a whole number of cells: the address of the last cell, whose
        second word holds the size; or None. */
    method GetStk(nbytes: nat) returns (r: Option<nat>)
      requires Valid() && nbytes % 8 == 0
      modifies this`free, mnext, mlen
      ensures Valid()
      ensures match TakeEnd(old(free), nbytes / 8)
              case None => r == None && free == old(free)
              case Some(got) =>
                r == Some(got.1.End() - 1) && free == got.0 && r.value <= Top() && mlen[r.value] == nbytes
    {
      if nbytes == 0 {
        return None;
      }
      var fitsq, fits, f := SearchEnd(nbytes / 8);
      if fits == 0 {
        return None;
      }
      TakeEndOk(free, nbytes / 8, Top());
      var top := CutStack(fitsq, fits, nbytes / 8, f);
      StoreSize(top, nbytes);
      r := Some(top);
    }

    /** The loop of getstk: the last block that is large enough, and the one in front of it. */
    method SearchEnd(n: nat) returns (fitsq: nat, fits: nat, ghost f: int)
      requires Valid()
      ensures f == LastFit(free, n) && -1 <= f < |free|
      ensures var l := LastFit(free, n);
              if l == -1 then fits == 0 else fits == free[l].at > 0 && fitsq == Before(free, l) && free[l].len >= n
    {
      ghost var i := 0;
      fitsq, fits, f := 0, 0, -1;
      var q, p := 0, mnext[0];
      while p != 0
        invariant i <= |free| && p == At(free, i) && q == Before(free, i)
        invariant -1 <= f < i && if f == -1 then fits == 0
                                 else fits == free[f].at && fitsq == Before(free, f) && free[f].len >= n
        invariant forall k :: f < k < i ==> free[k].len < n
        decreases |free| - i
      {
        assert LinkAt(i);
        if mlen[p] >= n {
          fitsq, fits := q, p;
          f := i;
        }
        q, p := p, mnext[p];
        i := i + 1;
      }
      EndOfList(free, i, Top());
      LastFitIs(free, n, f);
      if f >= 0 { Two(free, f, f, Top(), 1); }
    }

    /** The block found is unlinked if it is taken whole, and otherwise keeps its front. */
    method CutStack(fitsq: nat, fits: nat, n: nat, ghost f: nat) returns (top: nat)
      requires Valid() && n > 0 && f < |free| && f == LastFit(free, n)
      requires fits == free[f].at && fitsq == Before(free, f) && free[f].len >= n
      requires TakeEnd(free, n).Some? && FreeOk(TakeEnd(free, n).value.0, Top())
      modifies this`free, mnext, mlen
      ensures Loose() && free == TakeEnd(old(free), n).value.0
      ensures top == TakeEnd(old(free), n).value.1.End() - 1 && 0 < top <= Top() && Clear(free, Block(top, 1))
    {
      assert LinkAt(f);
      ghost var was := free;
      Two(free, f, f, Top(), 1);
      var len := mlen[fits];
      if n == len {
        Unlink(fitsq, fits, f);
      } else {
        CutEnd(fits, n, f);
      }
      top := fits + len - 1;
      TakenIsClear(was, n, Top());
    }

    /** The size written into the block that was just taken: no free block's header is there. */
    method StoreSize(c: nat, nbytes: nat)
      requires Loose() && 0 < c <= Top()
      requires Clear(free, Block(c, 1))
      modifies mlen
      ensures Loose() && mlen[c] == nbytes
    {
      mlen[c] := nbytes;
      forall k: nat | k < |free| ensures LinkAt(k) {
        assert old(LinkAt(k)) && ClearOf(free, k, Block(c, 1));
        Two(free, k, k, Top(), 0);
      }
    }

    /** freemem of the `size` octets at `block`. */
    method FreeMem(block: nat, size: nat) returns (ok: bool)
      requires Valid() && (0 < block <= Top() ==> block + Cells(size) <= Top() + 1) && 0 < block
      modifies this`free, mnext, mlen
      ensures Valid()
      ensures ok == !Refuses(old(free), Block(block, Cells(size)), Top())
      ensures free == if ok then Put(old(free), Block(block, Cells(size))) else old(free)
    {
      ghost var b := Block(block, Cells(size));
      if size == 0 || block > Top() || block < mnext[0] {
        return false;
      }
      var n := (size + 7) / 8;
      ghost var k := 0;
      var q, p := 0, mnext[0];
      while p != 0 && p < block
        invariant k <= |free| && p == At(free, k) && q == Before(free, k)
        invariant forall j :: 0 <= j < k ==> free[j].at < block
        decreases |free| - k
      {
        assert LinkAt(k);
        q, p := p, mnext[p];
        k := k + 1;
      }
      if p == 0 { EndOfList(free, k, Top()); }
      BelowIs(free, block, k);
      if k > 0 { Two(free, k - 1, k - 1, Top(), 1); }
      assert k > 0 ==> LinkAt(k - 1);
      var top := mlen[q] + q;
      if (top > block && q != 0) || (p != 0 && n + block > p) {
        return false;
      }
      ok := true;
      PutOk(free, b, Top());
      PutBack(q, p, Block(block, n), k);
    }

    /** The second half of freemem: link a block in between `q` and `p`, joining it with those
        it touches. */
    method PutBack(q0: nat, p: nat, b: Block, ghost k: nat)
      requires Valid() && k == Below(free, b.at) && q0 == Before(free, k) && p == At(free, k)
      requires !Refuses(free, b, Top()) && b.End() <= Top() + 1 && 0 < b.at
      modifies this`free, mnext, mlen
      ensures Loose() && free == Put(old(free), b)
    {
      var q := q0;
      if k > 0 { Two(free, k - 1, k - 1, Top(), 1); }
      if k < |free| { Two(free, k, k, Top(), 1); }
      assert k > 0 ==> LinkAt(k - 1);
      if q != 0 && mlen[q] + q == b.at {
        Grow(q, b.len, k - 1);
        if mlen[q] + q == p {
          JoinNext(q, p, k - 1);
        }
      } else {
        LinkIn(q, p, b, k);
        q := b.at;
        if mlen[q] + q == p {
          JoinNext(q, p, k);
        }
      }
    }

    /** Block `j`, at `q`, is `n` cells longer. */
    method Grow(q: nat, n: nat, ghost j: nat)
      requires Loose() && j < |free| && q == free[j].at
      requires free[j].End() + n <= Top() + 1 && (j + 1 < |free| ==> free[j].End() + n <= free[j + 1].at)
      modifies this`free, mlen
      ensures Loose() && free == old(free)[j := Block(q, old(free)[j].len + n)]
      ensures q < mlen.Length && mlen[q] == free[j].len
    {
      ghost var was := free;
      assert LinkAt(j);
      Two(free, j, if j > 0 then j - 1 else j, Top(), 0);
      mlen[q] := mlen[q] + n;
      free := free[j := Block(q, free[j].len + n)];
      ReplaceInOrder(was, j, free[j], Top(), 0);
      forall k: nat | k < |free| ensures LinkAt(k) {
        assert old(LinkAt(k));
        Two(was, k, j, Top(), 0);
      }
    }

    /** A new block between those at `q` and `p`. */
    method LinkIn(q: nat, p: nat, b: Block, ghost k: nat)
      requires Loose() && k <= |free| && q == Before(free, k) && p == At(free, k) && 0 < b.len
      requires 0 < b.at && (k > 0 ==> free[k - 1].End() <= b.at)
      requires b.End() <= Top() + 1 && (k < |free| ==> b.End() <= free[k].at)
      modifies this`free, mnext, mlen
      ensures Loose() && free == old(free)[..k] + [b] + old(free)[k..] && mlen[b.at] == b.len
    {
      ghost var was := free;
      assert k > 0 ==> LinkAt(k - 1);
      if k > 0 { Two(free, k - 1, k - 1, Top(), 0); }
      mlen[b.at] := b.len;
      mnext[b.at] := p;
      mnext[q] := b.at;
      free := free[..k] + [b] + free[k..];
      InsertInOrder(was, b, k, Top(), 0);
      assert free[k] == b && At(free, k + 1) == p;
      assert LinkAt(k);
      forall i: nat | i < k ensures LinkAt(i) {
        assert free[i] == was[i] && old(LinkAt(i));
        Two(was, i, k - 1, Top(), 0);
      }
      forall i: nat | k < i < |free| ensures LinkAt(i) {
        assert free[i] == was[i - 1] && old(LinkAt(i - 1)) && At(free, i + 1) == At(was, i);
        Two(free, k, i, Top(), 0);
        if k > 0 { Two(was, k - 1, i - 1, Top(), 0); }
      }
    }

    /** Block `j`, at `q`, swallows the one after it, at `p`. */
    method JoinNext(q: nat, p: nat, ghost j: nat)
      requires Loose() && j + 1 < |free| && q == free[j].at && p == free[j + 1].at && free[j].End() == p
      modifies this`free, mnext, mlen
      ensures Loose()
      ensures free == old(free)[..j] + [Block(q, old(free)[j].len + old(free)[j + 1].len)] + old(free)[j + 2..]
    {
      ghost var was := free;
      assert LinkAt(j) && LinkAt(j + 1);
      Two(free, j, j + 1, Top(), 0);
      mlen[q] := mlen[q] + mlen[p];
      mnext[q] := mnext[p];
      free := free[..j] + [Block(q, free[j].len + free[j + 1].len)] + free[j + 2..];
      JoinInOrder(was, j, Top(), 0);
      forall i: nat | i < |free| ensures LinkAt(i) {
        if i != j {
          var m := if i < j then i else i + 1;
          assert free[i] == was[m] && old(LinkAt(m));
          Two(was, m, j, Top(), 0);
        }
      }
    }
  }

  /** Address of block `i` of the list, or NULL at its end. */
  function At(free: seq<Block>, i: nat): nat {
    if i < |free| then free[i].at else 0
  }

  /** Address of the block before block `i`, or the anchor. */
  function Before(free: seq<Block>, i: nat): nat
    requires i <= |free|
  {
    if i == 0 then 0 else free[i - 1].at
  }

  lemma FirstFitIs(free: seq<Block>, n: nat, i: nat)
    requires i <= |free| && (i < |free| ==> free[i].len >= n) && forall k :: 0 <= k < i ==> free[k].len < n
    ensures FirstFit(free, n) == i
  {
  }

  lemma LastFitIs(free: seq<Block>, n: nat, i: int)
    requires -1 <= i < |free| && (i >= 0 ==> free[i].len >= n) && forall k :: i < k < |free| ==> free[k].len < n
    ensures LastFit(free, n) == i
  {
  }

  lemma BelowIs(free: seq<Block>, at: nat, k: nat)
    requires k <= |free| && (k < |free| ==> free[k].at >= at) && forall j :: 0 <= j < k ==> free[j].at < at
    ensures Below(free, at) == k
  {
  }

  /** NULL is the address of no block. */
  lemma EndOfList(free: seq<Block>, i: nat, top: nat)
    requires InOrder(free, top, 0) && i <= |free|
    ensures At(free, i) == 0 <==> i == |free|
  {
    if i < |free| { Two(free, i, i, top, 0); }
  }

  // ----- free and taken -----

  predicate ClearOf(free: seq<Block>, i: nat, b: Block)
    requires i < |free|
  {
    free[i].End() <= b.at || b.End() <= free[i].at
  }

  /** No cell of `b` is free. */
  ghost predicate Clear(free: seq<Block>, b: Block) {
    forall i :: 0 <= i < |free| ==> ClearOf(free, i, b)
  }

  /** Octet `c` (counted in cells) belongs to a block. */
  predicate In(b: Block, c: nat) { b.at <= c < b.End() }

  ghost predicate InFree(free: seq<Block>, c: nat) {
    exists i :: 0 <= i < |free| && In(free[i], c)
  }

  lemma ClearMeansApart(free: seq<Block>, b: Block, c: nat)
    requires Clear(free, b) && In(b, c)
    ensures !InFree(free, c)
  {
    forall i | 0 <= i < |free| ensures !In(free[i], c) { assert ClearOf(free, i, b); }
  }

  lemma ClearPart(free: seq<Block>, b: Block, c: Block)
    requires Clear(free, b) && b.at <= c.at && c.End() <= b.End()
    ensures Clear(free, c)
  {
    forall i | 0 <= i < |free| ensures ClearOf(free, i, c) { assert ClearOf(free, i, b); }
  }

  /** Taking `b` out of block `i`, leaving `rest` of it or nothing: the cells of `b`, and no
      others, are no longer free. */
  lemma CutCells(free: seq<Block>, i: nat, rest: Block, b: Block, top: nat)
    requires FreeOk(free, top) && i < |free| && 0 < b.len && rest.len + b.len == free[i].len
    requires (rest.at == free[i].at && b.at == rest.End()) || (b.at == free[i].at && rest.at == b.End())
    ensures var r := if rest.len == 0 then free[..i] + free[i + 1..] else free[i := rest];
            Clear(r, b) && forall c: nat :: InFree(free, c) <==> InFree(r, c) || In(b, c)
  {
    var r := if rest.len == 0 then free[..i] + free[i + 1..] else free[i := rest];
    forall k | 0 <= k < |r| ensures ClearOf(r, k, b) {
      var m := if rest.len > 0 || k < i then k else k + 1;
      if m != i { assert r[k] == free[m]; Two(free, m, i, top, 1); }
    }
    forall c | InFree(free, c) ensures InFree(r, c) || In(b, c) {
      var m :| 0 <= m < |free| && In(free[m], c);
      if m != i {
        assert r[if rest.len > 0 || m < i then m else m - 1] == free[m];
      } else if !In(b, c) {
        assert r[i] == rest;
      }
    }
    forall c | InFree(r, c) ensures InFree(free, c) {
      var k :| 0 <= k < |r| && In(r[k], c);
      var m := if rest.len > 0 || k < i then k else k + 1;
      if m != i { assert r[k] == free[m]; }
      assert In(free[m], c);
    }
    forall c | In(b, c) ensures InFree(free, c) { assert In(free[i], c); }
  }

  lemma TakeCells(free: seq<Block>, n: nat, top: nat)
    requires FreeOk(free, top) && Take(free, n).Some?
    ensures var (r, b) := Take(free, n).value;
            b.len == n && Clear(r, b) && 0 < b.at && b.End() <= top + 1
            && forall c: nat :: InFree(free, c) <==> InFree(r, c) || In(b, c)
  {
    var i := FirstFit(free, n);
    Two(free, i, i, top, 1);
    CutCells(free, i, Block(free[i].at + n, free[i].len - n), Block(free[i].at, n), top);
  }

  lemma TakeEndCells(free: seq<Block>, n: nat, top: nat)
    requires FreeOk(free, top) && TakeEnd(free, n).Some?
    ensures var (r, b) := TakeEnd(free, n).value;
            b.len == n && Clear(r, b) && 0 < b.at && b.End() <= top + 1
            && forall c: nat :: InFree(free, c) <==> InFree(r, c) || In(b, c)
  {
    var i := LastFit(free, n);
    var len := free[i].len;
    Two(free, i, i, top, 1);
    CutCells(free, i, Block(free[i].at, len - n), Block(free[i].at + (len - n), n), top);
  }

  lemma TakenIsClear(free: seq<Block>, n: nat, top: nat)
    requires FreeOk(free, top) && TakeEnd(free, n).Some?
    ensures var (r, b) := TakeEnd(free, n).value; Clear(r, Block(b.End() - 1, 1))
  {
    TakeEndCells(free, n, top);
    var (r, b) := TakeEnd(free, n).value;
    ClearPart(r, b, Block(b.End() - 1, 1));
  }

  /** Swapping `gone` blocks at `home` for `c`, which has their cells and those of `b`. */
  lemma SwapCells(free: seq<Block>, home: nat, gone: nat, c: Block, b: Block)
    requires home + gone <= |free|
    requires forall x: nat :: In(c, x) <==> In(b, x) || InFree(free[home..home + gone], x)
    ensures forall x: nat :: InFree(free[..home] + [c] + free[home + gone..], x) <==> InFree(free, x) || In(b, x)
  {
    var r := free[..home] + [c] + free[home + gone..];
    forall x: nat | InFree(r, x) ensures InFree(free, x) || In(b, x) {
      var i :| 0 <= i < |r| && In(r[i], x);
      if i == home {
        if !In(b, x) {
          var m :| 0 <= m < gone && In(free[home..home + gone][m], x);
          assert In(free[home + m], x);
        }
      } else {
        assert r[i] == free[if i < home then i else i - 1 + gone];
      }
    }
    forall x: nat | InFree(free, x) ensures InFree(r, x) {
      var m :| 0 <= m < |free| && In(free[m], x);
      if home <= m < home + gone {
        assert free[home..home + gone][m - home] == free[m];
        assert In(r[home], x);
      } else {
        assert r[if m < home then m else m - gone + 1] == free[m];
      }
    }
    forall x: nat | In(b, x) ensures InFree(r, x) { assert In(r[home], x); }
  }

  /** Putting a block back makes exactly its own cells free. */
  lemma PutCells(free: seq<Block>, b: Block)
    ensures forall c: nat :: InFree(Put(free, b), c) <==> InFree(free, c) || In(b, c)
  {
    var k := Below(free, b.at);
    var home := if JoinsBelow(free, b) then k - 1 else k;
    var end := if JoinsAbove(free, b) then k + 1 else k;
    var at := if JoinsBelow(free, b) then free[k - 1].at else b.at;
    var c := Block(at, (if JoinsAbove(free, b) then free[k].End() else b.End()) - at);
    assert Put(free, b) == free[..home] + [c] + free[end..];
    var mid := free[home..end];
    forall x: nat ensures In(c, x) <==> In(b, x) || InFree(mid, x) {
      if JoinsBelow(free, b) { assert mid[0] == free[k - 1]; }
      if JoinsAbove(free, b) { assert mid[|mid| - 1] == free[k]; }
    }
    SwapCells(free, home, end - home, c, b);
  }

  // ----- the list stays in order -----

  lemma RemoveInOrder(free: seq<Block>, i: nat, top: nat, gap: nat)
    requires InOrder(free, top, gap) && i < |free|
    ensures InOrder(free[..i] + free[i + 1..], top, gap)
  {
    var r := free[..i] + free[i + 1..];
    forall k | 0 <= k < |r| ensures Inside(r, k, top) {
      var m := if k < i then k else k + 1;
      assert r[k] == free[m];
      Two(free, m, m, top, gap);
    }
    forall j, k | 0 <= j < k < |r| ensures Apart(r, j, k, gap) {
      var m, n := if j < i then j else j + 1, if k < i then k else k + 1;
      assert r[j] == free[m] && r[k] == free[n];
      Two(free, m, n, top, gap);
    }
  }

  lemma InsertInOrder(free: seq<Block>, b: Block, i: nat, top: nat, gap: nat)
    requires InOrder(free, top, gap) && i <= |free| && 0 < b.at && 0 < b.len && b.End() <= top + 1
    requires i > 0 ==> free[i - 1].End() + gap <= b.at
    requires i < |free| ==> b.End() + gap <= free[i].at
    ensures InOrder(free[..i] + [b] + free[i..], top, gap)
  {
    var r := free[..i] + [b] + free[i..];
    forall k | 0 <= k < |r| ensures Inside(r, k, top) {
      if k != i {
        var m := if k < i then k else k - 1;
        assert r[k] == free[m];
        Two(free, m, m, top, gap);
      }
    }
    forall j, k | 0 <= j < k < |r| ensures Apart(r, j, k, gap) {
      if j == i {
        assert r[k] == free[k - 1];
        Two(free, i, k - 1, top, gap);
      } else if k == i {
        assert r[j] == free[j];
        Two(free, j, i - 1, top, gap);
      } else {
        var m, n := if j < i then j else j - 1, if k < i then k else k - 1;
        assert r[j] == free[m] && r[k] == free[n];
        Two(free, m, n, top, gap);
      }
    }
  }

  /** A block may be replaced by one that keeps clear of its neighbours. */
  lemma ReplaceInOrder(free: seq<Block>, i: nat, b: Block, top: nat, gap: nat)
    requires InOrder(free, top, gap) && i < |free| && 0 < b.at && 0 < b.len && b.End() <= top + 1
    requires i > 0 ==> free[i - 1].End() + gap <= b.at
    requires i + 1 < |free| ==> b.End() + gap <= free[i + 1].at
    ensures InOrder(free[i := b], top, gap)
  {
    var rest := free[..i] + free[i + 1..];
    RemoveInOrder(free, i, top, gap);
    if i > 0 { assert rest[i - 1] == free[i - 1]; }
    if i + 1 < |free| { assert rest[i] == free[i + 1]; }
    InsertInOrder(rest, b, i, top, gap);
    assert rest[..i] + [b] + rest[i..] == free[i := b];
  }

  lemma ShrinkInOrder(free: seq<Block>, i: nat, b: Block, top: nat, gap: nat)
    requires InOrder(free, top, gap) && i < |free| && 0 < b.len
    requires free[i].at <= b.at && b.End() <= free[i].End()
    ensures InOrder(free[i := b], top, gap)
  {
    if i > 0 { Two(free, i - 1, i, top, gap); }
    if i + 1 < |free| { Two(free, i, i + 1, top, gap); }
    Two(free, i, i, top, gap);
    ReplaceInOrder(free, i, b, top, gap);
  }

  lemma JoinInOrder(free: seq<Block>, j: nat, top: nat, gap: nat)
    requires InOrder(free, top, gap) && j + 1 < |free|
    requires free[j].End() <= free[j + 1].at
    ensures InOrder(free[..j] + [Block(free[j].at, free[j + 1].End() - free[j].at)] + free[j + 2..], top, gap)
  {
    var c := Block(free[j].at, free[j + 1].End() - free[j].at);
    Two(free, j, j + 1, top, gap);
    if j > 0 { Two(free, j - 1, j, top, gap); }
    if j + 2 < |free| { Two(free, j + 1, j + 2, top, gap); }
    RemoveInOrder(free, j + 1, top, gap);
    var rest := free[..j + 1] + free[j + 2..];
    if j > 0 { assert rest[j - 1] == free[j - 1]; }
    if j + 1 < |rest| { assert rest[j + 1] == free[j + 2]; }
    ReplaceInOrder(rest, j, c, top, gap);
    assert rest[j := c] == free[..j] + [c] + free[j + 2..];
  }

  lemma TakeOk(free: seq<Block>, n: nat, top: nat)
    requires FreeOk(free, top) && Take(free, n).Some?
    ensures FreeOk(Take(free, n).value.0, top)
  {
    var i := FirstFit(free, n);
    var b := free[i];
    if b.len == n {
      RemoveInOrder(free, i, top, 1);
    } else {
      ShrinkInOrder(free, i, Block(b.at + n, b.len - n), top, 1);
    }
  }

  lemma TakeEndOk(free: seq<Block>, n: nat, top: nat)
    requires FreeOk(free, top) && TakeEnd(free, n).Some?
    ensures FreeOk(TakeEnd(free, n).value.0, top)
  {
    var i := LastFit(free, n);
    var b := free[i];
    if b.len == n { RemoveInOrder(free, i, top, 1); } else { ShrinkInOrder(free, i, Block(b.at, b.len - n), top, 1); }
  }

  lemma PutOk(free: seq<Block>, b: Block, top: nat)
    requires FreeOk(free, top) && !Refuses(free, b, top) && 0 < b.at && b.End() <= top + 1
    ensures FreeOk(Put(free, b), top)
  {
    var k := Below(free, b.at);
    if 0 < k < |free| { Two(free, k - 1, k, top, 1); }
    if JoinsBelow(free, b) {
      if k > 1 { Two(free, k - 2, k - 1, top, 1); }
      Two(free, k - 1, k - 1, top, 1);
      if JoinsAbove(free, b) {
        JoinInOrder(free, k - 1, top, 1);
      } else {
        ReplaceInOrder(free, k - 1, Block(free[k - 1].at, free[k - 1].len + b.len), top, 1);
      }
    } else if JoinsAbove(free, b) {
      Two(free, k, k, top, 1);
      if k + 1 < |free| { Two(free, k, k + 1, top, 1); }
      ReplaceInOrder(free, k, Block(b.at, b.len + free[k].len), top, 1);
    } else {
      InsertInOrder(free, b, k, top, 1);
    }
  }
}
