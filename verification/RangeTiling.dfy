/**
 The arithmetic of multi-index entries: xas_set_range() cuts a range of indices into aligned blocks, each inside a node.
 */
module RangeTiling {
  import opened Chunks
  import opened Numbers

  const MASK: nat := CHUNK_SIZE - 1

  /** One multi-index entry: `sibs` + 1 slots at this shift, from `start` on. */
  datatype Block = Block(start: nat, shift: nat, sibs: nat)

  /** xas_size() */
  function Size(b: Block): nat
  {
    Shl(b.sibs + 1, b.shift)
  }

  /** The block is aligned, lies inside one node, and does not go past `last`. */
  ghost predicate Fitting(b: Block, last: nat)
  {
    && (exists l: nat :: b.shift == ShiftOf(l)) && b.shift <= 60 && b.start == Shl(Shr(b.start, b.shift), b.shift)
    && Lo(Shr(b.start, b.shift)) + b.sibs <= MASK
    && b.start + Size(b) <= last + 1
  }

  /** What this means in numbers: the block has `sibs` + 1 slots of 2^shift indices, the shift being a whole number of
      chunks; it begins at a multiple of 2^shift, stays inside one node, and ends no later than `last`. */
  lemma BlockExact(b: Block, last: nat)
    ensures Size(b) == (b.sibs + 1) * Pow2(b.shift)
    ensures Fitting(b, last) <==>
      && (if BASE_SMALL then b.shift % 4 == 0 else b.shift % 6 == 0) && b.shift <= 60
      && b.start % Pow2(b.shift) == 0 && (b.start / Pow2(b.shift)) % CHUNK_SIZE + b.sibs < CHUNK_SIZE
      && b.start + (b.sibs + 1) * Pow2(b.shift) <= last + 1
  {
    hide Pow2, Shl, Shr;
    var p, q := Pow2(b.shift), Shr(b.start, b.shift);
    ShlTimes(b.sibs + 1, b.shift);
    ShrDivides(b.start, b.shift);
    ShlTimes(q, b.shift);
    assert b.start == (b.start / p) * p + b.start % p;
    ChunkMultiple(b.shift);
    LoIsRemainder(q);
  }

  lemma ChunkMultiple(shift: nat)
    ensures (exists l: nat :: shift == ShiftOf(l)) <==> if BASE_SMALL then shift % 4 == 0 else shift % 6 == 0
  {
    if if BASE_SMALL then shift % 4 == 0 else shift % 6 == 0 {
      assert shift == ShiftOf(if BASE_SMALL then shift / 4 else shift / 6);
    }
  }

  lemma LoIsRemainder(k: nat)
    ensures Lo(k) == k % CHUNK_SIZE
  {
  }

  /** The loop of xas_set_range() at level `l`: `d` is one less than the length of the range. */
  ghost predicate Rising(first: nat, d: nat, l: nat, index: nat, sibs: nat, offset: nat)
  {
    && first == Base(l, index) && sibs == Up(d, l) && offset <= MASK
    && (offset == MASK <==> d + 1 == Base(l, sibs + 1))
    && (sibs >= 1 || d + 1 == Base(l, sibs + 1) || l == 0)
  }

  lemma RisingStep(first: nat, d: nat, l: nat, index: nat, sibs: nat, offset: nat)
    requires Rising(first, d, l, index, sibs, offset) && Lo(index) == 0
    requires sibs >= MASK && !(sibs == MASK && offset < MASK)
    ensures Rising(first, d, l + 1, Hi(index), Hi(sibs), if offset == MASK then Lo(sibs) else offset)
    ensures Hi(sibs) < sibs
  {
    CatHiLo(index);
    CatHiLo(sibs);
    BaseStep(l, Hi(index));
    BaseStep(l, Hi(sibs) + 1);
    Covers(d, l, sibs);
    var next := Cat(Hi(sibs) + 1, 0);
    BaseMonotone(l, sibs + 1, next);
    assert Lo(sibs) == MASK <==> sibs + 1 == next;
  }

  /** The range of `d` + 1 indices from `first` lies in the word.  All of it at once would be one slot of a level past
      the word, if the chunk shift divides 64. */
  predicate Bounded(first: nat, d: nat)
  {
    first + d < WORD && (first + d == WORD - 1 ==> first > 0 || !BASE_SMALL)
  }

  /** Shifts past the word are never reached by such a range. */
  lemma RisingBound(first: nat, d: nat, l: nat, index: nat, sibs: nat, offset: nat)
    requires Rising(first, d, l, index, sibs, offset) && Bounded(first, d)
    ensures sibs >= 1 || l == 0 || d + 1 == Base(l, 1) ==> ShiftOf(l) < 64
  {
    ShlIsBase(1, l);
    BaseMonotone(l, 0, 1);
    if ShiftOf(l) >= 64 {
      BigPower(ShiftOf(l));
      if !BASE_SMALL {
        BigPower(ShiftOf(l) - 1);
      }
      Covers(d, l, 1);
    }
  }

  /** The end of the block, as the last test of xas_set_range() computes it. */
  lemma EndOf(first: nat, l: nat, index: nat, sibs: nat)
    requires first == Base(l, index)
    ensures Shl(index + sibs + 1, ShiftOf(l)) == first + Shl(sibs + 1, ShiftOf(l))
  {
    ShlIsBase(index + sibs + 1, l);
    ShlIsBase(sibs + 1, l);
    BaseAdd(l, index, sibs + 1);
  }

  /** The number of siblings after the two corrections at the end of xas_set_range(). */
  function Clip(index: nat, sibs: nat): nat
  {
    if Lo(index) + sibs > MASK then MASK - Lo(index) else sibs
  }

  function TooLong(index: nat, sibs: nat, shift: nat, last: nat): bool
  {
    Trunc(Trunc(Shl(index + sibs + 1, shift)) + WORD - 1) > last
  }

  /** The test for a block that is too long is right, although it is made on wrapped numbers. */
  lemma LastCorrection(first: nat, d: nat, l: nat, index: nat, sibs: nat, offset: nat)
    requires Rising(first, d, l, index, sibs, offset) && Bounded(first, d)
    ensures var n := Clip(index, sibs);
      if TooLong(index, n, ShiftOf(l), first + d) then n > 0 && first + Shl(n, ShiftOf(l)) <= first + d + 1
      else first + Shl(n + 1, ShiftOf(l)) <= first + d + 1
    ensures ShiftOf(l) < 64
  {
    hide Shl, Base, Lo;
    RisingBound(first, d, l, index, sibs, offset);
    var n := Clip(index, sibs);
    EndOf(first, l, index, n);
    ShlIsBase(n + 1, l);
    ShlIsBase(n, l);
    Covers(d, l, sibs);
    if n < sibs {
      BaseMonotone(l, n + 1, sibs);
    } else if d + 1 != Base(l, sibs + 1) {
      WholeSlots(first, l, index, sibs, first + d);
    }
    if l == 0 {
      BaseZero(sibs + 1);
      BaseZero(d);
    }
    BaseMonotone(l, 0, n + 1);
    LastTest(first + Base(l, n + 1), first + d);
  }

  /** Subtracting one from a wrapped end compares with the last index as it would without wrapping. */
  lemma LastTest(end: nat, last: nat)
    requires 1 <= end <= WORD && last < WORD
    ensures Trunc(Trunc(end) + WORD - 1) > last <==> end > last + 1
  {
    if end == WORD {
      assert Trunc(end) == 0;
    } else {
      assert Trunc(end) == end && Trunc(end + WORD - 1) == end - 1;
    }
  }

  lemma BaseZero(k: nat)
    ensures Base(0, k) == k == Up(k, 0)
  {
  }

  /** A slot that begins inside the word ends inside it or at its end. */
  lemma WholeSlots(first: nat, l: nat, index: nat, sibs: nat, last: nat)
    requires first == Base(l, index) && first + Base(l, sibs) <= last < WORD && ShiftOf(l) < 64
    ensures first + Base(l, sibs + 1) <= WORD
  {
    hide Base;
    WordSlot(l);
    BaseAdd(l, index, sibs);
    BaseAdd(l, index, sibs + 1);
    Covers(first + Base(l, sibs), l, Up(WORD, l));
    UpBase(l, index + sibs);
    BaseMonotone(l, index + sibs + 1, Up(WORD, l));
  }

  /** The loop of xas_set_range() stops where one slot of the next level would not be aligned or would be too long. */
  ghost predicate Stopped(d: nat, l: nat, index: nat)
  {
    Lo(index) != 0 || d + 1 < Base(l + 1, 1)
  }

  lemma StopsHere(first: nat, d: nat, l: nat, index: nat, sibs: nat, offset: nat)
    requires Rising(first, d, l, index, sibs, offset)
    requires sibs < MASK || (sibs == MASK && offset < MASK)
    ensures Stopped(d, l, index)
  {
    hide Base, Lo;
    BaseStep(l, 0);
    LastOffset();
    Covers(d, l, sibs);
    BaseMonotone(l, sibs + 1, CHUNK_SIZE);
  }

  lemma StopsThere(d: nat, l: nat, index: nat)
    ensures Lo(index) != 0 ==> Stopped(d, l, index)
  {
  }

  lemma LastOffset()
    ensures Cat(0, CHUNK_SIZE) == CHUNK_SIZE == MASK + 1
  {
  }

  /** No other block that starts here and fits holds more indices. */
  lemma Largest(first: nat, d: nat, l: nat, index: nat, sibs: nat, offset: nat, other: Block)
    requires Rising(first, d, l, index, sibs, offset) && Stopped(d, l, index) && Bounded(first, d)
    requires other.start == first && Fitting(other, first + d)
    ensures var n := Clip(index, sibs);
      Size(other) <= Shl(if TooLong(index, n, ShiftOf(l), first + d) then n else n + 1, ShiftOf(l))
  {
    hide Base, Lo, Shl, Shr, Rising, TooLong, Clip, Up;
    var k: nat :| other.shift == ShiftOf(k);
    ShlIsBase(other.sibs + 1, k);
    LastCorrection(first, d, l, index, sibs, offset);
    if k < l {
      SmallerLevel(k, l, other.sibs, Lo(Shr(first, other.shift)));
      AtLeastOne(first, d, l, index, sibs);
    } else if k == l {
      SameLevel(first, d, l, index, sibs, offset, other.sibs);
    } else {
      ShrIsUp(first, k);
      ShlIsBase(Up(first, k), k);
      HigherLevel(first, d, k, l, index, other.sibs, sibs, offset);
    }
  }

  /** A node of a lower level covers no more than one slot of a higher one. */
  lemma SmallerLevel(k: nat, l: nat, sibs: nat, o: nat)
    requires k < l && o + sibs <= MASK
    ensures Base(k, sibs + 1) <= Base(l, 1)
  {
    hide Base;
    LastOffset();
    BaseMonotone(k, sibs + 1, CHUNK_SIZE);
    BaseStep(k, 0);
    LevelMonotone(k + 1, l);
  }

  lemma {:induction false} LevelMonotone(k: nat, l: nat)
    requires k <= l
    ensures Base(k, 1) <= Base(l, 1)
    decreases l - k
  {
    if k < l {
      LevelMonotone(k, l - 1);
      BaseStep(l - 1, 1);
      BaseMonotone(l - 1, 1, Cat(1, 0));
    }
  }

  /** The block has at least one slot of its level. */
  lemma AtLeastOne(first: nat, d: nat, l: nat, index: nat, sibs: nat)
    ensures var n := Clip(index, sibs);
      && (TooLong(index, n, ShiftOf(l), first + d) && n > 0 ==> Base(l, 1) <= Shl(n, ShiftOf(l)))
      && Base(l, 1) <= Shl(n + 1, ShiftOf(l))
  {
    hide Base, Shl, Lo;
    var n := Clip(index, sibs);
    ShlIsBase(n, l);
    ShlIsBase(n + 1, l);
    if n > 0 {
      BaseMonotone(l, 1, n);
    }
    BaseMonotone(l, 1, n + 1);
  }

  lemma SameLevel(first: nat, d: nat, l: nat, index: nat, sibs: nat, offset: nat, other: nat)
    requires Rising(first, d, l, index, sibs, offset) && Bounded(first, d)
    requires Lo(Shr(first, ShiftOf(l))) + other <= MASK && first + Base(l, other + 1) <= first + d + 1
    ensures var n := Clip(index, sibs);
      Base(l, other + 1) <= Shl(if TooLong(index, n, ShiftOf(l), first + d) then n else n + 1, ShiftOf(l))
  {
    hide Base, Shl, Shr, Up;
    var n := Clip(index, sibs);
    Aligned(first, d, l, index, sibs, offset);
    Covers(d, l, other);
    Covers(d, l, sibs);
    BaseMonotone(l, other, other + 1);
    assert other <= n;
    ShlIsBase(n + 1, l);
    ShlIsBase(n, l);
    EndOf(first, l, index, n);
    BaseMonotone(l, 0, n + 1);
    EndInWord(first, d, l, index, sibs, offset);
    LastTest(first + Base(l, n + 1), first + d);
    if other < n {
      BaseMonotone(l, other + 1, n);
    }
    BaseMonotone(l, other + 1, n + 1);
  }

  /** The end of the block before the last correction is at most the end of the word. */
  lemma EndInWord(first: nat, d: nat, l: nat, index: nat, sibs: nat, offset: nat)
    requires Rising(first, d, l, index, sibs, offset) && Bounded(first, d)
    ensures first + Base(l, Clip(index, sibs) + 1) <= WORD
  {
    hide Base, Lo, Shl, TooLong;
    var n := Clip(index, sibs);
    LastCorrection(first, d, l, index, sibs, offset);
    Covers(d, l, sibs);
    if n < sibs {
      BaseMonotone(l, n + 1, sibs);
    } else {
      WholeSlots(first, l, index, sibs, first + d);
    }
  }

  /** A block of a higher level would have made the loop go on. */
  lemma HigherLevel(first: nat, d: nat, k: nat, l: nat, index: nat, other: nat, sibs: nat, offset: nat)
    requires Rising(first, d, l, index, sibs, offset) && Stopped(d, l, index)
    requires first == Base(k, Up(first, k)) && Base(k, other + 1) <= d + 1
    ensures k <= l
  {
    hide Base, Up;
    UpBase(l, index);
    BaseMonotone(k, 1, other + 1);
    if k > l {
      LevelMonotone(l + 1, k);
      Divides(first, l, k);
    }
  }

  /** An index that begins a slot of a higher level begins a node at each lower one. */
  lemma {:induction false} Divides(first: nat, l: nat, k: nat)
    requires l < k && first == Base(k, Up(first, k))
    ensures Lo(Up(first, l)) == 0
    decreases k - l
  {
    var p := Up(first, k);
    if l + 1 < k {
      BaseStep(k - 1, p);
      UpBase(k - 1, Cat(p, 0));
      Divides(first, l, k - 1);
    } else {
      BaseStep(l, p);
      UpBase(l, Cat(p, 0));
      HiLoCat(p, 0);
    }
  }

  /** No other block that begins at the same index and fits holds more. */
  ghost predicate Greedy(b: Block, last: nat)
  {
    forall other: Block :: other.start == b.start && Fitting(other, last) ==> Size(other) <= Size(b)
  }

  /** xas_set_range() */
  method SetRange(first: nat, last: nat) returns (b: Block)
    requires first <= last && Bounded(first, last - first)
    ensures b.start == first && Fitting(b, last)
    ensures Greedy(b, last)
  {
    hide Base, Up, Shl, Shr, Rising, Clip, TooLong, Stopped;
    var index: nat, shift: nat, sibs: nat, offset: nat := first, 0, last - first, MASK;
    ghost var l: nat := 0;
    RisingStart(first, last - first);
    while Lo(index) == 0
      invariant shift == ShiftOf(l) && Rising(first, last - first, l, index, sibs, offset)
      decreases sibs
    {
      if sibs < MASK {
        StopsHere(first, last - first, l, index, sibs, offset);
        break;
      }
      if sibs == MASK && offset < MASK {
        StopsHere(first, last - first, l, index, sibs, offset);
        break;
      }
      RisingStep(first, last - first, l, index, sibs, offset);
      ShrChunk(sibs);
      ShrChunk(index);
      l := l + 1;
      shift := shift + CHUNK_SHIFT;
      if offset == MASK {
        offset := Lo(sibs);
      }
      sibs := Shr(sibs, CHUNK_SHIFT);
      index := Shr(index, CHUNK_SHIFT);
    }
    StopsThere(last - first, l, index);
    LastCorrection(first, last - first, l, index, sibs, offset);
    forall other: Block | other.start == first && Fitting(other, last)
      ensures Size(other) <= Shl(if TooLong(index, Clip(index, sibs), shift, last) then Clip(index, sibs)
                                 else Clip(index, sibs) + 1, shift)
    {
      Largest(first, last - first, l, index, sibs, offset, other);
    }
    Aligned(first, last - first, l, index, sibs, offset);
    sibs := Clip(index, sibs);
    if TooLong(index, sibs, shift, last) {
      sibs := sibs - 1;
    }
    b := Block(first, shift, sibs);
  }

  lemma RisingStart(first: nat, d: nat)
    ensures Rising(first, d, 0, first, d, MASK)
  {
  }

  lemma Aligned(first: nat, d: nat, l: nat, index: nat, sibs: nat, offset: nat)
    requires Rising(first, d, l, index, sibs, offset)
    ensures Shr(first, ShiftOf(l)) == index && first == Shl(index, ShiftOf(l))
    ensures Lo(index) + Clip(index, sibs) <= MASK
  {
    ShlIsBase(index, l);
    ShrIsUp(first, l);
    UpBase(l, index);
  }

  /** The blocks follow one another without a gap or an overlap, from `from` up to, but not including, `to`. */
  ghost predicate Tiles(blocks: seq<Block>, from: nat, to: nat)
  {
    if blocks == [] then from == to
    else blocks[0].start == from && Size(blocks[0]) > 0 && Tiles(blocks[1..], from + Size(blocks[0]), to)
  }

  lemma {:induction false} TilesStep(blocks: seq<Block>, from: nat, to: nat, b: Block)
    requires Tiles(blocks, from, to) && b.start == to && Size(b) > 0
    ensures Tiles(blocks + [b], from, to + Size(b))
  {
    if blocks == [] {
      assert [b][1..] == [];
    } else {
      assert (blocks + [b])[1..] == blocks[1..] + [b];
      TilesStep(blocks[1..], from + Size(blocks[0]), to, b);
    }
  }

  lemma {:induction false} SizePositive(k: nat, s: nat)
    ensures Shl(k + 1, s) > 0
  {
    if s != 0 {
      SizePositive(k, s - 1);
    }
  }

  /** The guard of the loop in xa_store_range() */
  predicate GoesOn(next: nat, last: nat)
  {
    next <= last
  }

  /** The guard of the loop in xa_store_range() can become false, for some index, exactly if the range does not end with
      the last index of all; if it does, the loop goes on for ever. */
  lemma GuardFails(last: nat)
    requires last < WORD
    ensures last < WORD - 1 <==> exists next: nat :: next < WORD && !GoesOn(next, last)
  {
    if last < WORD - 1 {
      assert !GoesOn(last + 1, last);
    }
  }

  /** The loop of xa_store_range(): the blocks tile the range exactly. */
  method StoreRange(first: nat, last: nat) returns (blocks: seq<Block>)
    requires first <= last < WORD - 1
    ensures Tiles(blocks, first, last + 1)
    ensures forall k :: 0 <= k < |blocks| ==> Fitting(blocks[k], last) && Greedy(blocks[k], last)
  {
    hide Tiles, Fitting, Greedy;
    blocks := [];
    TilesNone(first);
    var next := first;
    while GoesOn(next, last)
      invariant first <= next <= last + 1 && Tiles(blocks, first, next)
      invariant forall k :: 0 <= k < |blocks| ==> Fitting(blocks[k], last) && Greedy(blocks[k], last)
      decreases last + 1 - next
    {
      var b := SetRange(next, last);
      SizePositive(b.sibs, b.shift);
      FittingEnd(b, last);
      TilesStep(blocks, first, next, b);
      blocks := blocks + [b];
      next := Trunc(next + Size(b));
    }
  }

  lemma TilesNone(i: nat)
    ensures Tiles([], i, i)
  {
  }

  lemma FittingEnd(b: Block, last: nat)
    requires Fitting(b, last)
    ensures b.start + Size(b) <= last + 1
  {
  }

  /** Every index of a tiled range is in exactly one of its blocks. */
  lemma {:induction false} TiledOnce(blocks: seq<Block>, from: nat, to: nat, i: nat)
    requires Tiles(blocks, from, to)
    ensures from <= to
    ensures from <= i < to <==>
      exists k :: 0 <= k < |blocks| && blocks[k].start <= i < blocks[k].start + Size(blocks[k])
    ensures forall j, k :: 0 <= j < k < |blocks| ==> blocks[j].start + Size(blocks[j]) <= blocks[k].start
    ensures forall k :: 0 <= k < |blocks| ==> from <= blocks[k].start
  {
    if blocks != [] {
      var rest := blocks[1..];
      var next := from + Size(blocks[0]);
      TiledOnce(rest, next, to, i);
      assert forall k :: 1 <= k < |blocks| ==> blocks[k] == rest[k - 1];
      if from <= i < next {
        assert blocks[0].start <= i < blocks[0].start + Size(blocks[0]);
      } else if next <= i < to {
        var k :| 0 <= k < |rest| && rest[k].start <= i < rest[k].start + Size(rest[k]);
        assert blocks[k + 1] == rest[k];
      }
      if k :| 0 <= k < |blocks| && blocks[k].start <= i < blocks[k].start + Size(blocks[k]) {
        if k > 0 {
          assert rest[k - 1].start <= i < rest[k - 1].start + Size(rest[k - 1]);
        }
      }
    }
  }
}
