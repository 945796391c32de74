/**
 Arithmetic of the radix tree: an index is cut into digits of one chunk each.

 A slot at level `l` is numbered by the digits above it: index `i` passes through slot number
 `Up(i, l)`, which is `i` shifted right by `l` chunks.  Slot `k` of level `l` sits at offset `Lo(k)`
 of the node whose chunk number is `Hi(k)`, and covers the indices `Base(l, k) .. Base(l, k + 1)`.
 */
module Chunks {
  import opened Numbers

  /** CONFIG_BASE_SMALL: chunks of 16 slots when set, of 64 slots otherwise. Every result holds for both. */
  const BASE_SMALL: bool

  const CHUNK_SHIFT: nat := if BASE_SMALL then 4 else 6
  const CHUNK_SIZE: nat := if BASE_SMALL then 16 else 64

  function Hi(k: nat): nat { if BASE_SMALL then k / 16 else k / 64 }

  function Lo(k: nat): (o: nat)
    ensures o < CHUNK_SIZE
  {
    if BASE_SMALL then k % 16 else k % 64
  }

  function Cat(p: nat, o: nat): nat { if BASE_SMALL then 16 * p + o else 64 * p + o }

  /** Index `i` shifted right by `l` chunks. */
  function Up(i: nat, l: nat): nat
  {
    if l == 0 then i else Hi(Up(i, l - 1))
  }

  /** The first index below slot `k` of level `l`. */
  function Base(l: nat, k: nat): nat
  {
    if l == 0 then k else Base(l - 1, Cat(k, 0))
  }

  /** The shift of a node at level `l`. */
  function ShiftOf(l: nat): nat { if BASE_SMALL then 4 * l else 6 * l }

  /** The C operator `<<` before truncation to an unsigned long. */
  function Shl(i: nat, s: nat): nat
  {
    if s == 0 then i else 2 * Shl(i, s - 1)
  }

  function Trunc(x: nat): nat { x % WORD }

  lemma HiLoCat(p: nat, o: nat)
    requires o < CHUNK_SIZE
    ensures Hi(Cat(p, o)) == p && Lo(Cat(p, o)) == o
  {
  }

  lemma CatHiLo(k: nat)
    ensures Cat(Hi(k), Lo(k)) == k
  {
  }

  lemma UpStep(i: nat, l: nat)
    ensures Up(i, l + 1) == Hi(Up(i, l)) && Up(i, l) == Cat(Up(i, l + 1), Lo(Up(i, l)))
  {
    CatHiLo(Up(i, l));
  }

  /** Once the digits above level `l` are exhausted they stay exhausted. */
  lemma UpZero(i: nat, l: nat, m: nat)
    requires l <= m && Up(i, l) == 0
    ensures Up(i, m) == 0
    decreases m - l
  {
    if l < m {
      assert Up(i, l + 1) == 0;
      UpZero(i, l + 1, m);
    }
  }

  lemma UpStart(i: nat)
    ensures Up(i, 0) == i && (i == 0 ==> Up(i, 1) == 0)
  {
  }

  lemma UpMonotone(i: nat, j: nat, l: nat)
    requires i <= j
    ensures Up(i, l) <= Up(j, l)
  {
    if l != 0 {
      UpMonotone(i, j, l - 1);
    }
  }

  lemma {:induction false} BaseMonotone(l: nat, j: nat, k: nat)
    requires j <= k
    ensures k - j <= Base(l, k) - Base(l, j)
  {
    if l != 0 {
      BaseMonotone(l - 1, Cat(j, 0), Cat(k, 0));
    }
  }

  /** A slot covers exactly the indices from its base up to the base of the next slot. */
  lemma {:induction false} Covers(i: nat, l: nat, k: nat)
    ensures Up(i, l) == k <==> Base(l, k) <= i < Base(l, k + 1)
    ensures Up(i, l) < k <==> i < Base(l, k)
  {
    if l != 0 {
      var j := Up(i, l - 1);
      Covers(i, l - 1, Cat(k, 0));
      Covers(i, l - 1, Cat(k + 1, 0));
      assert Up(i, l) == Hi(j);
      assert Hi(j) < k <==> j < Cat(k, 0);
      assert Hi(j) == k <==> Cat(k, 0) <= j < Cat(k + 1, 0);
    }
  }

  lemma UpBase(l: nat, k: nat)
    ensures Up(Base(l, k), l) == k
  {
    BaseMonotone(l, k, k + 1);
    Covers(Base(l, k), l, k);
  }

  lemma {:induction false} BaseStep(l: nat, k: nat)
    ensures Base(l + 1, k) == Base(l, Cat(k, 0))
    ensures Base(l, Cat(k, CHUNK_SIZE)) == Base(l + 1, k + 1)
  {
    assert Cat(k, CHUNK_SIZE) == Cat(k + 1, 0);
  }

  lemma {:induction false} ShrSum(i: nat, s: nat, t: nat)
    ensures Shr(i, s + t) == Shr(Shr(i, s), t)
    decreases t
  {
    if t != 0 {
      ShrSum(i, s, t - 1);
    }
  }

  lemma {:induction false} ShlSum(i: nat, s: nat, t: nat)
    ensures Shl(i, s + t) == Shl(Shl(i, s), t)
    decreases t
  {
    if t != 0 {
      ShlSum(i, s, t - 1);
    }
  }

  lemma ShrChunk(i: nat)
    ensures Shr(i, CHUNK_SHIFT) == Hi(i)
  {
    assert Shr(i, 1) == i / 2;
    assert Shr(i, 2) == i / 4;
    assert Shr(i, 3) == i / 8;
    assert Shr(i, 4) == i / 16;
    assert Shr(i, 5) == i / 32;
    assert Shr(i, 6) == i / 64;
  }

  lemma ShlChunk(i: nat)
    ensures Shl(i, CHUNK_SHIFT) == Cat(i, 0)
  {
    assert Shl(i, 1) == 2 * i;
    assert Shl(i, 2) == 4 * i;
    assert Shl(i, 3) == 8 * i;
    assert Shl(i, 4) == 16 * i;
    assert Shl(i, 5) == 32 * i;
    assert Shl(i, 6) == 64 * i;
  }

  /** The shift kept in a node is its level in chunks, so `index >> shift` is `Up`. */
  lemma {:induction false} ShrIsUp(i: nat, l: nat)
    ensures Shr(i, ShiftOf(l)) == Up(i, l)
  {
    if l != 0 {
      ShrIsUp(i, l - 1);
      ShrSum(i, ShiftOf(l - 1), CHUNK_SHIFT);
      ShrChunk(Up(i, l - 1));
    }
  }

  lemma {:induction false} ShlIsBase(k: nat, l: nat)
    ensures Shl(k, ShiftOf(l)) == Base(l, k)
    decreases l
  {
    if l != 0 {
      ShlIsBase(Cat(k, 0), l - 1);
      ShlSum(k, CHUNK_SHIFT, ShiftOf(l - 1));
      ShlChunk(k);
    }
  }

  lemma {:induction false} ShlTimes(i: nat, s: nat)
    ensures Shl(i, s) == i * Pow2(s)
  {
    if s > 0 {
      ShlTimes(i, s - 1);
      Twice(i, Pow2(s - 1));
    }
  }

  /** In numbers: a slot of level `l` covers 2^s indices, where s is `l` times the width of a chunk. */
  lemma SlotNumbers(i: nat, l: nat, k: nat)
    ensures var s := if BASE_SMALL then 4 * l else 6 * l;
      ShiftOf(l) == s && Up(i, l) == i / Pow2(s) && Base(l, k) == k * Pow2(s)
  {
    ShrIsUp(i, l);
    ShrDivides(i, ShiftOf(l));
    ShlIsBase(k, l);
    ShlTimes(k, ShiftOf(l));
  }

  /** max_index() of a node: `(XA_CHUNK_SIZE << shift) - 1` in unsigned long arithmetic. */
  function MaxIndex(shift: nat): nat
  {
    Trunc(Trunc(Shl(CHUNK_SIZE, shift)) + WORD - 1)
  }

  lemma WordShift()
    ensures Shl(1, 64) == WORD
  {
    assert Shl(1, 8) == 0x100;
    ShlSum(1, 8, 8);
    assert Shl(0x100, 8) == 0x1_0000;
    ShlSum(1, 16, 8);
    assert Shl(0x1_0000, 8) == 0x100_0000;
    ShlSum(1, 24, 8);
    assert Shl(0x100_0000, 8) == 0x1_0000_0000;
    ShlSum(1, 32, 8);
    assert Shl(0x1_0000_0000, 8) == 0x100_0000_0000;
    ShlSum(1, 40, 8);
    assert Shl(0x100_0000_0000, 8) == 0x1_0000_0000_0000;
    ShlSum(1, 48, 8);
    assert Shl(0x1_0000_0000_0000, 8) == 0x100_0000_0000_0000;
    ShlSum(1, 56, 8);
    assert Shl(0x100_0000_0000_0000, 8) == WORD;
  }

  /** A power of two either fits a word or is a multiple of it. */
  lemma {:induction false} PowerWraps(s: nat)
    ensures s < 64 ==> 0 < Shl(1, s) < WORD
    ensures s >= 64 ==> Trunc(Shl(1, s)) == 0
    decreases if s < 64 then 64 - s else s
  {
    WordShift();
    if s < 63 {
      PowerWraps(s + 1);
    } else if s > 64 {
      PowerWraps(s - 1);
    }
  }

  /** The wrapped computation of max_index() still says which indices a node of level `l` reaches. */
  lemma MaxIndexReach(i: nat, l: nat)
    requires i < WORD
    ensures i <= MaxIndex(ShiftOf(l)) <==> Up(i, l + 1) == 0
  {
    hide Up, Base, Shl;
    var top := Base(l + 1, 1);
    ShlIsBase(CHUNK_SIZE, l);
    ShlIsBase(1, l + 1);
    BaseStep(l, 0);
    assert Cat(0, CHUNK_SIZE) == CHUNK_SIZE;
    assert Shl(CHUNK_SIZE, ShiftOf(l)) == top;
    Covers(i, l + 1, 1);
    PowerWraps(ShiftOf(l + 1));
    assert Up(i, l + 1) == 0 <==> i < top;
    if ShiftOf(l + 1) < 64 {
      assert MaxIndex(ShiftOf(l)) == top - 1;
    } else {
      assert Trunc(top) == 0;
      assert top >= WORD by {
        BaseMonotone(l + 1, 0, 1);
        assert top > 0;
      }
    }
  }

  /** An index that reaches past `l` levels leaves room for one more level. */
  lemma ReachShift(i: nat, l: nat)
    requires i < WORD && Up(i, l) != 0
    ensures ShiftOf(l) <= 60
  {
    hide Up, Base, Shl;
    Covers(i, l, 1);
    BaseMonotone(l, 0, 1);
    ShlIsBase(1, l);
    PowerWraps(ShiftOf(l));
  }

  /** Some index of `s` lies below slot `k` of level `l`. */
  ghost predicate Any(s: iset<nat>, l: nat, k: nat)
  {
    exists i :: i in s && Up(i, l) == k
  }

  lemma AnyNot(s: iset<nat>, i: nat, l: nat)
    requires !Any(s, l, Up(i, l))
    ensures i !in s
  {
  }

  lemma AnyBottom(s: iset<nat>, k: nat)
    ensures Any(s, 0, k) <==> k in s
  {
    if k in s {
      assert Up(k, 0) == k;
    }
  }

  /** A node has a marked index below it exactly when one of its slots has. */
  lemma AnySlot(s: iset<nat>, l: nat, p: nat)
    ensures Any(s, l + 1, p) <==> exists o :: 0 <= o < CHUNK_SIZE && Any(s, l, Cat(p, o))
  {
    if Any(s, l + 1, p) {
      var i :| i in s && Up(i, l + 1) == p;
      UpStep(i, l);
      assert Any(s, l, Cat(p, Lo(Up(i, l))));
    }
    if o :| 0 <= o < CHUNK_SIZE && Any(s, l, Cat(p, o)) {
      var i :| i in s && Up(i, l) == Cat(p, o);
      HiLoCat(p, o);
      assert Up(i, l + 1) == p;
    }
  }

  lemma AnyUp(s: iset<nat>, l: nat, k: nat)
    requires Any(s, l, k)
    ensures Any(s, l + 1, Hi(k))
  {
    var i :| i in s && Up(i, l) == k;
    assert Up(i, l + 1) == Hi(k);
  }

  lemma AnyUpTo(s: iset<nat>, i: nat, l: nat, m: nat)
    requires l <= m && Any(s, l, Up(i, l))
    ensures Any(s, m, Up(i, m))
    decreases m - l
  {
    if l < m {
      AnyUp(s, l, Up(i, l));
      AnyUpTo(s, i, l + 1, m);
    }
  }

  /** Marking one index touches the slots it passes through and no other. */
  lemma AnyInsert(s: iset<nat>, i: nat, l: nat, k: nat)
    ensures Any(s + iset{i}, l, k) <==> Any(s, l, k) || Up(i, l) == k
  {
    if Any(s, l, k) {
      var j :| j in s && Up(j, l) == k;
      assert j in s + iset{i};
    }
    if Up(i, l) == k {
      assert i in s + iset{i};
    }
  }

  lemma AnyRemove(s: iset<nat>, i: nat, l: nat, k: nat)
    ensures Any(s - iset{i}, l, k) ==> Any(s, l, k)
    ensures Up(i, l) != k ==> (Any(s - iset{i}, l, k) <==> Any(s, l, k))
  {
    if Any(s, l, k) && Up(i, l) != k {
      var j :| j in s && Up(j, l) == k;
      assert j in s - iset{i};
    }
  }

  lemma {:induction false} BaseAdd(l: nat, a: nat, b: nat)
    ensures Base(l, a + b) == Base(l, a) + Base(l, b)
    decreases l
  {
    if l != 0 {
      assert Cat(a + b, 0) == Cat(a, 0) + Cat(b, 0);
      BaseAdd(l - 1, Cat(a, 0), Cat(b, 0));
    }
  }

  /** xas_move_index(): the index moves to slot `offset` of the node it is in. */
  function MoveIndex(index: nat, shift: nat, offset: nat): nat
  {
    Trunc(Shl(Shr(index, shift + CHUNK_SHIFT), shift + CHUNK_SHIFT) + Shl(offset, shift))
  }

  lemma MoveIsBase(index: nat, l: nat, offset: nat)
    ensures MoveIndex(index, ShiftOf(l), offset) == Trunc(Base(l, Cat(Up(index, l + 1), offset)))
  {
    var p := Up(index, l + 1);
    ShrIsUp(index, l + 1);
    ShlIsBase(p, l + 1);
    ShlIsBase(offset, l);
    BaseStep(l, p);
    BaseAdd(l, Cat(p, 0), offset);
    assert Cat(p, 0) + offset == Cat(p, offset);
  }

  /** Every index up to the next slot passes through this one. */
  lemma SlotRange(i: nat, l: nat, k: nat)
    ensures Base(l, k) <= i < Base(l, k + 1) <==> Up(i, l) == k
    ensures Base(l, k) < Base(l, k + 1)
  {
    Covers(i, l, k);
    BaseMonotone(l, k, k + 1);
  }

  /** Past the last slot of a node comes the slot after the node. */
  lemma ClimbPlace(l: nat, p: nat)
    ensures Base(l, Cat(p, CHUNK_SIZE)) == Base(l + 1, Cat(Hi(p), Lo(p) + 1))
  {
    BaseStep(l, p);
    CatHiLo(p);
  }

  /** Moving on by one slot. */
  lemma NextPlace(l: nat, p: nat, o: nat)
    requires o < CHUNK_SIZE
    ensures Base(l, Cat(p, o + 1)) == Base(l, Cat(p, o) + 1) && Base(l, Cat(p, o)) < Base(l, Cat(p, o + 1))
    ensures Base(l, Cat(p, o + 1)) <= Base(l + 1, p + 1)
  {
    BaseMonotone(l, Cat(p, o), Cat(p, o + 1));
    BaseMonotone(l, Cat(p, o + 1), Cat(p, CHUNK_SIZE));
    BaseStep(l, p);
  }

  lemma FirstPlace(l: nat, k: nat)
    requires l > 0
    ensures Base(l - 1, Cat(k, 0)) == Base(l, k)
  {
  }

  /** In a slot of node `p` at level `l`, an index below the word size is on the path of that node. */
  lemma PlacePath(l: nat, p: nat, o: nat)
    requires o < CHUNK_SIZE
    ensures Up(Base(l, Cat(p, o)), l) == Cat(p, o) && Up(Base(l, Cat(p, o)), l + 1) == p
  {
    UpBase(l, Cat(p, o));
    HiLoCat(p, o);
  }

  /** A slot within reach of slot 0 of a higher level ends within it. */
  lemma {:induction false} NestedEnd(l: nat, k: nat, h: nat)
    requires l <= h && Up(Base(l, k), h) == 0
    ensures Base(l, k + 1) <= Base(h, 1)
    decreases h - l
  {
    if l < h {
      UpBase(l, k);
      var up := Hi(k);
      BaseStep(l, up);
      BaseMonotone(l, k + 1, Cat(up + 1, 0));
      UpBase(l + 1, up);
      SameHigh(Base(l, k), Base(l + 1, up), l + 1, h);
      NestedEnd(l + 1, up, h);
    } else {
      UpBase(l, k);
    }
  }

  lemma SameHigh(i: nat, j: nat, l: nat, m: nat)
    requires Up(i, l) == Up(j, l) && l <= m
    ensures Up(i, m) == Up(j, m)
    decreases m - l
  {
    if l < m {
      assert Up(i, l + 1) == Up(j, l + 1);
      SameHigh(i, j, l + 1, m);
    }
  }

  lemma BigPlace(l: nat, p: nat, o: nat)
    requires o < CHUNK_SIZE && Base(l, Cat(p, o)) >= WORD
    ensures Base(l, Cat(p, o + 1)) >= WORD
  {
    NextPlace(l, p, o);
  }

  /** The word size is the base of a slot at every level of a tree of unsigned longs. */
  lemma WordSlot(l: nat)
    requires ShiftOf(l) <= 64
    ensures Base(l, Up(WORD, l)) == WORD
  {
    var k := Shl(1, 64 - ShiftOf(l));
    WordShift();
    ShlSum(1, 64 - ShiftOf(l), ShiftOf(l));
    ShlIsBase(k, l);
    UpBase(l, k);
  }

  /** The end of a node that is not all within the word wraps to 0. */
  lemma WrappedEnd(i: nat, l: nat)
    requires i < WORD <= Base(l, Up(i, l) + 1)
    ensures Trunc(Base(l, Up(i, l) + 1)) == 0
  {
    hide Base, Up, Shl;
    var p := Up(i, l);
    if ShiftOf(l) <= 64 {
      WordSlot(l);
      Covers(WORD, l, p + 1);
      Covers(i, l, Up(WORD, l));
      Covers(WORD, l, p + 2);
      BaseMonotone(l, p + 1, p + 2);
    } else {
      ShlIsBase(1, l);
      PowerWraps(ShiftOf(l));
      BigPower(ShiftOf(l));
      Covers(i, l, 1);
    }
  }

  lemma {:induction false} BigPower(s: nat)
    requires s >= 64
    ensures Shl(1, s) >= WORD
  {
    WordShift();
    if s > 64 {
      BigPower(s - 1);
    }
  }
}
