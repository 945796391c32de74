/**
 What the two sides of the mailbox have in common: descriptors, and slots counted around the ring.
 */
module CtlqRings {
  import opened Numbers

  datatype Flags = Flags(dd: bool, err: bool, source: nat, buf: bool, rd: bool, hostId: bv16)

  datatype Params = Params(word0: nat, word1: nat, word2: nat, word3: nat)

  /** One descriptor. The third word is the function id on the way out and the return value on the way back. */
  datatype Desc =
    Desc(flags: Flags, opcode: nat, dataLen: bv16, ret: nat, cookieHigh: nat, cookieLow: nat, params: Params)

  const NO_FLAGS: Flags := Flags(false, false, 0, false, false, 0)
  const ZEROED: Desc := Desc(NO_FLAGS, 0, 0, 0, 0, 0, Params(0, 0, 0, 0))

  datatype Status = Success | NoSpace | BadMessage | BadRequest | NoMessage

  /** Slot `k` places after slot `i` of the ring. */
  function After(size: nat, i: nat, k: nat): nat
  {
    if i + k >= size then i + k - size else i + k
  }

  /** Slots are counted modulo the size of the ring. */
  lemma AfterExact(size: nat, i: nat, k: nat)
    requires i < size && k <= size
    ensures After(size, i, k) == (i + k) % size
  {
    if i + k >= size {
      ModUnique(i + k, size, 1, i + k - size);
    } else {
      ModUnique(i + k, size, 0, i + k);
    }
  }

  /** How many places slot `i` is after slot `from`. */
  function Ahead(size: nat, from: nat, i: nat): (k: int)
  {
    if i >= from then i - from else i + size - from
  }

  lemma AheadExact(size: nat, from: nat, i: nat)
    requires from < size && i < size
    ensures 0 <= Ahead(size, from, i) < size && After(size, from, Ahead(size, from, i)) == i
    ensures i == (from + Ahead(size, from, i)) % size
  {
    AfterExact(size, from, Ahead(size, from, i));
  }

  /** Every slot is so many places after a given one. */
  lemma Places(size: nat, from: nat, i: nat) returns (k: nat)
    requires i < size && from < size
    ensures k < size && After(size, from, k) == i
  {
    k := if i >= from then i - from else i + size - from;
  }

  /** From `i` places after `from` on, the ring is as it was. */
  ghost predicate Rest<T>(a0: seq<T>, a: seq<T>, size: nat, from: nat, i: nat)
  {
    && |a0| == |a| == size && from < size
    && forall k :: i <= k < size ==> a[After(size, from, k)] == a0[After(size, from, k)]
  }

  lemma RestAll<T>(a: seq<T>, size: nat, from: nat)
    requires |a| == size && from < size
    ensures Rest(a, a, size, from, 0)
  {
  }

  lemma RestHere<T>(a0: seq<T>, a: seq<T>, size: nat, from: nat, i: nat)
    requires Rest(a0, a, size, from, i) && i < size
    ensures After(size, from, i) < size && a[After(size, from, i)] == a0[After(size, from, i)]
  {
  }

  lemma RestStep<T>(a0: seq<T>, a: seq<T>, size: nat, from: nat, i: nat, x: T)
    requires Rest(a0, a, size, from, i) && i < size
    ensures Rest(a0, a[After(size, from, i) := x], size, from, i + 1)
  {
  }

  /** The first `n` descriptors from `from` on have been zeroed. */
  ghost predicate Cleared(d: seq<Desc>, size: nat, from: nat, n: nat)
  {
    && |d| == size && from < size && n <= size
    && forall k :: 0 <= k < n ==> d[After(size, from, k)] == ZEROED
  }

  lemma ClearedNone(d: seq<Desc>, size: nat, from: nat)
    requires |d| == size && from < size
    ensures Cleared(d, size, from, 0)
  {
  }

  lemma ClearedStep(d: seq<Desc>, size: nat, from: nat, n: nat)
    requires Cleared(d, size, from, n) && n < size && After(size, from, n) < size
    ensures Cleared(d[After(size, from, n) := ZEROED], size, from, n + 1)
  {
  }

  /** Clearing, said of the slots by their numbers: the `n` slots from `from` on are zero and the others as they were.
      */
  lemma ClearedMeans(d0: seq<Desc>, d: seq<Desc>, size: nat, from: nat, n: nat)
    requires Cleared(d, size, from, n) && Rest(d0, d, size, from, n)
    ensures forall i :: 0 <= i < size ==>
      d[i] == if Ahead(size, from, i) < n
              then Desc(Flags(false, false, 0, false, false, 0), 0, 0, 0, 0, 0, Params(0, 0, 0, 0)) else d0[i]
  {
    forall i | 0 <= i < size
      ensures d[i] == if Ahead(size, from, i) < n then ZEROED else d0[i]
    {
      assert After(size, from, Ahead(size, from, i)) == i;
    }
  }
}
