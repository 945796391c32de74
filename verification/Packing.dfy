/**
  Fields of arbitrary width and position in a byte buffer, under three layout quirks.  A word is the sequence of its
  bits, least significant first, and the C operators on words work bit by bit.
 */
module Packing {
  import opened Numbers

  // The C operators

  type Word = seq<bool>

  type Byte = w: Word | |w| == 8 witness seq(8, _ => false)

  function And(a: Word, b: Word): (r: Word)
    requires |a| == |b|
  {
    seq(|a|, i requires 0 <= i < |a| => a[i] && b[i])
  }

  function Or(a: Word, b: Word): (r: Word)
    requires |a| == |b|
  {
    seq(|a|, i requires 0 <= i < |a| => a[i] || b[i])
  }

  function Not(a: Word): (r: Word) { seq(|a|, i requires 0 <= i < |a| => !a[i]) }

  function ShiftRight(a: Word, n: nat): (r: Word) { seq(|a|, i requires 0 <= i < |a| => i + n < |a| && a[i + n]) }

  function ShiftLeft(a: Word, n: nat): (r: Word) { seq(|a|, i requires 0 <= i < |a| => i >= n && a[i - n]) }

  /** GENMASK(): bits `lo` to `hi` set. */
  function GenMask(width: nat, hi: nat, lo: nat): (r: Word) { seq(width, i requires 0 <= i < width => lo <= i <= hi) }

  /** bitrev8() */
  function BitRev(a: Byte): (r: Byte) { seq(8, i requires 0 <= i < 8 => a[7 - i]) }

  /** The conversion to u8. */
  function ToByte(a: Word): (r: Byte)
    requires |a| >= 8
  {
    a[..8]
  }

  // The layout of the buffer

  datatype Quirks = Quirks(msbRight: bool, littleEndian: bool, lsw32First: bool)

  function Smaller(a: int, b: int): int { if a < b then a else b }

  /** calculate_box_addr(): where octet `box` of the big number is in the buffer. */
  function BoxAddr(box: nat, len: nat, q: Quirks): int
  {
    var group := box / 4;
    var groupOffset := if q.lsw32First then group * 4 else len - (group + 1) * 4;
    var groupSize := Smaller(4, len - groupOffset);
    groupOffset + if q.littleEndian then box - group * 4 else groupSize - (box - group * 4) - 1
  }

  /** The layouts calculate_box_addr() gets right. */
  predicate Regular(len: nat, q: Quirks)
  {
    q.littleEndian && !q.lsw32First ==> len % 4 == 0
  }

  /** In a regular layout the octets are permuted, and the permutation is its own inverse. */
  lemma BoxAddrInverse(box: nat, len: nat, q: Quirks)
    requires Regular(len, q) && box < len
    ensures 0 <= BoxAddr(box, len, q) < len && BoxAddr(BoxAddr(box, len, q), len, q) == box
  {
    var g, o, m := box / 4, box % 4, len / 4;
    assert box == 4 * g + o && g <= m;
    if q.littleEndian && !q.lsw32First {
      assert len == 4 * m && BoxAddr(box, len, q) == 4 * (m - g - 1) + o;
      assert (4 * (m - g - 1) + o) / 4 == m - g - 1;
    } else if !q.littleEndian && q.lsw32First {
      var size := Smaller(4, len - 4 * g);
      assert BoxAddr(box, len, q) == 4 * g + (size - o - 1) && 0 <= size - o - 1 < 4;
      assert (4 * g + (size - o - 1)) / 4 == g;
    }
  }

  /** The layout is a permutation of the buffer if and only if it is regular. */
  lemma BoxAddrExact(len: nat, q: Quirks)
    ensures Regular(len, q) <==>
      (forall box: nat :: box < len ==> 0 <= BoxAddr(box, len, q) < len) &&
      (forall a: nat, b: nat :: a < b < len ==> BoxAddr(a, len, q) != BoxAddr(b, len, q))
  {
    if Regular(len, q) {
      forall box: nat | box < len
        ensures 0 <= BoxAddr(box, len, q) < len
      {
        BoxAddrInverse(box, len, q);
      }
      forall a: nat, b: nat | a < b < len
        ensures BoxAddr(a, len, q) != BoxAddr(b, len, q)
      {
        BoxAddrInverse(a, len, q);
        BoxAddrInverse(b, len, q);
      }
    } else {
      var box := 4 * (len / 4);
      assert box / 4 == len / 4 && box < len;
      assert BoxAddr(box, len, q) == len % 4 - 4;
    }
  }

  /** The octet has a place in the buffer. */
  predicate Inside(box: nat, len: nat, q: Quirks)
  {
    box < len && BoxAddr(box, len, q) >= 0
  }

  /** In an irregular layout the short group at the top loses its first octets: all of them, or the first of three. */
  lemma InsideExact(box: nat, len: nat, q: Quirks)
    requires box < len
    ensures Inside(box, len, q) <==> Regular(len, q) || box < 4 * (len / 4) || (len % 4 == 3 && box % 4 != 0)
  {
    if Regular(len, q) {
      BoxAddrInverse(box, len, q);
    } else {
      assert BoxAddr(box, len, q) == len - 4 * (box / 4 + 1) + box % 4;
    }
  }

  /** Octets that have a place have different ones. */
  lemma InsideApart(a: nat, b: nat, len: nat, q: Quirks)
    requires Inside(a, len, q) && Inside(b, len, q)
    ensures BoxAddr(a, len, q) < len && (BoxAddr(a, len, q) == BoxAddr(b, len, q) ==> a == b)
  {
    if Regular(len, q) {
      BoxAddrInverse(a, len, q);
      BoxAddrInverse(b, len, q);
    } else {
      assert BoxAddr(a, len, q) == len - 4 * (a / 4 + 1) + a % 4;
      assert BoxAddr(b, len, q) == len - 4 * (b / 4 + 1) + b % 4;
    }
  }

  /** All octets of the field have a place. */
  ghost predicate Placed(len: nat, hi: nat, lo: nat, q: Quirks)
  {
    lo <= hi < 8 * len && forall box: nat :: lo / 8 <= box <= hi / 8 ==> Inside(box, len, q)
  }

  lemma RegularPlaced(len: nat, hi: nat, lo: nat, q: Quirks)
    requires Regular(len, q) && lo <= hi < 8 * len
    ensures Placed(len, hi, lo, q)
  {
    forall box: nat | lo / 8 <= box <= hi / 8
      ensures Inside(box, len, q)
    {
      BoxAddrInverse(box, len, q);
    }
  }

  /** Where logical bit `i` of its octet is in the byte. */
  function InByte(i: nat, q: Quirks): (b: nat)
    requires i < 8
    ensures b < 8
  {
    if q.msbRight then 7 - i else i
  }

  /** Logical bit `i` of the buffer, if its octet has a place. */
  predicate Bit(buf: seq<Byte>, i: nat, q: Quirks)
  {
    Inside(i / 8, |buf|, q) &&
    (InsideApart(i / 8, i / 8, |buf|, q); buf[BoxAddr(i / 8, |buf|, q)][InByte(i % 8, q)])
  }

  /** Which byte of the buffer holds an octet.  Without quirks the most significant octet comes first, with both
      ordering quirks the least significant one does.  With one of them only, either the groups of four octets go up
      and the octets in each go down, the last group being as short as it is, or the other way round. */
  lemma BoxAddrPlain(box: nat, len: nat, q: Quirks)
    requires box < len
    ensures !q.littleEndian && !q.lsw32First ==> BoxAddr(box, len, q) == len - 1 - box
    ensures q.littleEndian && q.lsw32First ==> BoxAddr(box, len, q) == box
    ensures !q.littleEndian && q.lsw32First ==>
      BoxAddr(box, len, q) == if box < 4 * (len / 4) then 4 * (box / 4) + 3 - box % 4 else len - 1 - box % 4
    ensures q.littleEndian && !q.lsw32First ==> BoxAddr(box, len, q) == len - 4 * (box / 4) - 4 + box % 4
  {
    assert box == 4 * (box / 4) + box % 4;
  }

  /** Which bit of the buffer logical bit `i` is. */
  lemma BitPlace(buf: seq<Byte>, i: nat, q: Quirks)
    requires i < 8 * |buf|
    ensures !q.littleEndian && !q.lsw32First ==>
      Bit(buf, i, q) == buf[|buf| - 1 - i / 8][if q.msbRight then 7 - i % 8 else i % 8]
    ensures q.littleEndian && q.lsw32First ==> Bit(buf, i, q) == buf[i / 8][if q.msbRight then 7 - i % 8 else i % 8]
    ensures !q.littleEndian && q.lsw32First && i < 32 * (|buf| / 4) ==>
      Bit(buf, i, q) == buf[4 * (i / 32) + 3 - (i / 8) % 4][if q.msbRight then 7 - i % 8 else i % 8]
    ensures !q.littleEndian && q.lsw32First && i >= 32 * (|buf| / 4) ==>
      Bit(buf, i, q) == buf[|buf| - 1 - (i / 8) % 4][if q.msbRight then 7 - i % 8 else i % 8]
    ensures q.littleEndian && !q.lsw32First && i < 32 * (|buf| / 4) ==>
      Bit(buf, i, q) == buf[|buf| - 4 * (i / 32) - 4 + (i / 8) % 4][if q.msbRight then 7 - i % 8 else i % 8]
  {
    hide BoxAddr;
    var box := i / 8;
    assert box / 4 == i / 32;
    BoxAddrPlain(box, |buf|, q);
  }

  /** The byte is the place of some octet. */
  ghost predicate Reached(len: nat, x: nat, q: Quirks)
  {
    exists box: nat :: Inside(box, len, q) && BoxAddr(box, len, q) == x
  }

  /** Only logical bits up to `hi` and from `lo` on may differ between the buffers, and there the word `v` is stored. */
  ghost predicate Stored(before: seq<Byte>, after: seq<Byte>, v: Word, hi: nat, lo: nat, from: nat, q: Quirks)
    requires |before| == |after| && lo <= hi < 8 * |before| && hi - lo < 64 == |v|
  {
    && (forall i: nat :: i < 8 * |before| ==>
          Bit(after, i, q) == if lo <= i <= hi && from <= i then v[i - lo] else Bit(before, i, q))
    && forall x: nat :: x < |before| && !Reached(|before|, x, q) ==> after[x] == before[x]
  }

  /** The word in the field, with zeroes above it. */
  function Unpacked(buf: seq<Byte>, hi: nat, lo: nat, q: Quirks): (v: Word)
    requires lo <= hi < 8 * |buf| && hi - lo < 64
  {
    seq(64, k requires 0 <= k < 64 => k <= hi - lo && Bit(buf, lo + k, q))
  }

  /** One octet after the assignments in __pack(). */
  function PackOctet(b: Byte, v: Word, proj: nat, hi: nat, lo: nat, q: Quirks): (r: Byte)
    requires |v| == 64 && lo <= hi < 8 && proj + (hi - lo) < 64
  {
    var projMask := GenMask(64, proj + (hi - lo), proj);
    var pval := ShiftLeft(ShiftRight(And(v, projMask), proj), lo);
    var mask: Byte := ToByte(GenMask(64, hi, lo));
    var bits := if q.msbRight then BitRev(ToByte(pval)) else ToByte(pval);
    var boxMask := if q.msbRight then BitRev(mask) else mask;
    Or(And(b, Not(boxMask)), bits)
  }

  lemma PackOctetBit(b: Byte, v: Word, proj: nat, hi: nat, lo: nat, q: Quirks, j: nat)
    requires |v| == 64 && lo <= hi < 8 && proj + (hi - lo) < 64 && j < 8
    ensures PackOctet(b, v, proj, hi, lo, q)[InByte(j, q)] ==
        if lo <= j <= hi then v[proj + (j - lo)] else b[InByte(j, q)]
  {
    var projMask := GenMask(64, proj + (hi - lo), proj);
    var masked := And(v, projMask);
    var pval := ShiftLeft(ShiftRight(masked, proj), lo);
    assert pval[j] == (j >= lo && j - lo + proj < 64 && masked[j - lo + proj]);
  }

  /** The part of octet `box` that belongs to the field. */
  function BoxHi(box: nat, hi: nat): nat { if box == hi / 8 then hi % 8 else 7 }

  function BoxLo(box: nat, lo: nat): nat { if box == lo / 8 then lo % 8 else 0 }

  lemma BoxRange(box: nat, hi: nat, lo: nat, i: nat)
    requires lo <= hi && lo / 8 <= box <= hi / 8 && i / 8 == box
    ensures BoxLo(box, lo) <= BoxHi(box, hi) < 8 && 8 * box + BoxLo(box, lo) >= lo && 8 * box + BoxHi(box, hi) <= hi
    ensures lo <= i <= hi <==> BoxLo(box, lo) <= i % 8 <= BoxHi(box, hi)
  {
  }

  /** One round of the loop in __pack() stores the bits of one octet. */
  lemma PackStep(before: seq<Byte>, cur: seq<Byte>, v: Word, hi: nat, lo: nat, box: nat, q: Quirks)
    requires Placed(|before|, hi, lo, q) && |before| == |cur| && hi - lo < 64 == |v|
    requires lo / 8 <= box <= hi / 8 && Stored(before, cur, v, hi, lo, 8 * (box + 1), q)
    ensures 0 <= BoxAddr(box, |cur|, q) < |cur|
    ensures BoxLo(box, lo) <= BoxHi(box, hi) < 8 && 8 * box + BoxLo(box, lo) >= lo
    ensures 8 * box + BoxHi(box, hi) - lo < 64
    ensures var a := BoxAddr(box, |cur|, q);
      var octet := PackOctet(cur[a], v, 8 * box + BoxLo(box, lo) - lo, BoxHi(box, hi), BoxLo(box, lo), q);
      Stored(before, cur[a := octet], v, hi, lo, 8 * box, q)
  {
    hide BoxAddr, PackOctet, Inside;
    BoxRange(box, hi, lo, 8 * box);
    InsideApart(box, box, |cur|, q);
    InsideAddr(box, |cur|, q);
    var a := BoxAddr(box, |cur|, q);
    var octet := PackOctet(cur[a], v, 8 * box + BoxLo(box, lo) - lo, BoxHi(box, hi), BoxLo(box, lo), q);
    var after := cur[a := octet];
    forall i: nat | i < 8 * |before|
      ensures Bit(after, i, q) == if lo <= i <= hi && 8 * box <= i then v[i - lo] else Bit(before, i, q)
    {
      if i / 8 == box {
        BoxRange(box, hi, lo, i);
        PackOctetBit(cur[a], v, 8 * box + BoxLo(box, lo) - lo, BoxHi(box, hi), BoxLo(box, lo), q, i % 8);
        assert Bit(cur, i, q) == Bit(before, i, q);
      } else {
        if Inside(i / 8, |cur|, q) {
          InsideApart(i / 8, box, |cur|, q);
          InsideAddr(i / 8, |cur|, q);
        }
        assert Bit(after, i, q) == Bit(cur, i, q);
      }
    }
    assert Reached(|before|, a, q);
  }

  lemma InsideAddr(box: nat, len: nat, q: Quirks)
    requires Inside(box, len, q)
    ensures BoxAddr(box, len, q) >= 0
  {
  }

  /** __pack() */
  method PackBits(buf: array<Byte>, v: Word, hi: nat, lo: nat, q: Quirks)
    requires Placed(buf.Length, hi, lo, q) && hi - lo < 64 == |v|
    modifies buf
    ensures Stored(old(buf[..]), buf[..], v, hi, lo, 0, q)
  {
    hide Stored, BoxAddr, PackOctet, BoxHi, BoxLo, Inside;
    ghost var before := buf[..];
    var first, last := hi / 8, lo / 8;
    var box: int := first;
    StoredStart(before, v, hi, lo, 8 * (first + 1), q);
    while box >= last
      invariant last - 1 <= box <= first && Stored(before, buf[..], v, hi, lo, 8 * (box + 1), q)
    {
      PackStep(before, buf[..], v, hi, lo, box, q);
      var boxHi, boxLo := BoxHi(box, hi), BoxLo(box, lo);
      var addr := BoxAddr(box, buf.Length, q);
      ghost var cur := buf[..];
      buf[addr] := PackOctet(buf[addr], v, 8 * box + boxLo - lo, boxHi, boxLo, q);
      assert buf[..] == cur[addr := buf[addr]];
      box := box - 1;
    }
    StoredEnd(before, buf[..], v, hi, lo, 8 * last, q);
  }

  lemma StoredStart(buf: seq<Byte>, v: Word, hi: nat, lo: nat, from: nat, q: Quirks)
    requires lo <= hi < 8 * |buf| && hi - lo < 64 == |v| && from > hi
    ensures Stored(buf, buf, v, hi, lo, from, q)
  {
  }

  lemma StoredEnd(before: seq<Byte>, after: seq<Byte>, v: Word, hi: nat, lo: nat, from: nat, q: Quirks)
    requires |before| == |after| && lo <= hi < 8 * |before| && hi - lo < 64 == |v|
    requires Stored(before, after, v, hi, lo, from, q) && from <= lo
    ensures Stored(before, after, v, hi, lo, 0, q)
  {
    hide Bit;
  }

  /** The word after one round of the loop in __unpack(). */
  function UnpackOctet(v: Word, b: Byte, proj: nat, hi: nat, lo: nat, q: Quirks): (r: Word)
    requires |v| == 64 && lo <= hi < 8 && proj + (hi - lo) < 64
    ensures |r| == 64
  {
    var projMask := GenMask(64, proj + (hi - lo), proj);
    var octet := if q.msbRight then BitRev(b) else b;
    var wide: Word := And(octet, ToByte(GenMask(64, hi, lo))) + seq(56, _ => false);
    var pval := ShiftLeft(ShiftRight(wide, lo), proj);
    Or(And(v, Not(projMask)), pval)
  }

  lemma UnpackOctetBit(v: Word, b: Byte, proj: nat, hi: nat, lo: nat, q: Quirks, k: nat)
    requires |v| == 64 && lo <= hi < 8 && proj + (hi - lo) < 64 && k < 64
    ensures UnpackOctet(v, b, proj, hi, lo, q)[k] ==
            if proj <= k <= proj + (hi - lo) then b[InByte(lo + (k - proj), q)] else v[k]
  {
    var octet := if q.msbRight then BitRev(b) else b;
    var wide: Word := And(octet, ToByte(GenMask(64, hi, lo))) + seq(56, _ => false);
    assert ShiftLeft(ShiftRight(wide, lo), proj)[k] == (k >= proj && k - proj + lo < 64 && wide[k - proj + lo]);
    if proj <= k && k - proj + lo < 8 {
      assert wide[k - proj + lo] == (octet[k - proj + lo] && lo <= k - proj + lo <= hi);
    }
  }

  /** The bits of the field from octet `box` on have been read. */
  ghost predicate Reading(buf: seq<Byte>, v: Word, hi: nat, lo: nat, box: int, q: Quirks)
    requires lo <= hi < 8 * |buf| && hi - lo < 64
  {
    |v| == 64 && forall k: nat :: k < 64 ==> v[k] == (k <= hi - lo && lo + k >= 8 * box && Bit(buf, lo + k, q))
  }

  lemma UnpackStep(buf: seq<Byte>, v: Word, hi: nat, lo: nat, box: nat, q: Quirks)
    requires Placed(|buf|, hi, lo, q) && hi - lo < 64
    requires lo / 8 <= box <= hi / 8 && Reading(buf, v, hi, lo, box + 1, q)
    ensures 0 <= BoxAddr(box, |buf|, q) < |buf|
    ensures BoxLo(box, lo) <= BoxHi(box, hi) < 8 && 8 * box + BoxLo(box, lo) >= lo
    ensures 8 * box + BoxHi(box, hi) - lo < 64
    ensures Reading(buf, UnpackOctet(v, buf[BoxAddr(box, |buf|, q)], 8 * box + BoxLo(box, lo) - lo, BoxHi(box, hi),
                                     BoxLo(box, lo), q), hi, lo, box, q)
  {
    hide BoxAddr, UnpackOctet, Inside;
    BoxRange(box, hi, lo, 8 * box);
    InsideApart(box, box, |buf|, q);
    InsideAddr(box, |buf|, q);
    var b := buf[BoxAddr(box, |buf|, q)];
    var w := UnpackOctet(v, b, 8 * box + BoxLo(box, lo) - lo, BoxHi(box, hi), BoxLo(box, lo), q);
    forall k: nat | k < 64
      ensures w[k] == (k <= hi - lo && lo + k >= 8 * box && Bit(buf, lo + k, q))
    {
      UnpackOctetBit(v, b, 8 * box + BoxLo(box, lo) - lo, BoxHi(box, hi), BoxLo(box, lo), q, k);
      if (lo + k) / 8 == box {
        BoxRange(box, hi, lo, lo + k);
      }
    }
  }

  /** __unpack() */
  method UnpackBits(buf: array<Byte>, hi: nat, lo: nat, q: Quirks) returns (v: Word)
    requires Placed(buf.Length, hi, lo, q) && hi - lo < 64
    ensures v == Unpacked(buf[..], hi, lo, q)
  {
    hide BoxAddr, UnpackOctet, BoxHi, BoxLo, Inside, Bit;
    v := seq(64, _ => false);
    var first, last := hi / 8, lo / 8;
    var box: int := first;
    while box >= last
      invariant last - 1 <= box <= first && Reading(buf[..], v, hi, lo, box + 1, q)
    {
      UnpackStep(buf[..], v, hi, lo, box, q);
      var boxHi, boxLo := BoxHi(box, hi), BoxLo(box, lo);
      var addr := BoxAddr(box, buf.Length, q);
      v := UnpackOctet(v, buf[addr], 8 * box + boxLo - lo, boxHi, boxLo, q);
      box := box - 1;
    }
  }

  datatype Status = Success | InvalidArgument | OutOfRange

  /** pack() */
  method Pack(buf: array<Byte>, v: Word, hi: nat, lo: nat, q: Quirks) returns (r: Status)
    requires |v| == 64 && (lo <= hi < 8 * buf.Length && hi - lo < 64 ==> Placed(buf.Length, hi, lo, q))
    modifies buf
    ensures r == if hi < lo || hi >= 8 * buf.Length then InvalidArgument
                 else if hi - lo >= 64 then OutOfRange else Success
    ensures r == Success ==> Stored(old(buf[..]), buf[..], v, hi, lo, 0, q)
    ensures r != Success ==> buf[..] == old(buf[..])
  {
    if hi < lo || hi >= 8 * buf.Length {
      return InvalidArgument;
    }
    if hi - lo >= 64 {
      return OutOfRange;
    }
    PackBits(buf, v, hi, lo, q);
    return Success;
  }

  /** unpack(); without success the caller's word is left as it was. */
  method Unpack(buf: array<Byte>, was: Word, hi: nat, lo: nat, q: Quirks) returns (r: Status, v: Word)
    requires lo <= hi < 8 * buf.Length && hi - lo < 64 ==> Placed(buf.Length, hi, lo, q)
    ensures r == if hi < lo || hi >= 8 * buf.Length then InvalidArgument
                 else if hi - lo >= 64 then OutOfRange else Success
    ensures v == if r == Success then Unpacked(buf[..], hi, lo, q) else was
  {
    if hi < lo || hi >= 8 * buf.Length {
      return InvalidArgument, was;
    }
    var width := hi - lo + 1;
    if width > 64 {
      return OutOfRange, was;
    }
    v := UnpackBits(buf, hi, lo, q);
    return Success, v;
  }

  // Round trips

  /** The number a word stands for. */
  function ValueOf(v: Word): nat
  {
    if v == [] then 0 else 2 * ValueOf(v[1..]) + if v[0] then 1 else 0
  }

  /** The word with the bits from `n` on cleared. */
  function Low(v: Word, n: nat): (r: Word)
    ensures |r| == |v| && forall k :: 0 <= k < |v| ==> r[k] == (k < n && v[k])
  {
    if v == [] then [] else [n > 0 && v[0]] + Low(v[1..], if n > 0 then n - 1 else 0)
  }

  /** Clearing the bits from `n` on is the remainder by 2^n. */
  lemma {:induction false} LowBits(v: Word, n: nat)
    ensures ValueOf(Low(v, n)) == ValueOf(v) % Pow2(n)
  {
    if v != [] {
      assert Low(v, n)[1..] == Low(v[1..], if n > 0 then n - 1 else 0);
      if n == 0 {
        LowBits(v[1..], 0);
      } else {
        LowBits(v[1..], n - 1);
        HalfMod(ValueOf(v[1..]), if v[0] then 1 else 0, Pow2(n - 1));
      }
    }
  }

  /** The number that a buffer lists from its most significant octet on. */
  function BigEndian(buf: seq<Byte>): nat
  {
    if buf == [] then 0 else 256 * BigEndian(buf[..|buf| - 1]) + ValueOf(buf[|buf| - 1])
  }

  /** The number that a buffer lists from its least significant octet on. */
  function LittleEndian(buf: seq<Byte>): nat
  {
    if buf == [] then 0 else ValueOf(buf[0]) + 256 * LittleEndian(buf[1..])
  }

  lemma {:induction false} ZeroValue(v: Word)
    requires forall k :: 0 <= k < |v| ==> !v[k]
    ensures ValueOf(v) == 0
  {
    if v != [] {
      ZeroValue(v[1..]);
    }
  }

  /** An octet below a word. */
  lemma ValueJoin(b: Byte, v: Word)
    ensures ValueOf(b + v) == ValueOf(b) + 256 * ValueOf(v)
  {
    assert (b + v)[1..][1..][1..][1..] == b[4..] + v;
    FourBits(b + v);
    FourBits(b[4..] + v);
    assert (b[4..] + v)[4..] == v;
    FourBits(b);
    FourBits(b[4..]);
    assert b[4..][4..] == [];
  }

  lemma FourBits(v: Word)
    requires |v| >= 4
    ensures ValueOf(v) == 16 * ValueOf(v[4..]) + (if v[0] then 1 else 0) + (if v[1] then 2 else 0)
                          + (if v[2] then 4 else 0) + if v[3] then 8 else 0
  {
    assert v[1..][1..] == v[2..] && v[2..][1..] == v[3..] && v[3..][1..] == v[4..];
  }

  lemma {:induction false} WordLittle(buf: seq<Byte>, v: Word)
    requires |v| >= 8 * |buf|
    requires forall k: nat :: k < |v| ==> v[k] == (k < 8 * |buf| && buf[k / 8][k % 8])
    ensures ValueOf(v) == LittleEndian(buf)
  {
    if buf == [] {
      ZeroValue(v);
    } else {
      var b: Byte := v[..8];
      assert b == buf[0] && v == b + v[8..];
      forall k: nat | k < |v[8..]|
        ensures v[8..][k] == (k < 8 * |buf[1..]| && buf[1..][k / 8][k % 8])
      {
        assert v[8..][k] == v[k + 8] && (k + 8) / 8 == k / 8 + 1 && (k + 8) % 8 == k % 8;
      }
      WordLittle(buf[1..], v[8..]);
      ValueJoin(b, v[8..]);
    }
  }

  lemma {:induction false} WordBig(buf: seq<Byte>, v: Word)
    requires |v| >= 8 * |buf|
    requires forall k: nat :: k < |v| ==> v[k] == (k < 8 * |buf| && buf[|buf| - 1 - k / 8][k % 8])
    ensures ValueOf(v) == BigEndian(buf)
  {
    if buf == [] {
      ZeroValue(v);
    } else {
      var b: Byte, rest := v[..8], buf[..|buf| - 1];
      assert b == buf[|buf| - 1] && v == b + v[8..];
      forall k: nat | k < |v[8..]|
        ensures v[8..][k] == (k < 8 * |rest| && rest[|rest| - 1 - k / 8][k % 8])
      {
        assert v[8..][k] == v[k + 8] && (k + 8) / 8 == k / 8 + 1 && (k + 8) % 8 == k % 8;
      }
      WordBig(rest, v[8..]);
      ValueJoin(b, v[8..]);
    }
  }

  /** Zeroes at the upper end do not count. */
  lemma {:induction false} SameValue(v: Word, w: Word)
    requires forall k: nat :: (k < |v| && v[k]) == (k < |w| && w[k])
    ensures ValueOf(v) == ValueOf(w)
    decreases |v| + |w|
  {
    if v == [] || w == [] {
      ZeroValue(v);
      ZeroValue(w);
    } else {
      assert v[0] == w[0];
      forall k: nat
        ensures (k < |v[1..]| && v[1..][k]) == (k < |w[1..]| && w[1..][k])
      {
        assert (k + 1 < |v| && v[k + 1]) == (k + 1 < |w| && w[k + 1]);
      }
      SameValue(v[1..], w[1..]);
    }
  }

  /** Dropping the lowest bits is a division. */
  lemma {:induction false} DropValue(v: Word, n: nat)
    requires n <= |v|
    ensures ValueOf(v[n..]) == ValueOf(v) / Pow2(n)
  {
    if n == 0 {
      assert v[0..] == v;
    } else {
      assert v[1..][n - 1..] == v[n..];
      DropValue(v[1..], n - 1);
      HalfDiv(ValueOf(v[1..]), if v[0] then 1 else 0, Pow2(n - 1));
    }
  }

  /** The field is cut out of the number that the logical bits make up. */
  lemma FieldOfNumber(buf: seq<Byte>, hi: nat, lo: nat, q: Quirks, all: Word)
    requires lo <= hi < 8 * |buf| && hi - lo < 64
    requires |all| == 8 * |buf| && forall i: nat :: i < |all| ==> all[i] == Bit(buf, i, q)
    ensures ValueOf(Unpacked(buf, hi, lo, q)) == (ValueOf(all) / Pow2(lo)) % Pow2(hi - lo + 1)
  {
    hide Bit;
    var v := Unpacked(buf, hi, lo, q);
    var low := Low(all[lo..], hi - lo + 1);
    DropValue(all, lo);
    LowBits(all[lo..], hi - lo + 1);
    forall k: nat
      ensures (k < |v| && v[k]) == (k < |low| && low[k])
    {
      if k <= hi - lo {
        assert v[k] == Bit(buf, lo + k, q) && low[k] == all[lo..][k];
      }
    }
    SameValue(v, low);
  }

  /** A field is the bits from `lo` to `hi` of the number that the buffer lists: from its most significant octet on
      without quirks, and from its least significant octet on with both ordering quirks. */
  lemma FieldNumber(buf: seq<Byte>, hi: nat, lo: nat, q: Quirks)
    requires lo <= hi < 8 * |buf| && hi - lo < 64 && !q.msbRight
    ensures !q.littleEndian && !q.lsw32First ==>
      ValueOf(Unpacked(buf, hi, lo, q)) == (BigEndian(buf) / Pow2(lo)) % Pow2(hi - lo + 1)
    ensures q.littleEndian && q.lsw32First ==>
      ValueOf(Unpacked(buf, hi, lo, q)) == (LittleEndian(buf) / Pow2(lo)) % Pow2(hi - lo + 1)
  {
    hide Bit, Unpacked;
    var all := seq(8 * |buf|, i requires 0 <= i < 8 * |buf| => Bit(buf, i, q));
    FieldOfNumber(buf, hi, lo, q, all);
    forall k: nat | k < 8 * |buf|
      ensures !q.littleEndian && !q.lsw32First ==> all[k] == buf[|buf| - 1 - k / 8][k % 8]
      ensures q.littleEndian && q.lsw32First ==> all[k] == buf[k / 8][k % 8]
    {
      BitPlace(buf, k, q);
    }
    if !q.littleEndian && !q.lsw32First {
      WordBig(buf, all);
    } else if q.littleEndian && q.lsw32First {
      WordLittle(buf, all);
    }
  }

  /** Unpacking what has been packed gives the value modulo 2^width, and no other logical bit has changed. */
  lemma PackUnpack(before: seq<Byte>, after: seq<Byte>, v: Word, hi: nat, lo: nat, q: Quirks)
    requires |before| == |after| && lo <= hi < 8 * |before| && hi - lo < 64 == |v|
    requires Stored(before, after, v, hi, lo, 0, q)
    ensures ValueOf(Unpacked(after, hi, lo, q)) == ValueOf(v) % Pow2(hi - lo + 1)
    ensures forall i: nat :: i < 8 * |before| && !(lo <= i <= hi) ==> Bit(after, i, q) == Bit(before, i, q)
  {
    hide Bit;
    LowBits(v, hi - lo + 1);
    var low := Low(v, hi - lo + 1);
    var got := Unpacked(after, hi, lo, q);
    forall k: nat | k < 64
      ensures got[k] == low[k]
    {
      if k <= hi - lo {
        assert Bit(after, lo + k, q) == v[k];
      }
    }
    assert got == low;
  }

  /** The logical bits determine the bytes that are the place of an octet. */
  lemma BitsDetermine(a: seq<Byte>, b: seq<Byte>, q: Quirks, x: nat)
    requires |a| == |b| && x < |a| && Reached(|a|, x, q)
    requires forall i: nat :: i < 8 * |a| ==> Bit(a, i, q) == Bit(b, i, q)
    ensures a[x] == b[x]
  {
    var box: nat :| Inside(box, |a|, q) && BoxAddr(box, |a|, q) == x;
    forall j: nat | j < 8
      ensures a[x][j] == b[x][j]
    {
      var i := 8 * box + InByte(j, q);
      assert i / 8 == box && i % 8 == InByte(j, q);
      assert Bit(a, i, q) == Bit(b, i, q);
    }
  }

  /** Packing the value just unpacked leaves the buffer as it was. */
  lemma UnpackPack(before: seq<Byte>, after: seq<Byte>, hi: nat, lo: nat, q: Quirks)
    requires |before| == |after| && lo <= hi < 8 * |before| && hi - lo < 64
    requires Stored(before, after, Unpacked(before, hi, lo, q), hi, lo, 0, q)
    ensures after == before
  {
    hide Bit, Reached;
    forall i: nat | i < 8 * |before|
      ensures Bit(after, i, q) == Bit(before, i, q)
    {
      if lo <= i <= hi {
        assert Unpacked(before, hi, lo, q)[i - lo] == Bit(before, lo + (i - lo), q);
      }
    }
    forall x: nat | x < |before|
      ensures after[x] == before[x]
    {
      if Reached(|before|, x, q) {
        BitsDetermine(after, before, q, x);
      }
    }
  }
}
