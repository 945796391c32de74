/**
 Ordered search by mark: xas_find_marked(), on which the allocation of ids is built.
 */
module XaFindMarked {
  import opened Chunks
  import opened Numbers
  import opened XaNodes
  import opened XaTree
  import opened XArrays
  import opened XaStates
  import opened XaFind

  /** No index from `s` up to, but not including, `e` carries mark `m`. */
  ghost predicate NoMark(t: Tags, m: nat, s: nat, e: nat)
  {
    m < |t| && forall i :: i in t[m] ==> !(s <= i < e)
  }

  /** The first set bit at or after `from`, as xas_find_chunk() computes it. */
  function FindBit(bits: seq<bool>, from: nat): (o: nat)
    requires from <= |bits|
    ensures from <= o <= |bits| && (o < |bits| ==> bits[o])
    ensures forall j :: from <= j < o ==> !bits[j]
    decreases |bits| - from
  {
    if from == |bits| || bits[from] then from else FindBit(bits, from + 1)
  }

  /** The search of xas_find_marked(): the index passes through the slot under the cursor, or is past its node. */
  ghost predicate Hunting(xas: XaState, start: nat, m: nat)
    reads xas`index, xas`offset, xas`node, xas.xa`height, xas.xa`nodes, xas.xa`tags,
          if xas.node.At? then {xas.node.n} else {}
  {
    && xas.node.At? && xas.offset <= CHUNK_SIZE && xas.index < WORD
    && var n := xas.node.n;
       && Pos(n.level, n.chunk) in xas.xa.nodes && xas.xa.nodes[Pos(n.level, n.chunk)] == n && n.level < xas.xa.height
       && (if xas.offset == CHUNK_SIZE then xas.index == Place(n, CHUNK_SIZE)
           else Up(xas.index, n.level) == Cat(n.chunk, xas.offset))
       && start <= xas.index && NoMark(xas.xa.tags, m, start, xas.index)
  }

  /** The search has not begun yet: the cursor is still on the slot of the index before `start`, at a leaf or on a slot
      with nothing marked below it. */
  ghost predicate Leaving(xas: XaState, start: nat, m: nat)
    reads xas`index, xas`offset, xas`node, xas.xa`height, xas.xa`nodes, if xas.node.At? then {xas.node.n} else {}
  {
    xas.node.At? && xas.Cursor() && start == xas.index + 1 && Settled(xas, m)
  }

  /** The cursor is at a leaf, or on an empty slot and the search is not for free indices. */
  ghost predicate Settled(xas: XaState, m: nat)
    reads xas`offset, xas`node, if xas.node.At? then {xas.node.n} else {}
  {
    xas.Resting() && (xas.node.At? && xas.node.n.level > 0 ==> !(xas.xa.trackFree && m == FREE_MARK))
  }

  /** What xas_find_marked() leaves behind. */
  ghost predicate Hunted(xas: XaState, start: nat, max: nat, m: nat, entry: Slot)
    reads xas`index, xas`offset, xas`node, xas.xa, if xas.node.At? then {xas.node.n} else {}
  {
    xas.index < WORD &&
    match xas.node
    case Restart => entry == Empty && NoMark(xas.xa.tags, m, start, max + 1)
    case Bounds =>
      && entry == Empty && start <= xas.index <= max && Up(xas.index, xas.xa.height) != 0
      && NoMark(xas.xa.tags, m, start, xas.index)
    case Error(e) => false
    case _ =>
      && xas.Cursor() && start <= xas.index <= max && NoMark(xas.xa.tags, m, start, xas.index)
      && xas.index in xas.xa.tags[m] && entry == xas.xa.Raw(xas.index) && (entry != Empty ==> xas.OnEntry())
  }

  lemma NoMarkJoin(t: Tags, m: nat, a: nat, b: nat, c: nat)
    requires NoMark(t, m, a, b) && NoMark(t, m, b, c)
    ensures NoMark(t, m, a, c)
  {
  }

  /** Clear bits from slot `from` to slot `to` of a node mean no mark on the indices below them. */
  lemma MarkGap(xa: XArray, q: Pos, m: nat, from: nat, to: nat, s: nat)
    requires xa.Valid() && q in xa.nodes && m < MAX_MARKS && from <= to <= CHUNK_SIZE
    requires s >= Base(q.level, Cat(q.chunk, from))
    requires |xa.nodes[q].marks| == MAX_MARKS && |xa.nodes[q].marks[m]| == CHUNK_SIZE
    requires forall j :: from <= j < to ==> !xa.nodes[q].marks[m][j]
    ensures NoMark(xa.tags, m, s, Base(q.level, Cat(q.chunk, to)))
  {
    hide XArray.Valid, Any;
    xa.TagCount();
    xa.ValidMarks(q);
    forall i | i in xa.tags[m]
      ensures !(s <= i < Base(q.level, Cat(q.chunk, to)))
    {
      if s <= i < Base(q.level, Cat(q.chunk, to)) {
        var k := Up(i, q.level);
        Covers(i, q.level, Cat(q.chunk, from));
        Covers(i, q.level, Cat(q.chunk, to));
        var j := k - Cat(q.chunk, 0);
        assert k == Cat(q.chunk, j);
        assert !xa.nodes[q].marks[m][j];
        AnyNot(xa.tags[m], i, q.level);
      }
    }
  }

  /** A marked slot has a marked index below it, which holds something unless the mark is that of free indices. */
  lemma MarkedSlot(xa: XArray, q: Pos, m: nat, o: nat)
    requires xa.Valid() && q in xa.nodes && m < MAX_MARKS && o < CHUNK_SIZE && |xa.nodes[q].slots| == CHUNK_SIZE
    requires |xa.nodes[q].marks| == MAX_MARKS && |xa.nodes[q].marks[m]| == CHUNK_SIZE && xa.nodes[q].marks[m][o]
    ensures |xa.tags| == MAX_MARKS && Any(xa.tags[m], q.level, Cat(q.chunk, o))
    ensures xa.nodes[q].slots[o] == Empty ==> xa.trackFree && m == FREE_MARK
  {
    hide XArray.Valid;
    xa.ValidMarks(q);
    var i :| i in xa.tags[m] && Up(i, q.level) == Cat(q.chunk, o);
    if xa.nodes[q].slots[o] == Empty {
      xa.EmptyBelow(q, o, i);
      xa.RestMark(i, m);
    }
  }

  /** A marked slot past the end of the word can only be the first one: all indices out there are free. */
  lemma WrappedSlot(xa: XArray, q: Pos, m: nat, i: nat, o: nat, to: nat)
    requires xa.Valid() && q in xa.nodes && m < MAX_MARKS && o < to < CHUNK_SIZE
    requires i < WORD <= Base(q.level, Cat(q.chunk, to)) && Up(i, q.level) == Cat(q.chunk, o)
    requires |xa.nodes[q].marks| == MAX_MARKS && |xa.nodes[q].marks[m]| == CHUNK_SIZE && xa.nodes[q].marks[m][to]
    requires forall j :: o < j < to ==> !xa.nodes[q].marks[m][j]
    ensures Base(q.level, Cat(q.chunk, to)) == WORD
  {
    hide XArray.Valid, Base, Up;
    var l, p := q.level, q.chunk;
    xa.ValidLink(q);
    xa.ShiftBound(l);
    xa.ValidMarks(q);
    var far :| far in xa.tags[m] && Up(far, l) == Cat(p, to);
    Covers(far, l, Cat(p, to));
    if far in xa.contents { xa.InWord(far); }
    xa.RestMark(far, m);
    if WORD in xa.contents { xa.InWord(WORD); }
    xa.RestMark(WORD, m);
    WordSlot(l);
    var k := Up(WORD, l);
    Covers(i, l, k);
    Covers(WORD, l, Cat(p, to));
    UpBase(l, Cat(p, to));
    UpMonotone(WORD, Base(l, Cat(p, to)), l);
    var j := k - Cat(p, 0);
    assert k == Cat(p, j) && o < j <= to;
    assert Any(xa.tags[m], l, k);
  }

  /** Where the search goes when the next set bit of the node is not that of the slot under the cursor. */
  lemma LeapPlace(xas: XaState, n: Node, start: nat, m: nat, from: nat, to: nat)
    requires xas.xa.Valid() && xas.node == At(n) && m < MAX_MARKS && xas.offset < CHUNK_SIZE
    requires if from == xas.offset then Hunting(xas, start, m) else from == xas.offset + 1 && Leaving(xas, start, m)
    requires |n.marks| == MAX_MARKS && |n.marks[m]| == CHUNK_SIZE && from <= to <= CHUNK_SIZE && xas.offset < to
    requires (to < CHUNK_SIZE ==> n.marks[m][to]) && forall j :: from <= j < to ==> !n.marks[m][j]
    ensures var place := Place(n, to);
      && MoveIndex(xas.index, n.shift, to) == Trunc(place) && (place >= WORD ==> Trunc(place) == 0)
      && xas.index < place && start <= place && NoMark(xas.xa.tags, m, start, place)
      && (to < CHUNK_SIZE ==> Up(place, n.level) == Cat(n.chunk, to))
  {
    hide XArray.Valid, Base, Up, Cat, MoveIndex;
    var xa, i, l, p := xas.xa, xas.index, n.level, n.chunk;
    var q := Pos(l, p);
    LeapNode(xas, n, start, m, from);
    MoveIsBase(i, l, to);
    SlotRange(i, l, Cat(p, xas.offset));
    UpOrder(l, p, xas.offset, to);
    if from == xas.offset {
      MarkGap(xa, q, m, from, to, i);
      NoMarkJoin(xa.tags, m, start, i, Place(n, to));
    } else {
      LeaveSlot(xas, n, start, m);
      MarkGap(xa, q, m, from, to, Place(n, from));
      NoMarkJoin(xa.tags, m, start, Place(n, from), Place(n, to));
    }
    if Place(n, to) >= WORD {
      if to < CHUNK_SIZE {
        WrappedSlot(xa, q, m, i, xas.offset, to);
      } else {
        BaseStep(l, p);
        WrappedEnd(i, l + 1);
      }
    }
    if to < CHUNK_SIZE {
      PlacePath(l, p, to);
    }
  }

  /** Nothing is marked from `start` to the end of the slot that is left behind. */
  lemma LeaveSlot(xas: XaState, n: Node, start: nat, m: nat)
    requires xas.xa.Valid() && xas.node == At(n) && m < MAX_MARKS && Leaving(xas, start, m)
    ensures start <= Place(n, xas.offset + 1) && NoMark(xas.xa.tags, m, start, Place(n, xas.offset + 1))
  {
    hide XArray.Valid, Base, Up, Cat;
    var xa, i := xas.xa, xas.index;
    xa.OnPathLink(n, i);
    UpStep(i, n.level);
    xa.TagCount();
    if n.level == 0 {
      UpStart(i);
      LeafPlace(n.chunk, xas.offset);
    } else {
      SkipFrom(xa, Pos(n.level, n.chunk), xas.offset, i);
      forall j | j in xa.tags[m]
        ensures !(start <= j < Place(n, xas.offset + 1))
      {
        if j !in xa.contents {
          xa.RestMark(j, m);
        }
      }
    }
  }

  lemma UpOrder(l: nat, p: nat, o: nat, to: nat)
    requires o < to <= CHUNK_SIZE
    ensures Base(l, Cat(p, o) + 1) <= Base(l, Cat(p, to))
  {
    BaseMonotone(l, Cat(p, o) + 1, Cat(p, to));
  }

  /** The node under the cursor. */
  lemma LeapNode(xas: XaState, n: Node, start: nat, m: nat, from: nat)
    requires xas.xa.Valid() && xas.node == At(n) && xas.offset < CHUNK_SIZE
    requires if from == xas.offset then Hunting(xas, start, m) else Leaving(xas, start, m)
    ensures Pos(n.level, n.chunk) in xas.xa.nodes
    ensures xas.xa.nodes[Pos(n.level, n.chunk)] == n && n.shift == ShiftOf(n.level)
    ensures Up(xas.index, n.level) == Cat(n.chunk, xas.offset) && Up(xas.index, n.level + 1) == n.chunk
    ensures n.level < xas.xa.height
    ensures n.level == 0 ==> Up(xas.index, 0) == xas.index
  {
    hide XArray.Valid;
    UpStep(xas.index, n.level);
    UpStart(xas.index);
    if from == xas.offset {
      xas.xa.ValidLink(Pos(n.level, n.chunk));
      HiLoCat(n.chunk, xas.offset);
    } else {
      xas.xa.OnPathLink(n, xas.index);
    }
  }

  /** Move the index to the next set bit of the node, minding the wrap. */
  method Leap(xas: XaState, n: Node, m: nat, max: nat, advance: bool, ghost start: nat) returns (over: bool)
    requires xas.xa.Valid() && xas.node == At(n) && m < MAX_MARKS && xas.offset < CHUNK_SIZE && xas.index <= max < WORD
    requires if advance then Leaving(xas, start, m) else Hunting(xas, start, m)
    requires |n.marks| == MAX_MARKS && |n.marks[m]| == CHUNK_SIZE
    modifies xas`offset, xas`index
    ensures over ==> xas.index < WORD && NoMark(xas.xa.tags, m, start, max + 1)
    ensures !over ==>
      && Hunting(xas, start, m) && old(xas.index) <= xas.index <= max
      && xas.offset <= CHUNK_SIZE && (xas.offset < CHUNK_SIZE ==> n.marks[m][xas.offset])
      && (xas.offset == CHUNK_SIZE ==> xas.index > old(xas.index))
      && (xas.index == old(xas.index) ==> xas.offset == old(xas.offset))
  {
    hide XArray.Valid, Base, Up, Cat, MoveIndex;
    var from := xas.offset + if advance then 1 else 0;
    var o := FindBit(n.marks[m], from);
    LeapNode(xas, n, start, m, from);
    if o > xas.offset {
      LeapPlace(xas, n, start, m, from, o);
      xas.index := MoveIndex(xas.index, n.shift, o);
      if Trunc(xas.index + WORD - 1) >= max {
        return true;
      }
      xas.offset := o;
    }
    return false;
  }

  /** The end of a node: the index is already at the slot after it. */
  method Climb(xas: XaState, m: nat, ghost start: nat)
    requires xas.xa.Valid() && Hunting(xas, start, m) && xas.offset == CHUNK_SIZE
    modifies xas`offset, xas`node
    ensures xas.node == Top || xas.node.At?
    ensures xas.node == Top ==>
      Up(xas.index, xas.xa.height) != 0 && start <= xas.index && NoMark(xas.xa.tags, m, start, xas.index)
    ensures xas.node.At? ==> Hunting(xas, start, m) && Phase(xas) < old(Phase(xas))
  {
    hide XArray.Valid, Base, NoMark;
    var n := xas.node.n;
    ghost var q := Pos(n.level, n.chunk);
    xas.xa.ValidLink(q);
    ClimbPlace(n.level, n.chunk);
    xas.offset := n.offset + 1;
    xas.node := if n.parent == null then Top else At(n.parent);
    if n.parent == null {
      assert Hi(0) == 0 && Cat(0, 1) == 1;
      UpBase(xas.xa.height, 1);
    } else {
      xas.xa.ValidLink(Pos(q.level + 1, Hi(q.chunk)));
      if xas.offset < CHUNK_SIZE {
        UpBase(q.level + 1, Cat(Hi(q.chunk), xas.offset));
      }
    }
  }

  /** A marked slot: go down to the slot of the index, or stop at its entry. */
  method Enter(xas: XaState, n: Node, m: nat, ghost start: nat) returns (entry: Slot)
    requires xas.xa.Valid() && xas.node == At(n) && Hunting(xas, start, m) && xas.offset < CHUNK_SIZE && m < MAX_MARKS
    requires |n.marks| == MAX_MARKS && |n.marks[m]| == CHUNK_SIZE && n.marks[m][xas.offset]
    modifies xas`offset, xas`node
    ensures xas.node.At? && (entry.Child? ==> Hunting(xas, start, m) && Phase(xas) < old(Phase(xas)))
    ensures !entry.Child? ==>
      && xas.Cursor() && start <= xas.index && NoMark(xas.xa.tags, m, start, xas.index) && xas.node.At?
      && xas.index in xas.xa.tags[m] && entry == xas.xa.Raw(xas.index) && (entry != Empty ==> xas.OnEntry())
  {
    hide XArray.Valid, Base, NoMark, Any;
    ghost var q := Pos(n.level, n.chunk);
    LeapNode(xas, n, start, m, xas.offset);
    xas.xa.ValidSlot(q, xas.offset);
    MarkedSlot(xas.xa, q, m, xas.offset);
    entry := n.slots[xas.offset];
    if entry == Empty && !(xas.xa.trackFree && m == FREE_MARK) {
      // The source goes round again on the same slot here; a marked slot is never empty, so it never does.
      assert false;
    }
    if !entry.Child? {
      EnteredEntry(xas, n, m);
      return;
    }
    xas.xa.ValidLink(Pos(n.level - 1, Cat(n.chunk, xas.offset)));
    xas.node := At(entry.node);
    ShrIsUp(xas.index, n.level - 1);
    UpStep(xas.index, n.level - 1);
    xas.offset := GetOffset(xas.index, entry.node);
  }

  lemma EnteredEntry(xas: XaState, n: Node, m: nat)
    requires xas.xa.Valid() && xas.node == At(n) && xas.offset < CHUNK_SIZE && m < MAX_MARKS && xas.index < WORD
    requires Pos(n.level, n.chunk) in xas.xa.nodes && xas.xa.nodes[Pos(n.level, n.chunk)] == n
    requires |xas.xa.tags| == MAX_MARKS && |n.slots| == CHUNK_SIZE && !n.slots[xas.offset].Child?
    requires Any(xas.xa.tags[m], n.level, Cat(n.chunk, xas.offset))
    requires Up(xas.index, n.level) == Cat(n.chunk, xas.offset)
    requires n.slots[xas.offset] == Empty ==> xas.xa.trackFree && m == FREE_MARK
    ensures xas.Cursor() && (n.slots[xas.offset] != Empty ==> xas.OnEntry())
    ensures xas.index in xas.xa.tags[m] && n.slots[xas.offset] == xas.xa.Raw(xas.index)
  {
    hide XArray.Valid;
    var q := Pos(n.level, n.chunk);
    xas.xa.ValidSlot(q, xas.offset);
    HiLoCat(n.chunk, xas.offset);
    UpStep(xas.index, n.level);
    if n.slots[xas.offset] == Empty {
      xas.xa.EmptyBelow(q, xas.offset, xas.index);
      xas.xa.RestMark(xas.index, m);
    } else {
      UpStart(xas.index);
    }
  }

  lemma BitSizes(xa: XArray, q: Pos, m: nat)
    requires xa.Valid() && q in xa.nodes && m < MAX_MARKS
    ensures |xa.nodes[q].marks| == MAX_MARKS && |xa.nodes[q].marks[m]| == CHUNK_SIZE
  {
    hide XArray.Valid;
    xa.ValidMarks(q);
  }

  /** One round of the loop in xas_find_marked(). */
  method HuntStep(xas: XaState, m: nat, max: nat, advance: bool, ghost start: nat) returns (entry: Slot, done: bool)
    requires xas.xa.Valid() && m < MAX_MARKS && xas.index <= max < WORD
    requires if advance then Leaving(xas, start, m) else Hunting(xas, start, m)
    modifies xas`offset, xas`index, xas`node
    ensures done ==> Hunted(xas, start, max, m, entry) && (entry == Empty || entry.Stored?)
    ensures !done && xas.node == Top ==>
      Up(xas.index, xas.xa.height) != 0 && start <= xas.index <= max && NoMark(xas.xa.tags, m, start, xas.index)
    ensures !done && xas.node != Top ==>
      && xas.node.At? && Hunting(xas, start, m) && xas.index <= max
      && (xas.index > old(xas.index) || (xas.index == old(xas.index) && Phase(xas) < old(Phase(xas))))
  {
    hide XArray.Valid, Base, Up, Cat, NoMark, Hunting, Leaving;
    StepNode(xas, m, advance, start);
    if xas.offset == CHUNK_SIZE {
      Climb(xas, m, start);
      return Empty, false;
    }
    var n := xas.node.n;
    var over := Leap(xas, n, m, max, advance, start);
    if over {
      xas.node := Restart;
      return Empty, true;
    }
    if xas.offset == CHUNK_SIZE {
      return Empty, false;
    }
    entry := Enter(xas, n, m, start);
    done := !entry.Child?;
  }

  lemma StepNode(xas: XaState, m: nat, advance: bool, start: nat)
    requires xas.xa.Valid() && m < MAX_MARKS
    requires if advance then Leaving(xas, start, m) else Hunting(xas, start, m)
    ensures xas.node.At? && xas.offset <= CHUNK_SIZE && (advance ==> xas.offset < CHUNK_SIZE)
    ensures |xas.node.n.marks| == MAX_MARKS && |xas.node.n.marks[m]| == CHUNK_SIZE
  {
    hide XArray.Valid;
    var n := xas.node.n;
    if advance {
      xas.xa.OnPathLink(n, xas.index);
    }
    BitSizes(xas.xa, Pos(n.level, n.chunk), m);
  }

  /** The start of a search from the top of the tree. */
  method HuntStart(xas: XaState, m: nat) returns (entry: Slot, done: bool)
    requires xas.xa.Valid() && xas.Cursor() && (xas.node == Restart || xas.node == Bounds) && m < MAX_MARKS
    modifies xas`offset, xas`index, xas`node
    ensures done ==>
      && xas.node == Top && entry == xas.xa.Raw(0) && xas.xa.height == 0
      && xas.index == old(xas.index) == 0 && |xas.xa.tags| == MAX_MARKS && 0 in xas.xa.tags[m]
    ensures !done ==> entry == Empty
    ensures !done && xas.node.At? ==> Hunting(xas, old(xas.index), m) && xas.index == old(xas.index)
    ensures !done && !xas.node.At? ==>
      && xas.node == Top && xas.index < WORD && Up(xas.index, xas.xa.height) != 0 && old(xas.index) <= xas.index
      && NoMark(xas.xa.tags, m, old(xas.index), xas.index)
  {
    hide XArray.Valid, Up;
    var xa := xas.xa;
    xa.HeadParts();
    xa.TagCount();
    HeadReach(xa, xas.index, m);
    entry := xa.head;
    xas.node := Top;
    if xas.index > XaState.MaxBelow(entry) {
      return Empty, false;
    }
    if !entry.Child? {
      if xa.flags[m] {
        return entry, true;
      }
      xas.index := 1;
      return Empty, false;
    }
    xas.node := At(entry.node);
    xas.offset := Shr(xas.index, entry.node.shift);
    return Empty, false;
  }

  /** What xas_find_marked() reads off the head. */
  lemma HeadReach(xa: XArray, i: nat, m: nat)
    requires xa.Valid() && i < WORD && m < MAX_MARKS
    ensures |xa.tags| == MAX_MARKS == |xa.flags|
    ensures i > XaState.MaxBelow(xa.head) <==> Up(i, xa.height) != 0
    ensures xa.height == 0 ==> xa.head == xa.Raw(0) && !xa.head.Child? && Up(1, 0) == 1 && Up(i, 0) == i
                               && (xa.flags[m] <==> 0 in xa.tags[m])
    ensures xa.height > 0 && Up(i, xa.height) == 0 ==>
      var n := xa.head.node;
      && Pos(n.level, n.chunk) in xa.nodes && xa.nodes[Pos(n.level, n.chunk)] == n && n.level == xa.height - 1
      && Up(i, n.level) == Cat(n.chunk, Shr(i, n.shift)) && Shr(i, n.shift) < CHUNK_SIZE
    ensures xa.height > 0 ==> xa.head.Child?
  {
    hide LinksIn, SlotsIn, CountsIn, MarksIn, CoveredBy, Rested, Up;
    xa.HeadParts();
    xa.HeadFlag(m);
    UpStart(i);
    UpStart(1);
    if xa.height == 0 {
      AnyBottom(xa.tags[m], 0);
    } else {
      xa.ValidLink(Pos(xa.height - 1, 0));
      MaxIndexReach(i, xa.height - 1);
      ShrIsUp(i, xa.height - 1);
      UpStep(i, xa.height - 1);
    }
  }

  /** xas_find_marked() */
  method FindMarked(xas: XaState, max: nat, m: nat) returns (entry: Slot)
    requires xas.xa.Valid() && xas.Cursor() && max < WORD && m < MAX_MARKS
    requires Settled(xas, m)
    modifies xas`offset, xas`index, xas`node
    ensures entry == Empty || entry.Stored?
    ensures old(xas.node).Error? ==> entry == Empty && xas.node == old(xas.node)
    ensures !old(xas.node).Error? ==>
      Hunted(xas, old(if xas.node == Top || xas.node.At? then xas.index + 1 else xas.index), max, m, entry)
  {
    hide XArray.Valid, Base, Up, Cat, Hunting, NoMark, Phase;
    ghost var start := if xas.node == Top || xas.node.At? then xas.index + 1 else xas.index;
    NoMarkEmpty(xas.xa, m, start, max + 1);
    if xas.node.Error? {
      return Empty;
    }
    if xas.index > max {
      xas.node := Restart;
      return Empty;
    }
    var advance := true;
    var done := false;
    if xas.node == Top {
      TopLeaves(xas, m);
      xas.index := 1;
    } else {
      if !xas.node.At? {
        advance := false;
        entry, done := HuntStart(xas, m);
      }
      if done {
        HuntedTop(xas, start, max, m, entry);
        return;
      }
      while xas.node != Top && xas.index <= max
        invariant xas.node == Top || xas.node.At?
        invariant xas.node.At? ==>
          (if advance then Leaving(xas, start, m) else Hunting(xas, start, m)) && xas.index <= max
        invariant xas.node == Top ==>
            Up(xas.index, xas.xa.height) != 0 && start <= xas.index < WORD && NoMark(xas.xa.tags, m, start, xas.index)
        decreases if xas.node.At? then max + 1 - xas.index else 0, if xas.node.At? then Phase(xas) else 0
      {
        entry, done := HuntStep(xas, m, max, advance, start);
        if done {
          return;
        }
        advance := false;
      }
    }
    if xas.index > max {
      NoMarkUpTo(xas.xa.tags, m, start, xas.index, max);
      xas.node := Restart;
    } else {
      xas.node := Bounds;
    }
    return Empty;
  }

  lemma NoMarkEmpty(xa: XArray, m: nat, s: nat, e: nat)
    requires xa.Valid() && m < MAX_MARKS
    ensures s >= e ==> NoMark(xa.tags, m, s, e)
  {
    hide XArray.Valid;
    xa.TagCount();
  }

  lemma NoMarkUpTo(t: Tags, m: nat, s: nat, e: nat, max: nat)
    requires NoMark(t, m, s, e) && max < e
    ensures NoMark(t, m, s, max + 1)
  {
  }

  /** Past the head of an array without nodes. */
  lemma TopLeaves(xas: XaState, m: nat)
    requires xas.xa.Valid() && xas.Cursor() && xas.node == Top && m < MAX_MARKS
    ensures xas.index == 0 && Up(1, xas.xa.height) != 0 && NoMark(xas.xa.tags, m, 1, 1)
  {
    hide XArray.Valid;
    xas.xa.TagCount();
    UpStart(1);
  }

  lemma HuntedTop(xas: XaState, start: nat, max: nat, m: nat, entry: Slot)
    requires xas.node == Top && entry == xas.xa.Raw(0) && xas.xa.height == 0 && m < MAX_MARKS
    requires xas.index == start == 0 && |xas.xa.tags| == MAX_MARKS && 0 in xas.xa.tags[m]
    ensures Hunted(xas, start, max, m, entry)
  {
  }
}
