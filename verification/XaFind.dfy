/**
 Ordered search: xas_find() and xas_find_marked(), which walk the tree with the cursor and never change it.
 */
module XaFind {
  import opened Chunks
  import opened Numbers
  import opened XaNodes
  import opened XaTree
  import opened XArrays
  import opened XaStates

  /** What the slots of the array hold: everything but an implied reservation of index 0. */
  ghost function Stock(xa: XArray): map<nat, Entry>
    reads xa`height, xa`head, xa`contents
  {
    if xa.Implied() then map[] else xa.contents
  }

  /** Nothing is stored from `s` up to, but not including, `t`. */
  ghost predicate NoneIn(stock: map<nat, Entry>, s: nat, t: nat)
  {
    forall i :: i in stock ==> !(s <= i < t)
  }

  /** The first index of the slot the scan has come to. */
  ghost function Place(n: Node, offset: nat): nat
    reads n`level, n`chunk
  {
    Base(n.level, Cat(n.chunk, offset))
  }

  /** The scan of xas_find(): nothing is stored between `start` and the slot under the cursor. */
  ghost predicate Scanning(xas: XaState, start: nat)
    reads xas`index, xas`offset, xas`node, xas.xa`height, xas.xa`nodes, xas.xa`contents,
          if xas.node.At? then {xas.node.n} else {}
  {
    && xas.node.At? && xas.offset <= CHUNK_SIZE && xas.index < WORD
    && var n := xas.node.n;
       && Pos(n.level, n.chunk) in xas.xa.nodes && xas.xa.nodes[Pos(n.level, n.chunk)] == n && n.level < xas.xa.height
       && (Place(n, xas.offset) < WORD ==> xas.index == Place(n, xas.offset))
       && start <= Place(n, xas.offset) <= Base(xas.xa.height, 1)
       && NoneIn(xas.xa.contents, start, Place(n, xas.offset))
  }

  /** xas_next_offset() */
  method NextOffset(xas: XaState, n: Node)
    requires xas.node == At(n)
    modifies xas`offset, xas`index
    ensures xas.offset == old(xas.offset) + 1 && xas.index == MoveIndex(old(xas.index), n.shift, xas.offset)
  {
    xas.offset := xas.offset + 1;
    xas.index := MoveIndex(xas.index, n.shift, xas.offset);
  }

  lemma NoneMore(xa: XArray, start: nat)
    requires xa.Valid() && NoneIn(xa.contents, start, Base(xa.height, 1))
    ensures NoneIn(xa.contents, start, WORD)
  {
    forall i | i in xa.contents
      ensures i < Base(xa.height, 1)
    {
      Covers(i, xa.height, 1);
    }
  }

  /** How much of the scan is left at one place: climbing comes before going down again. */
  ghost function Phase(xas: XaState): nat
    requires xas.node.At?
    reads xas`node, xas`offset, xas.xa`height, xas.node.n`level
  {
    var h, l := xas.xa.height, xas.node.n.level;
    if xas.offset == CHUNK_SIZE then h + (if l < h then h - l else 0) + 1 else l
  }

  /** The end of a node: move up to the slot after it. */
  method ClimbStep(xas: XaState, ghost start: nat)
    requires xas.xa.Valid() && Scanning(xas, start) && xas.offset == CHUNK_SIZE
    modifies xas`offset, xas`node
    ensures xas.node == Top || xas.node.At?
    ensures xas.node == Top ==> NoneIn(xas.xa.contents, start, WORD)
    ensures xas.node.At? ==> Scanning(xas, start) && Place(xas.node.n, xas.offset) == old(Place(xas.node.n, xas.offset))
                             && Phase(xas) < old(Phase(xas))
  {
    hide XArray.Valid, Base, NoneIn;
    var n := xas.node.n;
    ghost var q := Pos(n.level, n.chunk);
    xas.xa.ValidLink(q);
    ClimbPlace(n.level, n.chunk);
    xas.offset := n.offset + 1;
    xas.node := if n.parent == null then Top else At(n.parent);
    if n.parent == null {
      assert Hi(0) == 0 && Cat(0, 1) == 1;
      NoneMore(xas.xa, start);
    } else {
      xas.xa.ValidLink(Pos(q.level + 1, Hi(q.chunk)));
    }
  }

  /** A child: go down to its first slot. */
  method DownStep(xas: XaState, ghost start: nat)
    requires xas.xa.Valid() && Scanning(xas, start) && xas.offset < CHUNK_SIZE
    requires |xas.node.n.slots| == CHUNK_SIZE && xas.node.n.slots[xas.offset].Child?
    modifies xas`offset, xas`node
    ensures Scanning(xas, start) && Place(xas.node.n, xas.offset) == old(Place(xas.node.n, xas.offset))
    ensures Phase(xas) < old(Phase(xas))
  {
    hide XArray.Valid, Base, NoneIn;
    var n := xas.node.n;
    ghost var q := Pos(n.level, n.chunk);
    xas.xa.ValidSlot(q, xas.offset);
    FirstPlace(n.level, Cat(n.chunk, xas.offset));
    xas.node := At(n.slots[xas.offset].node);
    xas.offset := 0;
  }

  /** An empty slot: nothing is stored below it. */
  lemma EmptyPlace(xa: XArray, q: Pos, o: nat, start: nat)
    requires xa.Valid() && q in xa.nodes && o < CHUNK_SIZE && |xa.nodes[q].slots| == CHUNK_SIZE
    requires xa.nodes[q].slots[o] == Empty && NoneIn(xa.contents, start, Base(q.level, Cat(q.chunk, o)))
    ensures NoneIn(xa.contents, start, Base(q.level, Cat(q.chunk, o + 1)))
  {
    hide XArray.Valid, Base;
    NextPlace(q.level, q.chunk, o);
    forall i | i in xa.contents
      ensures Up(i, q.level) != Cat(q.chunk, o)
    {
      if Up(i, q.level) == Cat(q.chunk, o) {
        xa.EmptyBelow(q, o, i);
      }
    }
    forall i | i in xa.contents
      ensures !(Base(q.level, Cat(q.chunk, o)) <= i < Base(q.level, Cat(q.chunk, o + 1)))
    {
      SlotRange(i, q.level, Cat(q.chunk, o));
    }
  }

  /** The same, from an index in the middle of the slot. */
  lemma SkipFrom(xa: XArray, q: Pos, o: nat, start: nat)
    requires xa.Valid() && q in xa.nodes && o < CHUNK_SIZE && |xa.nodes[q].slots| == CHUNK_SIZE
    requires xa.nodes[q].slots[o] == Empty && Up(start, q.level) == Cat(q.chunk, o)
    ensures NoneIn(xa.contents, start, Base(q.level, Cat(q.chunk, o + 1)))
    ensures start < Base(q.level, Cat(q.chunk, o + 1))
  {
    hide XArray.Valid, Base;
    SlotRange(start, q.level, Cat(q.chunk, o));
    EmptyPlace(xa, q, o, Base(q.level, Cat(q.chunk, o)));
    NextPlace(q.level, q.chunk, o);
  }

  /** An empty slot: move on to the next one. */
  method SkipStep(xas: XaState, ghost start: nat)
    requires xas.xa.Valid() && Scanning(xas, start) && xas.offset < CHUNK_SIZE
    requires |xas.node.n.slots| == CHUNK_SIZE && xas.node.n.slots[xas.offset] == Empty
    modifies xas`offset, xas`index
    ensures Scanning(xas, start) && Place(xas.node.n, xas.offset) > old(Place(xas.node.n, xas.offset))
  {
    hide XArray.Valid, Base, NoneIn, Up;
    var n := xas.node.n;
    ghost var q := Pos(n.level, n.chunk);
    xas.xa.ValidLink(q);
    EmptyPlace(xas.xa, q, xas.offset, start);
    NextPlace(n.level, n.chunk, xas.offset);
    xas.xa.PlaceBound(q, xas.offset + 1);
    MoveIsBase(xas.index, n.level, xas.offset + 1);
    if Place(n, xas.offset) < WORD {
      PlacePath(n.level, n.chunk, xas.offset);
    } else {
      BigPlace(n.level, n.chunk, xas.offset);
    }
    NextOffset(xas, n);
  }

  /** What xas_find() has found: the first index from `start` on that holds something. */
  ghost predicate Found(xas: XaState, start: nat, entry: Slot)
    reads xas`index, xas.xa`height, xas.xa`head, xas.xa`contents
  {
    && xas.index in Stock(xas.xa) && entry == Stored(Stock(xas.xa)[xas.index]) && start <= xas.index
    && NoneIn(Stock(xas.xa), start, xas.index)
  }

  /** One round of the loop in xas_find(). */
  method ScanStep(xas: XaState, ghost start: nat) returns (entry: Slot)
    requires xas.xa.Valid() && Scanning(xas, start)
    modifies xas`offset, xas`index, xas`node
    ensures entry == Empty || entry.Stored?
    ensures entry != Empty ==> Found(xas, start, entry) && xas.Cursor() && xas.OnEntry() && xas.index == old(xas.index)
    ensures entry == Empty && xas.node == Top ==> NoneIn(xas.xa.contents, start, WORD)
    ensures entry == Empty && xas.node != Top ==>
      && Scanning(xas, start)
      && (if Place(xas.node.n, xas.offset) == old(Place(xas.node.n, xas.offset)) then Phase(xas) < old(Phase(xas))
          else Place(xas.node.n, xas.offset) > old(Place(xas.node.n, xas.offset)))
  {
    hide XArray.Valid, Base, NoneIn, Up;
    var n := xas.node.n;
    ghost var q := Pos(n.level, n.chunk);
    if xas.offset == CHUNK_SIZE {
      ClimbStep(xas, start);
      return Empty;
    }
    xas.xa.ValidSlot(q, xas.offset);
    entry := n.slots[xas.offset];
    if entry.Child? {
      DownStep(xas, start);
      return Empty;
    }
    if entry != Empty {
      FoundHere(xas, start);
      return;
    }
    SkipStep(xas, start);
  }

  lemma FoundHere(xas: XaState, start: nat)
    requires xas.xa.Valid() && Scanning(xas, start) && xas.offset < CHUNK_SIZE
    requires |xas.node.n.slots| == CHUNK_SIZE && xas.node.n.slots[xas.offset].Stored?
    ensures Found(xas, start, xas.node.n.slots[xas.offset]) && xas.Cursor() && xas.OnEntry()
  {
    hide XArray.Valid, NoneIn;
    var n := xas.node.n;
    var k := Cat(n.chunk, xas.offset);
    xas.xa.ValidSlot(Pos(n.level, n.chunk), xas.offset);
    xas.xa.InWord(k);
    assert Base(0, k) == k;
    HiLoCat(n.chunk, xas.offset);
    UpStart(k);
    assert Up(k, 1) == Hi(Up(k, 0));
  }

  lemma LeafPlace(p: nat, o: nat)
    ensures Base(0, Cat(p, o)) == Cat(p, o) && Base(0, Cat(p, o + 1)) == Cat(p, o) + 1
  {
  }

  /** The cursor is where a search may go on from: on an entry of a leaf, or on an empty slot. */
  ghost predicate Stepping(xas: XaState, start: nat)
    reads xas`index, xas`offset, xas`node, xas.xa`height, xas.xa`nodes, if xas.node.At? then {xas.node.n} else {}
  {
    && xas.node.At? && xas.Cursor()
    && (start == xas.index || start == xas.index + 1)
    && (start == xas.index || xas.node.n.level > 0 ==>
          xas.offset < |xas.node.n.slots| && xas.node.n.slots[xas.offset] == Empty)
  }

  /** The place after the slot under the cursor. */
  lemma StartPlace(xas: XaState, n: Node, start: nat)
    requires xas.xa.Valid() && Stepping(xas, start) && xas.node == At(n)
    ensures Pos(n.level, n.chunk) in xas.xa.nodes && xas.xa.nodes[Pos(n.level, n.chunk)] == n
    ensures n.level < xas.xa.height && xas.offset < CHUNK_SIZE
    ensures var next := Place(n, xas.offset + 1);
      && MoveIndex(xas.index, n.shift, xas.offset + 1) == Trunc(next)
      && start <= next <= Base(xas.xa.height, 1) && NoneIn(xas.xa.contents, start, next)
  {
    hide XArray.Valid, Base, Up, Cat, MoveIndex;
    var q, i := Pos(n.level, n.chunk), xas.index;
    xas.xa.OnPathLink(n, i);
    UpStep(i, n.level);
    xas.xa.PlaceBound(q, xas.offset + 1);
    MoveIsBase(i, n.level, xas.offset + 1);
    if start == i || n.level > 0 {
      SkipFrom(xas.xa, q, xas.offset, i);
      NoneLater(xas.xa.contents, i, start, Place(n, xas.offset + 1));
    } else {
      UpStart(i);
      LeafPlace(n.chunk, xas.offset);
    }
  }

  lemma NoneLater(stock: map<nat, Entry>, s: nat, s': nat, t: nat)
    requires NoneIn(stock, s, t) && s <= s'
    ensures NoneIn(stock, s', t)
  {
  }

  /** The first step of a scan, off the slot under the cursor. */
  method StartScan(xas: XaState, n: Node, ghost start: nat)
    requires xas.xa.Valid() && Stepping(xas, start) && xas.node == At(n)
    modifies xas`offset, xas`index
    ensures Scanning(xas, start)
  {
    hide XArray.Valid, Base, Up, Cat, MoveIndex, NoneIn;
    StartPlace(xas, n, start);
    NextOffset(xas, n);
  }

  /** Where a walk to `i` ends empty-handed off the nodes, nothing is stored from `i` on. */
  lemma NothingFrom(xas: XaState, max: nat)
    requires xas.xa.Valid() && xas.Cursor() && (xas.node == Top || xas.node == Bounds) && xas.xa.Raw(xas.index) == Empty
    ensures NoneIn(Stock(xas.xa), xas.index, max + 1)
  {
    hide XArray.Valid;
    var xa := xas.xa;
    forall i | i in Stock(xa)
      ensures i < xas.index
    {
      xa.InWord(i);
      Covers(i, xa.height, 1);
      Covers(xas.index, xa.height, 1);
      UpStart(i);
    }
  }

  /** An array without nodes holds nothing past index 0. */
  lemma HeadAlone(xa: XArray, max: nat)
    requires xa.Valid() && xa.height == 0
    ensures NoneIn(Stock(xa), 1, max + 1)
  {
    hide XArray.Valid;
    forall i | i in Stock(xa)
      ensures i == 0
    {
      xa.InWord(i);
      UpStart(i);
    }
  }

  /** The loop of xas_find(). */
  method Scan(xas: XaState, max: nat, ghost start: nat) returns (entry: Slot)
    requires xas.xa.Valid() && Scanning(xas, start) && max < WORD
    modifies xas`offset, xas`index, xas`node
    ensures entry == Empty || entry.Stored?
    ensures entry != Empty ==> Found(xas, start, entry) && xas.index <= max && xas.Cursor() && xas.OnEntry()
    ensures entry == Empty ==> NoneIn(Stock(xas.xa), start, max + 1)
    ensures !xas.node.Error?
  {
    hide XArray.Valid, Base, Up, Phase;
    while xas.node != Top && xas.index <= max
      invariant xas.node == Top || xas.node.At?
      invariant xas.node == Top ==> NoneIn(xas.xa.contents, start, WORD)
      invariant xas.node.At? ==> Scanning(xas, start)
      decreases if xas.node.At? then Base(xas.xa.height, 1) - Place(xas.node.n, xas.offset) + 1 else 0,
                if xas.node.At? then Phase(xas) else 0
    {
      entry := ScanStep(xas, start);
      if entry != Empty {
        return;
      }
    }
    if xas.node == Top {
      xas.node := Bounds;
    }
    return Empty;
  }

  lemma NonePast(xa: XArray, start: nat, max: nat)
    requires start > max
    ensures NoneIn(Stock(xa), start, max + 1)
  {
  }

  /** What xas_load() has already settled at the start of a search. */
  lemma LoadedFind(xas: XaState, entry: Slot, max: nat)
    requires xas.xa.Valid() && xas.Cursor() && entry == xas.xa.Raw(xas.index) && xas.Landed(entry)
    requires !xas.node.Error? && xas.node != Restart && (xas.node == Bounds ==> entry == Empty)
    ensures entry != Empty ==> Found(xas, xas.index, entry) && xas.OnEntry()
    ensures entry == Empty && !xas.node.At? ==> NoneIn(Stock(xas.xa), xas.index, max + 1)
    ensures entry == Empty && xas.node.At? ==> Stepping(xas, xas.index)
  {
    hide XArray.Valid, Up;
    if entry == Empty && !xas.node.At? {
      NothingFrom(xas, max);
    }
  }

  /** Without multi-index entries a cursor at a leaf is on the slot of its index. */
  lemma LeafOffset(xas: XaState)
    requires xas.xa.Valid() && xas.Cursor() && xas.node.At?
    ensures xas.node.n.shift == 0 ==> xas.offset == Lo(xas.index)
  {
    hide XArray.Valid;
    UpStart(xas.index);
    xas.xa.OnPathLink(xas.node.n, xas.index);
  }

  /** The offset the search goes on from; a cursor left inside a multi-index entry is moved to its index first. */
  function Resume(shift: nat, index: nat, offset: nat): nat
  {
    if shift == 0 && offset != Lo(index) then (if index == 0 then CHUNK_SIZE else Lo(index - 1) + 1) else offset
  }

  /** What xas_find() leaves behind when it searches from `start`. */
  ghost predicate Searched(xas: XaState, start: nat, max: nat, entry: Slot)
    reads xas`index, xas`offset, xas`node, xas.xa`height, xas.xa`head, xas.xa`nodes, xas.xa`contents,
          if xas.node.At? then {xas.node.n} else {}
  {
    if entry == Empty then NoneIn(Stock(xas.xa), start, max + 1)
    else entry.Stored? && Found(xas, start, entry) && xas.index <= max && xas.Cursor() && xas.OnEntry()
  }

  /** xas_find() */
  method Find(xas: XaState, max: nat) returns (entry: Slot)
    requires xas.xa.Valid() && xas.Cursor() && max < WORD && xas.Resting()
    modifies xas`offset, xas`index, xas`node
    ensures entry == Empty || entry.Stored?
    ensures old(xas.node).Error? || old(xas.node) == Bounds ==> entry == Empty && xas.node == old(xas.node)
    ensures !old(xas.node).Error? && old(xas.node) != Bounds ==>
      !xas.node.Error? &&
      Searched(xas, if old(xas.node) == Restart then old(xas.index) else old(xas.index) + 1, max, entry)
  {
    hide XArray.Valid, Base, Up, Phase, Scanning, NoneIn, XaState.Landed;
    ghost var start := if xas.node == Restart then xas.index else xas.index + 1;
    if xas.node.Error? || xas.node == Bounds {
      return Empty;
    }
    if xas.index > max {
      NonePast(xas.xa, start, max);
      xas.node := Bounds;
      return Empty;
    }
    if xas.node == Top {
      HeadAlone(xas.xa, max);
      xas.index := 1;
      xas.node := Bounds;
      return Empty;
    }
    if xas.node == Restart {
      entry := xas.Load();
      LoadedFind(xas, entry, max);
      if entry != Empty || !xas.node.At? {
        return;
      }
    } else {
      LeafOffset(xas);
      xas.offset := Resume(xas.node.n.shift, xas.index, xas.offset);
    }
    StartScan(xas, xas.node.n, start);
    entry := Scan(xas, max, start);
  }

  /** xas_next_entry() leaves these to xas_find(). */
  predicate Hard(xas: XaState)
    reads xas`index, xas`offset, xas`node, if xas.node.At? then {xas.node.n} else {}
  {
    !xas.node.At? || xas.node.n.shift != 0 || xas.offset != Lo(xas.index)
  }

  /** The slot next to that of the cursor, in the same leaf. */
  lemma NextSlot(xas: XaState, n: Node)
    requires xas.xa.Valid() && xas.Cursor() && xas.node == At(n) && n.level == 0 && xas.offset < CHUNK_SIZE - 1
    ensures xas.offset + 1 < |n.slots| && OnPath(xas.xa.nodes, n, xas.index + 1, 0)
    ensures Lo(xas.index + 1) == xas.offset + 1
    ensures !n.slots[xas.offset + 1].Child? && Up(xas.index + 1, 0) == xas.index + 1
    ensures n.slots[xas.offset + 1] == EntryAt(Stock(xas.xa), xas.index + 1)
  {
    hide XArray.Valid;
    UpStart(xas.index);
    UpStart(xas.index + 1);
    assert Up(xas.index, 1) == Hi(Up(xas.index, 0)) && Up(xas.index + 1, 1) == Hi(Up(xas.index + 1, 0));
    xas.xa.PathParts(n, xas.index + 1);
    xas.xa.LeafEntry(n, xas.index + 1);
  }

  lemma NoneNext(stock: map<nat, Entry>, s: nat, i: nat)
    requires NoneIn(stock, s, i) && EntryAt(stock, i) == Empty
    ensures NoneIn(stock, s, i + 1)
  {
  }

  lemma SearchedFrom(xas: XaState, start: nat, from: nat, max: nat, entry: Slot)
    requires Searched(xas, from, max, entry) && NoneIn(Stock(xas.xa), start, from) && start <= from
    ensures Searched(xas, start, max, entry)
  {
  }

  /** One step of the fast path of xas_next_entry(). */
  method Hop(xas: XaState, n: Node, ghost start: nat) returns (entry: Slot)
    requires xas.xa.Valid() && xas.Cursor() && xas.node == At(n) && n.level == 0 && xas.offset < CHUNK_SIZE - 1
    requires xas.index + 1 < WORD && start <= xas.index + 1 && NoneIn(Stock(xas.xa), start, xas.index + 1)
    modifies xas`offset, xas`index
    ensures entry == EntryAt(Stock(xas.xa), old(xas.index) + 1)
    ensures entry == Stored(Zero) ==> xas.offset == old(xas.offset) && xas.index == old(xas.index)
    ensures entry != Stored(Zero) ==>
      && xas.Cursor() && xas.index == old(xas.index) + 1
      && (if entry == Empty then NoneIn(Stock(xas.xa), start, xas.index + 1) else Found(xas, start, entry))
  {
    hide XArray.Valid, NoneIn, Up;
    NextSlot(xas, n);
    entry := n.slots[xas.offset + 1];
    if entry == Stored(Zero) {
      return;
    }
    if entry == Empty {
      NoneNext(Stock(xas.xa), start, xas.index + 1);
    }
    xas.offset := xas.offset + 1;
    xas.index := xas.index + 1;
  }

  /** xas_next_entry(): the fast path within a leaf finds what xas_find() would. */
  method NextEntry(xas: XaState, max: nat) returns (entry: Slot)
    requires xas.xa.Valid() && xas.Cursor() && max < WORD && xas.Resting()
    modifies xas`offset, xas`index, xas`node
    ensures entry == Empty || entry.Stored?
    ensures old(xas.node).Error? || old(xas.node) == Bounds ==> entry == Empty && xas.node == old(xas.node)
    ensures !old(xas.node).Error? && old(xas.node) != Bounds ==>
      !xas.node.Error? &&
      Searched(xas, if old(xas.node) == Restart then old(xas.index) else old(xas.index) + 1, max, entry)
  {
    hide XArray.Valid, NoneIn, Up;
    if Hard(xas) {
      entry := Find(xas, max);
      return;
    }
    var n := xas.node.n;
    ghost var start := xas.index + 1;
    xas.xa.OnPathLink(n, xas.index);
    StartNone(Stock(xas.xa), start);
    entry := Empty;
    while entry == Empty
      invariant xas.Cursor() && xas.node == At(n) && start <= xas.index + 1 && (entry == Empty || entry.Stored?)
      invariant if entry == Empty then NoneIn(Stock(xas.xa), start, xas.index + 1)
                else Found(xas, start, entry) && xas.index <= max
      decreases if xas.index <= max then max - xas.index else 0, if entry == Empty then 1 else 0
    {
      ghost var from := xas.index + 1;
      if xas.index >= max || xas.offset == CHUNK_SIZE - 1 {
        entry := Find(xas, max);
        SearchedFrom(xas, start, from, max, entry);
        return;
      }
      var next := Hop(xas, n, start);
      if next == Stored(Zero) {
        entry := Find(xas, max);
        SearchedFrom(xas, start, from, max, entry);
        return;
      }
      entry := next;
    }
  }

  lemma StartNone(stock: map<nat, Entry>, s: nat)
    ensures NoneIn(stock, s, s)
  {
  }
}
