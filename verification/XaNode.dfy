/**
 The nodes of an XArray, their slots, counts and mark bits, and what each of these should be for given contents.
 */
module XaNodes {
  import opened Chunks

  /** What a user stores: a value entry, a pointer, or the zero entry that only reserves its index. */
  datatype Entry = Value(v: nat) | Pointer(p: nat) | Zero

  /** What a slot holds. The retry entry is for readers of a node that is being freed. */
  datatype Slot = Empty | Stored(entry: Entry) | Child(node: Node) | Retry

  /** Where a node is in the tree: its level above the leaves, and the high digits shared by all indices below it. */
  datatype Pos = Pos(level: nat, chunk: nat)

  const MAX_MARKS: nat := 3
  const FREE_MARK: nat := 0

  /** The set of marked indices, for each mark. */
  type Tags = seq<iset<nat>>

  /** How many slots are in use. */
  function Used(slots: seq<Slot>): nat
  {
    if slots == [] then 0 else Used(slots[1..]) + if slots[0] == Empty then 0 else 1
  }

  /** xa_is_value() as a number. */
  function ValueIn(x: Slot): nat
  {
    if x.Stored? && x.entry.Value? then 1 else 0
  }

  /** How many slots hold value entries. */
  function Values(slots: seq<Slot>): nat
  {
    if slots == [] then 0 else Values(slots[1..]) + ValueIn(slots[0])
  }

  /** What slot `k` of level `l` holds in a tree with these nodes and contents. */
  ghost function SlotSpec(nodes: map<Pos, Node>, contents: map<nat, Entry>, l: nat, k: nat): Slot
  {
    if l == 0 then
      if k in contents then Stored(contents[k]) else Empty
    else
      if Pos(l - 1, k) in nodes then Child(nodes[Pos(l - 1, k)]) else Empty
  }

  /** The slots of the node at `q` are right. */
  ghost predicate SlotVals(slots: seq<Slot>, q: Pos, nodes: map<Pos, Node>, contents: map<nat, Entry>)
  {
    |slots| == CHUNK_SIZE &&
    forall o :: 0 <= o < CHUNK_SIZE ==> slots[o] == SlotSpec(nodes, contents, q.level, Cat(q.chunk, o))
  }

  lemma SlotsLength(slots: seq<Slot>, q: Pos, nodes: map<Pos, Node>, contents: map<nat, Entry>)
    requires SlotVals(slots, q, nodes, contents)
    ensures |slots| == CHUNK_SIZE
  {
  }

  /** A bit of the node at `q` is set exactly if some index below its slot carries the mark. */
  ghost predicate MarkBits(marks: seq<seq<bool>>, q: Pos, t: Tags)
  {
    && |t| == MAX_MARKS == |marks|
    && (forall m :: 0 <= m < MAX_MARKS ==> |marks[m]| == CHUNK_SIZE)
    && forall m, o :: 0 <= m < MAX_MARKS && 0 <= o < CHUNK_SIZE ==>
         (marks[m][o] <==> Any(t[m], q.level, Cat(q.chunk, o)))
  }

  function Insert(t: Tags, m: nat, i: nat): Tags
    requires m < |t|
  {
    t[m := t[m] + iset{i}]
  }

  function Remove(t: Tags, m: nat, i: nat): Tags
    requires m < |t|
  {
    t[m := t[m] - iset{i}]
  }

  /** Marks below `k` of index `i` put to rest: the free mark set if it tracks free indices, the others clear. */
  function ResetBelow(t: Tags, k: nat, i: nat, trackFree: bool): (r: Tags)
    requires k <= |t|
    ensures |r| == |t|
    ensures forall m :: 0 <= m < |t| ==>
              r[m] == if m >= k then t[m] else if trackFree && m == FREE_MARK then t[m] + iset{i} else t[m] - iset{i}
  {
    if k == 0 then t
    else
      var s := ResetBelow(t, k - 1, i, trackFree);
      if trackFree && k - 1 == FREE_MARK then Insert(s, k - 1, i) else Remove(s, k - 1, i)
  }

  /** The marks after a store of `x`. */
  function TagsAfter(t: Tags, i: nat, x: Slot, trackFree: bool): Tags
    requires |t| == MAX_MARKS
  {
    if x == Empty then ResetBelow(t, MAX_MARKS, i, trackFree)
    else if trackFree then Remove(t, FREE_MARK, i) else t
  }

  /** The marks after a successful exchange from `curr` to `x`. */
  function TagsExchanged(t: Tags, i: nat, curr: Slot, x: Slot, trackFree: bool): Tags
    requires |t| == MAX_MARKS
  {
    if x == Empty then ResetBelow(t, MAX_MARKS, i, trackFree)
    else if trackFree && curr == Empty then Remove(t, FREE_MARK, i) else t
  }

  /** What a store does to marks: with NULL the index is put to rest, with an entry it keeps its marks but for the free
      mark, and no other index is touched. */
  lemma TagsAfterMeans(t: Tags, i: nat, x: Slot, trackFree: bool)
    requires |t| == MAX_MARKS
    ensures |TagsAfter(t, i, x, trackFree)| == 3
    ensures forall m, j: nat :: 0 <= m < 3 ==>
      (j in TagsAfter(t, i, x, trackFree)[m] <==>
         if j != i then j in t[m]
         else if x == Empty then trackFree && m == 0
         else i in t[m] && !(trackFree && m == 0))
  {
  }

  /** What an exchange does to marks: the same, but over an entry even the free mark is left alone. */
  lemma TagsExchangedMeans(t: Tags, i: nat, curr: Slot, x: Slot, trackFree: bool)
    requires |t| == MAX_MARKS
    ensures |TagsExchanged(t, i, curr, x, trackFree)| == 3
    ensures forall m, j: nat :: 0 <= m < 3 ==>
      (j in TagsExchanged(t, i, curr, x, trackFree)[m] <==>
         if j != i then j in t[m]
         else if x == Empty then trackFree && m == 0
         else i in t[m] && !(trackFree && m == 0 && curr == Empty))
  {
  }

  /** The count of a node is the number of slots in use. */
  lemma {:induction false} UsedExact(slots: seq<Slot>)
    ensures Used(slots) == |set o | 0 <= o < |slots| && slots[o] != Empty|
  {
    var used := set o | 0 <= o < |slots| && slots[o] != Empty;
    if slots == [] {
      assert used == {};
    } else {
      var rest, last := slots[..|slots| - 1], |slots| - 1;
      UsedExact(rest);
      CountsLast(slots);
      var fewer := set o | 0 <= o < |rest| && rest[o] != Empty;
      assert used == fewer + if slots[last] == Empty then {} else {last};
    }
  }

  /** And its count of values is the number of slots with value entries. */
  lemma {:induction false} ValuesExact(slots: seq<Slot>)
    ensures Values(slots) == |set o | 0 <= o < |slots| && slots[o].Stored? && slots[o].entry.Value?|
  {
    var values := set o | 0 <= o < |slots| && slots[o].Stored? && slots[o].entry.Value?;
    if slots == [] {
      assert values == {};
    } else {
      var rest, last := slots[..|slots| - 1], |slots| - 1;
      ValuesExact(rest);
      CountsLast(slots);
      var fewer := set o | 0 <= o < |rest| && rest[o].Stored? && rest[o].entry.Value?;
      assert values == fewer + if slots[last].Stored? && slots[last].entry.Value? then {last} else {};
    }
  }

  lemma {:induction false} CountsLast(slots: seq<Slot>)
    requires slots != []
    ensures var rest, x := slots[..|slots| - 1], slots[|slots| - 1];
      && Used(slots) == Used(rest) + (if x == Empty then 0 else 1) && Values(slots) == Values(rest) + ValueIn(x)
  {
    if |slots| > 1 {
      CountsLast(slots[1..]);
      assert slots[1..][..|slots| - 2] == slots[..|slots| - 1][1..];
    }
  }

  lemma BitsInsert(marks: seq<seq<bool>>, q: Pos, t: Tags, m: nat, i: nat)
    requires MarkBits(marks, q, t) && m < MAX_MARKS
    requires Up(i, q.level + 1) == q.chunk
    ensures MarkBits(marks[m := marks[m][Lo(Up(i, q.level)) := true]], q, Insert(t, m, i))
  {
    UpStep(i, q.level);
    forall o | 0 <= o < CHUNK_SIZE
      ensures Any(t[m] + iset{i}, q.level, Cat(q.chunk, o)) <==>
              Any(t[m], q.level, Cat(q.chunk, o)) || o == Lo(Up(i, q.level))
    {
      AnyInsert(t[m], i, q.level, Cat(q.chunk, o));
      HiLoCat(q.chunk, o);
    }
  }

  /** Marking `i` changes no bit of a node that is not above `i`, or whose bit for `i` is already set. */
  lemma BitsInsertSame(marks: seq<seq<bool>>, q: Pos, t: Tags, m: nat, i: nat)
    requires MarkBits(marks, q, t) && m < MAX_MARKS
    requires Up(i, q.level + 1) != q.chunk || Any(t[m], q.level, Up(i, q.level))
    ensures MarkBits(marks, q, Insert(t, m, i))
  {
    UpStep(i, q.level);
    forall o | 0 <= o < CHUNK_SIZE
      ensures Any(t[m] + iset{i}, q.level, Cat(q.chunk, o)) <==> Any(t[m], q.level, Cat(q.chunk, o))
    {
      AnyInsert(t[m], i, q.level, Cat(q.chunk, o));
      HiLoCat(q.chunk, o);
    }
  }

  /** An array flag is set exactly if some index the head covers carries the mark. */
  ghost predicate FlagVals(flags: seq<bool>, height: nat, t: Tags)
  {
    |t| == MAX_MARKS == |flags| && forall m :: 0 <= m < MAX_MARKS ==> (flags[m] <==> Any(t[m], height, 0))
  }

  lemma BitOnPath(marks: seq<seq<bool>>, q: Pos, t: Tags, m: nat, i: nat)
    requires MarkBits(marks, q, t) && m < MAX_MARKS && Up(i, q.level + 1) == q.chunk
    ensures |marks| == MAX_MARKS && |marks[m]| == CHUNK_SIZE == |marks[m]|
    ensures marks[m][Lo(Up(i, q.level))] <==> Any(t[m], q.level, Up(i, q.level))
  {
    UpStep(i, q.level);
  }

  lemma FlagsInsert(flags: seq<bool>, height: nat, t: Tags, m: nat, i: nat)
    requires FlagVals(flags, height, t) && m < MAX_MARKS && Up(i, height) == 0
    ensures FlagVals(flags[m := true], height, Insert(t, m, i))
  {
    AnyInsert(t[m], i, height, 0);
  }

  lemma FlagsRemove(flags: seq<bool>, height: nat, t: Tags, m: nat, i: nat, b: bool)
    requires FlagVals(flags, height, t) && m < MAX_MARKS
    requires b == Any(t[m] - iset{i}, height, 0)
    ensures FlagVals(flags[m := b], height, Remove(t, m, i))
  {
  }

  lemma BitOfFlag(flags: seq<bool>, height: nat, t: Tags, m: nat)
    requires FlagVals(flags, height, t) && m < MAX_MARKS
    ensures |t| == MAX_MARKS == |flags| && (flags[m] <==> Any(t[m], height, 0))
    ensures flags[m := flags[m]] == flags
  {
  }

  lemma BitsRemove(marks: seq<seq<bool>>, q: Pos, t: Tags, m: nat, i: nat)
    requires MarkBits(marks, q, t) && m < MAX_MARKS
    requires Up(i, q.level + 1) == q.chunk && !Any(t[m] - iset{i}, q.level, Up(i, q.level))
    ensures MarkBits(marks[m := marks[m][Lo(Up(i, q.level)) := false]], q, Remove(t, m, i))
  {
    UpStep(i, q.level);
    forall o | 0 <= o < CHUNK_SIZE
      ensures Any(t[m] - iset{i}, q.level, Cat(q.chunk, o)) <==>
              Any(t[m], q.level, Cat(q.chunk, o)) && o != Lo(Up(i, q.level))
    {
      AnyRemove(t[m], i, q.level, Cat(q.chunk, o));
      HiLoCat(q.chunk, o);
    }
  }

  /** Unmarking `i` changes no bit of a node not above `i`, or with another marked index in the slot of `i`. */
  lemma BitsRemoveSame(marks: seq<seq<bool>>, q: Pos, t: Tags, m: nat, i: nat)
    requires MarkBits(marks, q, t) && m < MAX_MARKS
    requires Up(i, q.level + 1) != q.chunk || Any(t[m] - iset{i}, q.level, Up(i, q.level))
    ensures MarkBits(marks, q, Remove(t, m, i))
  {
    UpStep(i, q.level);
    forall o | 0 <= o < CHUNK_SIZE
      ensures Any(t[m] - iset{i}, q.level, Cat(q.chunk, o)) <==> Any(t[m], q.level, Cat(q.chunk, o))
    {
      AnyRemove(t[m], i, q.level, Cat(q.chunk, o));
      HiLoCat(q.chunk, o);
    }
  }

  /** node_any_mark() */
  predicate AnyBit(bits: seq<bool>) { true in bits }

  lemma AnyBitMeaning(marks: seq<seq<bool>>, q: Pos, t: Tags, m: nat)
    requires MarkBits(marks, q, t) && m < MAX_MARKS
    ensures |marks| == MAX_MARKS
    ensures AnyBit(marks[m]) <==> Any(t[m], q.level + 1, q.chunk)
  {
    AnySlot(t[m], q.level, q.chunk);
    if AnyBit(marks[m]) {
      var o :| 0 <= o < |marks[m]| && marks[m][o];
      assert Any(t[m], q.level, Cat(q.chunk, o));
    }
    if o :| 0 <= o < CHUNK_SIZE && Any(t[m], q.level, Cat(q.chunk, o)) {
      assert marks[m][o];
    }
  }

  lemma UsedUpdate(slots: seq<Slot>, o: nat, x: Slot)
    requires o < |slots|
    ensures Used(slots[o := x]) + (if slots[o] == Empty then 0 else 1) == Used(slots) + (if x == Empty then 0 else 1)
    ensures Values(slots[o := x]) + ValueIn(slots[o]) == Values(slots) + ValueIn(x)
  {
    if o != 0 {
      assert slots[o := x][1..] == slots[1..][o - 1 := x];
      UsedUpdate(slots[1..], o - 1, x);
    } else {
      assert slots[o := x][1..] == slots[1..];
    }
  }

  lemma {:induction false} UsedZero(slots: seq<Slot>)
    ensures Used(slots) == 0 <==> forall o :: 0 <= o < |slots| ==> slots[o] == Empty
  {
    if slots != [] {
      UsedZero(slots[1..]);
      if slots[0] == Empty {
        assert forall o :: 1 <= o < |slots| ==> slots[o] == slots[1..][o - 1];
      }
      if forall o :: 0 <= o < |slots| ==> slots[o] == Empty {
        assert forall o :: 0 <= o < |slots[1..]| ==> slots[1..][o] == slots[o + 1];
      }
    }
  }

  /** A node with one used slot, slot 0, has nothing anywhere else. */
  lemma UsedOne(slots: seq<Slot>)
    requires slots != [] && slots[0] != Empty
    ensures Used(slots) == 1 <==> forall o :: 1 <= o < |slots| ==> slots[o] == Empty
  {
    UsedZero(slots[1..]);
    assert forall o :: 1 <= o < |slots| ==> slots[o] == slots[1..][o - 1];
    assert forall o :: 0 <= o < |slots[1..]| ==> slots[1..][o] == slots[o + 1];
  }

  /** The slots of a node after the node `n` has been hung at `c`. */
  ghost function WithChild(slots: seq<Slot>, q: Pos, c: Pos, x: Slot): seq<Slot>
    requires |slots| == CHUNK_SIZE
  {
    if q == Pos(c.level + 1, Hi(c.chunk)) then slots[Lo(c.chunk) := x] else slots
  }

  lemma SlotsAdd(slots: seq<Slot>, q: Pos, nodes: map<Pos, Node>, contents: map<nat, Entry>, c: Pos, n: Node)
    requires SlotVals(slots, q, nodes, contents)
    ensures SlotVals(WithChild(slots, q, c, Child(n)), q, nodes[c := n], contents)
  {
    forall o | 0 <= o < CHUNK_SIZE
      ensures WithChild(slots, q, c, Child(n))[o] == SlotSpec(nodes[c := n], contents, q.level, Cat(q.chunk, o))
    {
      HiLoCat(q.chunk, o);
      CatHiLo(c.chunk);
    }
  }

  lemma SlotsDrop(slots: seq<Slot>, q: Pos, nodes: map<Pos, Node>, contents: map<nat, Entry>, c: Pos)
    requires SlotVals(slots, q, nodes, contents)
    ensures SlotVals(WithChild(slots, q, c, Empty), q, nodes - {c}, contents)
  {
    forall o | 0 <= o < CHUNK_SIZE
      ensures WithChild(slots, q, c, Empty)[o] == SlotSpec(nodes - {c}, contents, q.level, Cat(q.chunk, o))
    {
      HiLoCat(q.chunk, o);
      CatHiLo(c.chunk);
    }
  }

  /** The contents after storing slot value `x` at index `i`. */
  function Update(contents: map<nat, Entry>, i: nat, x: Slot): map<nat, Entry>
    requires x == Empty || x.Stored?
  {
    if x.Stored? then contents[i := x.entry] else contents - {i}
  }

  lemma SlotsPut(slots: seq<Slot>, q: Pos, nodes: map<Pos, Node>, contents: map<nat, Entry>, i: nat, x: Slot)
    requires SlotVals(slots, q, nodes, contents) && (x == Empty || x.Stored?)
    ensures SlotVals(if q == Pos(0, Hi(i)) then slots[Lo(i) := x] else slots, q, nodes, Update(contents, i, x))
  {
    var slots' := if q == Pos(0, Hi(i)) then slots[Lo(i) := x] else slots;
    forall o | 0 <= o < CHUNK_SIZE
      ensures slots'[o] == SlotSpec(nodes, Update(contents, i, x), q.level, Cat(q.chunk, o))
    {
      HiLoCat(q.chunk, o);
      CatHiLo(i);
    }
  }

  function Blank(): seq<Slot> { seq(CHUNK_SIZE, _ => Empty) }

  function Unmarked(): seq<seq<bool>> { seq(MAX_MARKS, _ => seq(CHUNK_SIZE, _ => false)) }

  /** struct xa_node. Its position is ghost state, set when it is hung into the tree. */
  class Node {
    var shift: nat
    var offset: nat
    var count: nat
    var nrValues: nat
    var parent: Node?
    var slots: seq<Slot>
    var marks: seq<seq<bool>>
    ghost var level: nat
    ghost var chunk: nat

    /** A zeroed node, as the slab constructor and the freeing side leave it. */
    constructor ()
      ensures slots == Blank() && marks == Unmarked()
    {
      shift, offset, count, nrValues, parent := 0, 0, 0, 0, null;
      slots, marks := Blank(), Unmarked();
    }

    /** The shift, the parent and the offset are those of the position `q`. */
    ghost predicate Linked(q: Pos, height: nat, nodes: map<Pos, Node>)
      reads this`level, this`chunk, this`shift, this`offset, this`parent
    {
      && level == q.level < height
      && chunk == q.chunk
      && shift == ShiftOf(q.level)
      && (q.level + 1 == height ==> q.chunk == 0 && parent == null)
      && (q.level + 1 < height ==>
            && Pos(q.level + 1, Hi(q.chunk)) in nodes
            && parent == nodes[Pos(q.level + 1, Hi(q.chunk))]
            && offset == Lo(q.chunk))
    }
  }
}
