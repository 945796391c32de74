/**
  The array object: the head, the flags and, as ghost state, the tree and the plain map it stands for.  The methods
  are the assignments that change the tree, each shown to keep it right.
 */
module XArrays {
  import opened Chunks
  import opened Numbers
  import opened XaNodes
  import opened XaTree

  /** struct xarray. `trackFree` and `zeroBusy` are XA_FLAGS_TRACK_FREE and XA_FLAGS_ZERO_BUSY. */
  class XArray {
    const trackFree: bool
    const zeroBusy: bool
    var head: Slot
    var flags: seq<bool>
    var allocWrapped: bool

    /** The number of levels of nodes, and the nodes by position. */
    ghost var height: nat
    ghost var nodes: map<Pos, Node>
    /** The plain map and the marked indices that the array stands for. */
    ghost var contents: map<nat, Entry>
    ghost var tags: Tags

    /** The nodes the slab has handed out for this array and not got back. */
    ghost var live: set<Node>

    /** How often the slab had no memory for this array. */
    ghost var failures: nat

    /** xa_init_flags() with XA_FLAGS_ALLOC, XA_FLAGS_ALLOC1 or neither */
    constructor (trackFree: bool, zeroBusy: bool)
      requires zeroBusy ==> trackFree
      ensures this.trackFree == trackFree && this.zeroBusy == zeroBusy && !allocWrapped
      ensures Valid() && Canonical() && live == {} && nodes == map[] && height == 0 && head == Empty && failures == 0
      ensures contents == Nothing(zeroBusy) && tags == Clean(trackFree, zeroBusy)
      ensures contents == (if zeroBusy then map[0 := Zero] else map[]) && |tags| == 3
      ensures forall m, i: nat :: 0 <= m < 3 ==> (i in tags[m] <==> trackFree && m == 0 && !(zeroBusy && i == 0))
      ensures flags == [trackFree && !zeroBusy, false, false]
    {
      this.trackFree, this.zeroBusy := trackFree, zeroBusy;
      head, allocWrapped := Empty, false;
      flags := seq(MAX_MARKS, m => trackFree && !zeroBusy && m == FREE_MARK);
      height, nodes, contents, tags, live, failures := 0, map[], Nothing(zeroBusy), Clean(trackFree, zeroBusy), {}, 0;
      new;
      CleanParts(trackFree, zeroBusy);
      CleanMeans(trackFree, zeroBusy);
      CleanFlags(flags, trackFree, zeroBusy);
      NoNodes(tags, contents);
    }

    /** Everything but the counts. */
    ghost predicate Sound()
      reads this`head, this`flags, this`height, this`nodes, this`contents, this`tags
      reads nodes.Values`level, nodes.Values`chunk, nodes.Values`shift, nodes.Values`offset, nodes.Values`parent
      reads nodes.Values`slots, nodes.Values`marks
    {
      && (zeroBusy ==> trackFree)
      && HeadVals(head, height, nodes, contents, zeroBusy)
      && LinksIn(nodes, height)
      && SlotsIn(nodes, contents)
      && MarksIn(nodes, tags)
      && FlagVals(flags, height, tags)
      && CoveredBy(contents, height, nodes)
      && Rested(contents, tags, trackFree)
    }

    /** The tree is that of its contents and marks, in every node and slot. */
    ghost predicate Valid()
      reads this`head, this`flags, this`height, this`nodes, this`contents, this`tags, nodes.Values
    {
      Sound() && CountsIn(nodes, null, 0, 0)
    }

    /** No node is empty and the root is tight: the shape of an array that never failed to allocate a node and
        never held a reserved entry. */
    ghost predicate Canonical()
      reads this`height, this`nodes, nodes.Values`count, nodes.Values`slots
    {
      NoEmpty(nodes, null) && Tight(nodes, height)
    }

    /** The shape is right but for the way to index `i`, which is being made or was left unfinished. */
    ghost predicate Halfway(i: nat)
      reads this`height, this`nodes, nodes.Values`count, nodes.Values`slots
    {
      OnWay(nodes, i) && Firm(nodes, height, i)
    }

    /** A canonical array is on the way to anywhere. */
    lemma CanonicalHalfway(i: nat)
      requires Valid() && Canonical()
      ensures Halfway(i)
    {
    }

    lemma AboveHead()
      requires Valid()
      ensures Pos(height, 0) !in nodes
    {
      if Pos(height, 0) in nodes {
        BelowHeight(nodes, height, Pos(height, 0));
      }
    }

    /** The comparison with max_index() decides whether the tree reaches index `i`. */
    lemma ReachFacts(top: Slot, i: nat)
      requires Valid() && i < WORD && top != Empty && top == SlotSpec(nodes, contents, height, 0)
      ensures top.Child? <==> height > 0
      ensures top.Child? ==> top.node.shift == ShiftOf(height - 1) && Pos(height - 1, 0) in nodes
                             && nodes[Pos(height - 1, 0)] == top.node && top == head
      ensures i > (if top.Child? then MaxIndex(top.node.shift) else 0) <==> Up(i, height) != 0
      ensures Up(i, height) != 0 ==> ShiftOf(height) <= 60 && Up(i, height + 1) < Up(i, height)
    {
      hide LinksIn, SlotsIn, CountsIn, MarksIn, HeadVals, FlagVals, CoveredBy, Rested, SlotSpec;
      HeadFacts(head, height, nodes, contents, zeroBusy);
      HeadEntry(head, height, nodes, contents, zeroBusy);
      if height > 0 {
        MaxIndexReach(i, height - 1);
      }
      if Up(i, height) != 0 {
        ReachShift(i, height);
      }
    }

    lemma SlotUnused(i: nat, l: nat)
      requires Valid() && 0 < l < height && SlotSpec(nodes, contents, l, Up(i, l)) == Empty
      ensures Pos(l - 1, Up(i, l)) !in nodes && ShiftOf(l - 1) <= 60
    {
    }

    lemma TreeParts()
      requires Valid()
      ensures LinksIn(nodes, height) && SlotsIn(nodes, contents)
    {
    }

    /** The head of the array, by height. */
    lemma HeadParts()
      requires Valid()
      ensures height == 0 ==> head == EntryAt(contents, 0) || Implied()
      ensures Implied() ==> zeroBusy && contents[0] == Zero
      ensures height == 0 ==> SlotSpec(nodes, contents, 0, 0) == EntryAt(contents, 0)
      ensures height > 0 ==>
        && Pos(height - 1, 0) in nodes && head == Child(nodes[Pos(height - 1, 0)])
        && nodes[Pos(height - 1, 0)].level == height - 1
        && SlotSpec(nodes, contents, height, 0) == head
    {
      hide LinksIn, SlotsIn, CountsIn, MarksIn, FlagVals, CoveredBy, Rested;
      HeadFacts(head, height, nodes, contents, zeroBusy);
    }

    /** What a cursor on node `n` sees. */
    lemma PathParts(n: Node, i: nat)
      requires Valid() && OnPath(nodes, n, i, n.level)
      ensures n.level < height && n.shift == ShiftOf(n.level) && |n.slots| == CHUNK_SIZE && n in nodes.Values
      ensures n.slots[Lo(Up(i, n.level))] == SlotSpec(nodes, contents, n.level, Up(i, n.level))
    {
      hide SlotVals, SlotSpec;
      NodeFacts(nodes, height, contents, Pos(n.level, Up(i, n.level + 1)));
      UpStep(i, n.level);
    }

    /** Where a cursor on node `n` is. */
    lemma OnPathLink(n: Node, i: nat)
      requires Valid() && OnPath(nodes, n, i, n.level)
      ensures Pos(n.level, n.chunk) in nodes && nodes[Pos(n.level, n.chunk)] == n && n.chunk == Up(i, n.level + 1)
      ensures n.shift == ShiftOf(n.level) && n.level < height && |n.slots| == CHUNK_SIZE
    {
      hide SlotVals, SlotSpec;
      LinkFacts(nodes, height, Pos(n.level, Up(i, n.level + 1)));
      PathParts(n, i);
    }

    lemma ValidMarks(q: Pos)
      requires Valid() && q in nodes
      ensures MarkBits(nodes[q].marks, q, tags)
    {
      RootMarks(nodes, tags, q);
    }

    /** An index that holds nothing carries the free mark in an array that tracks free indices, and no other. */
    lemma RestMark(i: nat, m: nat)
      requires Valid() && i !in contents && m < MAX_MARKS
      ensures |tags| == MAX_MARKS && (i in tags[m] <==> trackFree && m == FREE_MARK)
    {
    }

    lemma ShiftBound(l: nat)
      requires Valid() && l < height
      ensures ShiftOf(l) <= 60
    {
      HeadFacts(head, height, nodes, contents, zeroBusy);
    }

    lemma HeadFlag(m: nat)
      requires Valid() && m < MAX_MARKS
      ensures |tags| == MAX_MARKS == |flags| && (flags[m] <==> Any(tags[m], height, 0))
    {
    }

    /** What is stored but does not show is the implied reservation of index 0. */
    lemma HiddenZero(i: nat)
      requires Valid() && i in contents && Raw(i) == Empty
      ensures i == 0 && Implied() && zeroBusy && contents[0] == Zero
    {
      UpStart(i);
    }

    lemma OnPathReach(n: Node, i: nat)
      requires Valid() && OnPath(nodes, n, i, n.level)
      ensures Up(i, height) == 0
    {
      PathTop(nodes, height, i, n.level);
    }

    lemma FlagRule()
      requires Valid()
      ensures zeroBusy ==> trackFree
    {
    }

    /** Above every stored index there is a node at each level. */
    lemma StoredPath(i: nat, l: nat)
      requires Valid() && i in contents && l < height
      ensures Pos(l, Up(i, l + 1)) in nodes
    {
      assert Up(i, 1) == Hi(i);
      PathUp(nodes, height, i, 0, l);
    }

    lemma ValidCounts(q: Pos)
      requires Valid() && q in nodes
      ensures nodes[q].count == Used(nodes[q].slots) && nodes[q].nrValues == Values(nodes[q].slots)
    {
    }

    /** The counts of every node are the numbers of slots in use and of slots with value entries. */
    lemma CountsMean(q: Pos)
      requires Valid() && q in nodes
      ensures var n := nodes[q];
        && n.count == |set o | 0 <= o < |n.slots| && n.slots[o] != Empty|
        && n.nrValues == |set o | 0 <= o < |n.slots| && n.slots[o].Stored? && n.slots[o].entry.Value?|
    {
      hide Valid;
      ValidCounts(q);
      UsedExact(nodes[q].slots);
      ValuesExact(nodes[q].slots);
    }

    lemma RootIn()
      requires Valid()
      ensures height > 0 ==> Pos(height - 1, 0) in nodes
    {
    }

    lemma SoundValid(n: Node)
      requires Sound() && CountsIn(nodes, n, 0, 0)
      ensures Valid()
    {
      CountsNone(nodes, n);
    }

    lemma ValidDistinct(q: Pos)
      requires Valid() && q in nodes
      ensures forall p :: p in nodes && p != q ==> nodes[p] != nodes[q]
    {
      Distinct(nodes, height, q);
    }

    /** A stored index that does not pass through slot 0 of the root makes the root tight. */
    lemma StoredTight(i: nat)
      requires Valid() && i in contents && height > 0 && Up(i, height - 1) != 0
      ensures Tight(nodes, height)
    {
      hide LinksIn, SlotsIn, MarksIn, FlagVals, Rested, SlotVals, CountsIn, Tight, HeadVals;
      HeadFacts(head, height, nodes, contents, zeroBusy);
      var k := Up(i, height - 1);
      PathUp(nodes, height, i, 0, height - 1);
      NodeFacts(nodes, height, contents, Pos(height - 1, 0));
      UpStep(i, height - 1);
      assert Cat(0, Lo(k)) == k && Lo(k) == k;
      if height > 1 {
        PathUp(nodes, height, i, 0, height - 2);
      }
      TightBy(nodes, height, k);
    }

    lemma LeafEntry(n: Node, i: nat)
      requires Valid() && OnPath(nodes, n, i, 0)
      ensures SlotSpec(nodes, contents, 0, Up(i, 0)) == Raw(i) && Up(i, 0) == i
      ensures n.chunk == Up(i, 1)
    {
      LinkFacts(nodes, height, Pos(0, Up(i, 1)));
    }

    lemma EntryCounted(q: Pos, o: nat)
      requires Valid() && q in nodes && o < |nodes[q].slots| && nodes[q].slots[o] != Empty
      ensures nodes[q].count > 0
    {
      SlotCounted(nodes, q, o);
    }

    lemma RawFacts(i: nat)
      requires Valid()
      ensures Raw(i) != Empty ==> i in contents && Raw(i) == Stored(contents[i])
      ensures Raw(i) != EntryAt(contents, i) ==> i == 0 && zeroBusy && Implied() && contents[0] == Zero
      ensures Raw(i) == Empty && !(i == 0 && Implied()) ==> i !in contents
    {
      UpStart(i);
    }

    lemma TagCount()
      requires Valid()
      ensures |tags| == MAX_MARKS == |flags|
    {
    }

    lemma NoNodesLeft()
      requires Valid() && height == 0
      ensures NoEmpty(nodes, null) && Tight(nodes, height)
    {
      TopLinks(nodes, height);
    }

    lemma RestNothing(i: nat)
      requires Valid() && i !in contents
      ensures ResetBelow(tags, MAX_MARKS, i, trackFree) == tags && contents - {i} == contents
    {
      ResetAtRest(contents, tags, i, trackFree);
    }

    lemma ValidLink(q: Pos)
      requires Valid() && q in nodes
      ensures nodes[q].Linked(q, height, nodes) && |nodes[q].slots| == CHUNK_SIZE
    {
      LinkFacts(nodes, height, q);
      NodeFacts(nodes, height, contents, q);
    }

    lemma ValidSlot(q: Pos, o: nat)
      requires Valid() && q in nodes && o < CHUNK_SIZE
      ensures var n := nodes[q];
        && |n.slots| == CHUNK_SIZE && n.level == q.level < height && n.chunk == q.chunk && n.shift == ShiftOf(q.level)
        && n.slots[o] == SlotSpec(nodes, contents, q.level, Cat(q.chunk, o))
        && (n.slots[o].Child? ==>
              && q.level > 0 && Pos(q.level - 1, Cat(q.chunk, o)) in nodes
              && n.slots[o].node == nodes[Pos(q.level - 1, Cat(q.chunk, o))]
              && n.slots[o].node.level == q.level - 1 && n.slots[o].node.chunk == Cat(q.chunk, o))
        && (n.slots[o].Stored? ==> q.level == 0 && Cat(q.chunk, o) in contents
                                   && n.slots[o].entry == contents[Cat(q.chunk, o)])
        && n.slots[o] != Retry
    {
      hide LinksIn, SlotsIn, CountsIn, MarksIn, HeadVals, FlagVals, CoveredBy, Rested, SlotVals;
      NodeFacts(nodes, height, contents, q);
      if nodes[q].slots[o].Child? {
        LinkFacts(nodes, height, Pos(q.level - 1, Cat(q.chunk, o)));
      }
    }

    lemma EmptyBelow(q: Pos, o: nat, i: nat)
      requires Valid() && q in nodes && o < CHUNK_SIZE && |nodes[q].slots| == CHUNK_SIZE && nodes[q].slots[o] == Empty
      requires Up(i, q.level) == Cat(q.chunk, o)
      ensures i !in contents
    {
      hide SlotVals;
      NodeFacts(nodes, height, contents, q);
      EmptySlot(nodes, height, contents, i, q.level);
    }

    /** No place in the tree lies past the reach of the root. */
    lemma PlaceBound(q: Pos, o: nat)
      requires Valid() && q in nodes && o <= CHUNK_SIZE
      ensures Base(q.level, Cat(q.chunk, o)) <= Base(height, 1)
    {
      PlaceWithin(nodes, height, q, o);
    }

    lemma InWord(i: nat)
      requires Valid() && i in contents
      ensures i < WORD && Up(i, height) == 0
    {
    }

    lemma ValidParent(q: Pos)
      requires Valid() && q in nodes
      ensures q.level < height && (nodes[q].parent == null <==> q == Pos(height - 1, 0))
      ensures nodes[q].parent != null ==> nodes[q].parent in nodes.Values
    {
      ParentView(nodes, height, q);
    }

    /** The nodes that are out but not in the tree. */
    ghost function Outside(): set<Node>
      reads this`live, this`nodes
    {
      live - nodes.Values
    }

    /** Index 0 is stored, but there is neither a head nor a node to show it. */
    ghost predicate Implied()
      reads this`height, this`head, this`contents
    {
      height == 0 && head == Empty && 0 in contents
    }

    /** Index 0 should be kept busy but has been erased, and there is no node left to show that. */
    ghost predicate Bare()
      reads this`head, this`contents
    {
      zeroBusy && head == Empty && 0 !in contents
    }

    /** Making room for index `i` treats index 0 right.  While the array has no head, a reservation of index 0 that
        is implied cannot be made explicit, and any other index brings back a reservation that has been erased. */
    ghost predicate ZeroSafe(i: nat, reserving: bool)
      reads this`height, this`head, this`contents
    {
      zeroBusy ==> !(if i == 0 then reserving && Implied() else Bare())
    }

    /** What a slot for index `i` holds, reserved entries included. */
    ghost function Raw(i: nat): Slot
      reads this`height, this`head, this`contents
    {
      if i in contents && !Implied() then Stored(contents[i]) else Empty
    }

    /** kmem_cache_alloc_lru(), which may fail. */
    method Allocate() returns (n: Node?)
      modifies this`live, this`failures
      ensures n == null ==> live == old(live) && failures == old(failures) + 1
      ensures n != null ==>
        failures == old(failures) && fresh(n) && n.slots == Blank() && n.marks == Unmarked() && live == old(live) + {n}
    {
      if * {
        n := new Node();
        live := live + {n};
      } else {
        n := null;
        failures := failures + 1;
      }
    }

    /** xa_node_free(): only a node that is out may be given back. */
    method Free(n: Node)
      requires n in live
      modifies this`live
      ensures live == old(live) - {n}
    {
      live := live - {n};
    }

    /** node_set_mark() on the node above index `i` at level `l`. */
    method RaiseBit(n: Node, o: nat, m: nat, ghost t: Tags, ghost i: nat, ghost l: nat)
      requires |t| == MAX_MARKS && m < MAX_MARKS
      requires LinksIn(nodes, height) && MarksSplit(nodes, Insert(t, m, i), t, l)
      requires OnPath(nodes, n, i, l) && o == Lo(Up(i, l))
      modifies n`marks
      ensures MarksSplit(nodes, Insert(t, m, i), t, l + 1)
    {
      hide MarkBits, LinksIn;
      ghost var q := Pos(l, Up(i, l + 1));
      Distinct(nodes, height, q);
      BitOnPath(n.marks, q, t, m, i);
      BitsInsert(n.marks, q, t, m, i);
      n.marks := n.marks[m := n.marks[m][o := true]];
      forall p | p in nodes && p.level == l && p != q
        ensures MarkBits(nodes[p].marks, p, Insert(t, m, i))
      {
        BitsInsertSame(nodes[p].marks, p, t, m, i);
      }
    }

    /** Mark the entry at `i` and every slot above it, stopping at the first one already marked. */
    method RaiseMarks(start: Node?, startOffset: nat, m: nat, ghost i: nat)
      requires LinksIn(nodes, height) && MarksIn(nodes, tags) && FlagVals(flags, height, tags) && m < MAX_MARKS
      requires if start == null then height == 0 && i == 0 else OnPath(nodes, start, i, 0) && startOffset == Lo(i)
      modifies this`flags, nodes.Values`marks
      ensures MarksIn(nodes, Insert(tags, m, i)) && FlagVals(flags, height, Insert(tags, m, i))
    {
      hide LinksIn, MarksIn, MarksSplit, FlagVals, MarkBits;
      BitOfFlag(flags, height, tags, m);
      ghost var t := Insert(tags, m, i);
      ghost var l := 0;
      var n: Node?, o := start, startOffset;
      if n != null {
        PathTop(nodes, height, i, 0);
      }
      SplitStart(nodes, t, tags);
      while n != null
        invariant n == null ==> l == height
        invariant n != null ==> OnPath(nodes, n, i, l) && o == Lo(Up(i, l))
        invariant MarksSplit(nodes, t, tags, l)
        decreases height - l
        modifies nodes.Values`marks
      {
        ghost var q := Pos(l, Up(i, l + 1));
        ParentFacts(nodes, height, i, l);
        SplitBits(nodes, t, tags, l, q);
        BitOnPath(n.marks, q, tags, m, i);
        if n.marks[m][o] {
          InsertSettled(nodes, tags, m, i, l);
          AnyUpTo(tags[m], i, l, height);
          FlagsInsert(flags, height, tags, m, i);
          BitOfFlag(flags, height, tags, m);
          return;
        }
        RaiseBit(n, o, m, tags, i, l);
        o := n.offset;
        n := n.parent;
        l := l + 1;
      }
      SplitDone(nodes, height, t, tags);
      FlagsInsert(flags, height, tags, m, i);
      if !flags[m] {
        flags := flags[m := true];
      }
    }

    /** node_clear_mark() on the node above index `i` at level `l`, with nothing else marked below that slot. */
    method LowerBit(n: Node, o: nat, m: nat, ghost t: Tags, ghost i: nat, ghost l: nat)
      requires |t| == MAX_MARKS && m < MAX_MARKS
      requires LinksIn(nodes, height) && MarksSplit(nodes, Remove(t, m, i), t, l)
      requires OnPath(nodes, n, i, l) && o == Lo(Up(i, l)) && !Any(t[m] - iset{i}, l, Up(i, l))
      modifies n`marks
      ensures MarksSplit(nodes, Remove(t, m, i), t, l + 1)
      ensures MarkBits(n.marks, Pos(l, Up(i, l + 1)), Remove(t, m, i))
    {
      hide MarkBits, LinksIn;
      ghost var q := Pos(l, Up(i, l + 1));
      Distinct(nodes, height, q);
      BitOnPath(n.marks, q, t, m, i);
      BitsRemove(n.marks, q, t, m, i);
      n.marks := n.marks[m := n.marks[m][o := false]];
      forall p | p in nodes && p.level == l && p != q
        ensures MarkBits(nodes[p].marks, p, Remove(t, m, i))
      {
        BitsRemoveSame(nodes[p].marks, p, t, m, i);
      }
    }

    /** Unmark the entry at `i`, then every slot above it that has lost its last mark. */
    method DropMarks(start: Node?, startOffset: nat, m: nat, ghost i: nat)
      requires LinksIn(nodes, height) && MarksIn(nodes, tags) && FlagVals(flags, height, tags) && m < MAX_MARKS
      requires if start == null then height == 0 && i == 0 else OnPath(nodes, start, i, 0) && startOffset == Lo(i)
      modifies this`flags, nodes.Values`marks
      ensures MarksIn(nodes, Remove(tags, m, i)) && FlagVals(flags, height, Remove(tags, m, i))
    {
      hide LinksIn, MarksIn, MarksSplit, FlagVals, MarkBits;
      BitOfFlag(flags, height, tags, m);
      ghost var t := Remove(tags, m, i);
      ghost var s := tags[m] - iset{i};
      ghost var l := 0;
      var n: Node?, o := start, startOffset;
      if n != null {
        PathTop(nodes, height, i, 0);
      }
      AnyBottom(s, i);
      SplitStart(nodes, t, tags);
      while n != null
        invariant n == null ==> l == height
        invariant n != null ==> OnPath(nodes, n, i, l) && o == Lo(Up(i, l))
        invariant MarksSplit(nodes, t, tags, l) && !Any(s, l, Up(i, l))
        decreases height - l
        modifies nodes.Values`marks
      {
        ghost var q := Pos(l, Up(i, l + 1));
        ParentFacts(nodes, height, i, l);
        SplitBits(nodes, t, tags, l, q);
        BitOnPath(n.marks, q, tags, m, i);
        if !n.marks[m][o] {
          RemoveNothing(nodes, tags, m, i, l);
          return;
        }
        LowerBit(n, o, m, tags, i, l);
        AnyBitMeaning(n.marks, q, t, m);
        if AnyBit(n.marks[m]) {
          RemoveSettled(nodes, tags, m, i, l + 1);
          AnyUpTo(s, i, l + 1, height);
          AnyRemove(tags[m], i, height, 0);
          FlagsRemove(flags, height, tags, m, i, flags[m]);
          return;
        }
        o := n.offset;
        n := n.parent;
        l := l + 1;
      }
      SplitDone(nodes, height, t, tags);
      FlagsRemove(flags, height, tags, m, i, false);
      if flags[m] {
        flags := flags[m := false];
      }
    }

    /** Assign the slot of index `i` in its leaf; the counts of the leaf are left to update_node(). */
    method PutSlot(n: Node, o: nat, x: Slot, ghost i: nat)
      requires LinksIn(nodes, height) && SlotsIn(nodes, contents) && CountsIn(nodes, null, 0, 0)
      requires OnPath(nodes, n, i, 0) && o == Lo(i) && (x == Empty || x.Stored?)
      modifies n`slots, this`contents
      ensures contents == Update(old(contents), i, x) && SlotsIn(nodes, contents)
      ensures |old(n.slots)| == CHUNK_SIZE && n.slots == old(n.slots)[o := x]
      ensures CountsIn(nodes, n, (if x == Empty then 0 else 1) - (if old(n.slots[o]) == Empty then 0 else 1),
                       ValueIn(x) - ValueIn(old(n.slots[o])))
    {
      hide LinksIn, SlotVals;
      ghost var q := Pos(0, Hi(i));
      assert OnPath(nodes, n, i, 0) ==> q in nodes && nodes[q] == n by { assert Up(i, 1) == Hi(i); }
      Distinct(nodes, height, q);
      NodeFacts(nodes, height, contents, q);
      UsedUpdate(n.slots, o, x);
      forall p | p in nodes
        ensures SlotVals(if p == q then n.slots[Lo(i) := x] else nodes[p].slots, p, nodes, Update(contents, i, x))
      {
        SlotsPut(nodes[p].slots, p, nodes, contents, i, x);
      }
      n.slots := n.slots[o := x];
      contents := Update(contents, i, x);
    }
  
    /** The assignment to the parent's slot when a new node is hung at `c`. */
    method LinkChild(n: Node, parent: Node, o: nat, ghost c: Pos)
      requires LinksIn(nodes, height) && SlotsIn(nodes, contents) && CountsIn(nodes, parent, -1, 0)
      requires c !in nodes && o == Lo(c.chunk)
      requires Pos(c.level + 1, Hi(c.chunk)) in nodes && nodes[Pos(c.level + 1, Hi(c.chunk))] == parent
      requires n !in nodes.Values && n.slots == Blank() && n.count == n.nrValues == 0
      requires SlotVals(n.slots, c, nodes[c := n], contents)
      modifies parent`slots
      ensures SlotsIn(nodes[c := n], contents) && CountsIn(nodes[c := n], null, 0, 0)
    {
      hide LinksIn, SlotVals;
      ghost var q := Pos(c.level + 1, Hi(c.chunk));
      Distinct(nodes, height, q);
      BlankCounts(CHUNK_SIZE);
      NodeFacts(nodes, height, contents, q);
      CatHiLo(c.chunk);
      UsedUpdate(parent.slots, o, Child(n));
      forall p | p in nodes
        ensures SlotVals(if p == q then parent.slots[o := Child(n)] else nodes[p].slots, p, nodes[c := n], contents)
      {
        assert SlotVals(nodes[p].slots, p, nodes, contents);
        SlotsAdd(nodes[p].slots, p, nodes, contents, c, n);
        SlotsLength(nodes[p].slots, p, nodes, contents);
      }
      parent.slots := parent.slots[o := Child(n)];
    }

    /** Hang a new node in an empty slot; xas_alloc() has counted it already. */
    method Attach(n: Node, parent: Node, o: nat, ghost c: Pos)
      requires Sound() && CountsIn(nodes, parent, -1, 0)
      requires c !in nodes && c.level + 1 < height && o == Lo(c.chunk)
      requires Pos(c.level + 1, Hi(c.chunk)) in nodes && nodes[Pos(c.level + 1, Hi(c.chunk))] == parent
      requires n !in nodes.Values && n.slots == Blank() && n.count == n.nrValues == 0 && AtRest(n.marks, trackFree)
      requires n.shift == ShiftOf(c.level) && n.parent == parent && n.offset == o
      modifies parent`slots, n`level, n`chunk, this`nodes
      ensures Valid() && nodes == old(nodes)[c := n] && n.level == c.level
    {
      hide LinksIn, SlotsIn, CountsIn, MarksIn, HeadVals, FlagVals, MarkBits, SlotVals, CoveredBy, Rested, AtRest;
      ghost var nodes' := nodes[c := n];
      forall i: nat | Up(i, c.level + 1) == c.chunk
        ensures i !in contents
      {
        NothingBelow(nodes, height, contents, c, i);
      }
      RestBits(n.marks, contents, tags, trackFree, c);
      BlankSlots(nodes, height, contents, c, n);
      LinkChild(n, parent, o, c);
      n.level, n.chunk := c.level, c.chunk;
      LinksAdd(nodes, height, c, n);
      MarksAdd(nodes, tags, c, n);
      CoveredGrow(contents, height, nodes, nodes');
      HeadGrow(head, height, nodes, contents, zeroBusy, c, n);
      nodes := nodes';
    }

    /** Hang the first node of an empty array below the head. */
    method AttachTop(n: Node, ghost h: nat)
      requires Valid() && height == 0 && 0 !in contents && h > 0
      requires n.slots == Blank() && n.count == n.nrValues == 0 && AtRest(n.marks, trackFree)
      requires n.shift == ShiftOf(h - 1) <= 60 && n.parent == null
      modifies this`head, this`nodes, this`height, n`level, n`chunk
      ensures Valid() && height == h && nodes == map[Pos(h - 1, 0) := n] && n.level == h - 1 && head == Child(n)
    {
      hide LinksIn, SlotsIn, CountsIn, MarksIn, FlagVals, CoveredBy, Rested, AtRest;
      EmptyArray(nodes, contents);
      EmptyFlags(flags, h, tags, trackFree);
      n.level, n.chunk := h - 1, 0;
      SingleBlank(n, h, tags, trackFree);
      head := Child(n);
      nodes, height := map[Pos(h - 1, 0) := n], h;
    }
  
    /** The marks of a new root: the array flags go to slot 0, and free indices are at rest everywhere else. */
    method SpreadFlags(n: Node)
      requires |flags| == MAX_MARKS && n.marks == Unmarked()
      modifies this`flags, n`marks
      ensures Spread(n.marks, old(flags), flags, trackFree)
    {
      for m := 0 to MAX_MARKS
        invariant |n.marks| == MAX_MARKS == |flags|
        invariant forall k :: m <= k < MAX_MARKS ==> flags[k] == old(flags)[k] && n.marks[k] == Unmarked()[k]
        invariant forall k :: 0 <= k < m ==>
                && |n.marks[k]| == CHUNK_SIZE
                && n.marks[k][0] == old(flags)[k]
                && (forall o :: 1 <= o < CHUNK_SIZE ==> (n.marks[k][o] <==> trackFree && k == FREE_MARK))
                && flags[k] == (old(flags)[k] || (trackFree && k == FREE_MARK))
      {
        if trackFree && m == FREE_MARK {
          n.marks := n.marks[m := seq(CHUNK_SIZE, _ => true)];
          if !flags[m] {
            n.marks := n.marks[m := n.marks[m][0 := false]];
            flags := flags[m := true];
          }
        } else if flags[m] {
          n.marks := n.marks[m := n.marks[m][0 := true]];
        }
      }
    }

    /** The links of the head after `n` has been put above it. */
    method RaiseHead(n: Node, entry: Slot)
      requires LinksIn(nodes, height)
      requires height > 0 ==> Pos(height - 1, 0) in nodes && entry == Child(nodes[Pos(height - 1, 0)])
      requires height == 0 ==> !entry.Child?
      requires n !in nodes.Values && n.shift == ShiftOf(height) && n.parent == null
      requires SlotsIn(nodes[Pos(height, 0) := n], contents) && CountsIn(nodes[Pos(height, 0) := n], null, 0, 0)
      requires MarksIn(nodes[Pos(height, 0) := n], tags)
      modifies this`head, n`level, n`chunk
      modifies (if entry.Child? then {entry.node} else {})`parent, (if entry.Child? then {entry.node} else {})`offset
      ensures head == Child(n) && LinksIn(nodes[Pos(height, 0) := n], height + 1)
      ensures SlotsIn(nodes[Pos(height, 0) := n], contents) && CountsIn(nodes[Pos(height, 0) := n], null, 0, 0)
      ensures MarksIn(nodes[Pos(height, 0) := n], tags)
    {
      hide SlotsIn, CountsIn, MarksIn, LinksIn, Node.Linked;
      AllLinked(nodes, height);
      TopLinks(nodes, height);
      if height > 0 {
        Distinct(nodes, height, Pos(height - 1, 0));
        NodeLink(nodes, height, Pos(height - 1, 0));
      }
      n.level, n.chunk := height, 0;
      if entry.Child? {
        entry.node.offset := 0;
        entry.node.parent := n;
      }
      head := Child(n);
      RootLink(n, height, nodes[Pos(height, 0) := n]);
      LinksRaise(nodes, height, n);
    }

    /** The slots and counts of a new root whose slot 0 is the old head. */
    method FillRoot(n: Node, entry: Slot)
      requires n.slots == Blank() && n.count == n.nrValues == 0 && entry != Empty
      modifies n`count, n`nrValues, n`slots
      ensures n.slots == Blank()[0 := entry] && n.count == Used(n.slots) == 1 && n.nrValues == Values(n.slots)
    {
      hide Blank, Used, Values;
      BlankFacts();
      UsedUpdate(Blank(), 0, entry);
      n.count := 1;
      if entry.Stored? && entry.entry.Value? {
        n.nrValues := 1;
      }
      n.slots := n.slots[0 := entry];
    }

    /** A new root, all but its links. */
    method PrepareRoot(n: Node, entry: Slot)
      requires FlagVals(flags, height, tags) && CoveredBy(contents, height, nodes) && Rested(contents, tags, trackFree)
      requires CountsIn(nodes, null, 0, 0) && MarksIn(nodes, tags)
      requires entry != Empty && n !in nodes.Values
      requires n.slots == Blank() && n.count == n.nrValues == 0 && n.marks == Unmarked()
      modifies this`flags, n`count, n`nrValues, n`slots, n`marks
      ensures n.slots == Blank()[0 := entry] && n.count == 1
      ensures FlagVals(flags, height + 1, tags)
      ensures CountsIn(nodes[Pos(height, 0) := n], null, 0, 0) && MarksIn(nodes[Pos(height, 0) := n], tags)
    {
      hide FlagVals, MarkBits, CoveredBy, Rested, Spread, MarksIn, CountsIn, Blank, Used, Values;
      ghost var was := flags;
      BitOfFlag(flags, height, tags, 0);
      FillRoot(n, entry);
      SpreadFlags(n);
      RootBits(n.marks, was, flags, contents, height, nodes, tags, trackFree);
      CountsAdd(nodes, Pos(height, 0), n);
      MarksAdd(nodes, tags, Pos(height, 0), n);
    }

    /** The new root and the links of the old head to it. */
    method BuildRoot(n: Node, entry: Slot, ghost after: map<Pos, Node>)
      requires LinksIn(nodes, height) && SlotsIn(nodes, contents) && CountsIn(nodes, null, 0, 0) && MarksIn(nodes, tags)
      requires FlagVals(flags, height, tags) && CoveredBy(contents, height, nodes) && Rested(contents, tags, trackFree)
      requires entry != Empty && entry == SlotSpec(nodes, contents, height, 0) && after == nodes[Pos(height, 0) := n]
      requires height > 0 ==> Pos(height - 1, 0) in nodes && entry == Child(nodes[Pos(height - 1, 0)])
      requires height == 0 ==> !entry.Child?
      requires n !in nodes.Values && n.slots == Blank() && n.count == n.nrValues == 0 && n.marks == Unmarked()
      requires n.shift == ShiftOf(height) && n.parent == null
      modifies this`head, this`flags
      modifies (if entry.Child? then {entry.node} else {})`parent, (if entry.Child? then {entry.node} else {})`offset
      modifies n`count, n`nrValues, n`slots, n`marks, n`level, n`chunk
      ensures head == Child(n) && n.count == 1
      ensures LinksIn(after, height + 1) && SlotsIn(after, contents)
      ensures CountsIn(after, null, 0, 0) && MarksIn(after, tags)
      ensures FlagVals(flags, height + 1, tags) && CoveredBy(contents, height + 1, after)
    {
      hide LinksIn, SlotsIn, CountsIn, MarksIn, FlagVals, MarkBits, CoveredBy, Rested, SlotSpec;
      PrepareRoot(n, entry);
      SlotsRaise(nodes, height, contents, n);
      RaiseHead(n, entry);
    }

    /** One round of the loop in xas_expand(): a new root whose slot 0 is the old head. */
    method AddRoot(n: Node, entry: Slot)
      requires Valid() && entry != Empty && entry == SlotSpec(nodes, contents, height, 0)
      requires n !in nodes.Values && n.slots == Blank() && n.count == n.nrValues == 0 && n.marks == Unmarked()
      requires n.shift == ShiftOf(height) <= 60 && n.parent == null
      modifies this`head, this`flags, this`nodes, this`height
      modifies (if entry.Child? then {entry.node} else {})`parent, (if entry.Child? then {entry.node} else {})`offset
      modifies n`count, n`nrValues, n`slots, n`marks, n`level, n`chunk
      ensures Valid() && height == old(height) + 1 && nodes == old(nodes)[Pos(old(height), 0) := n] && n.count == 1
      ensures head == Child(n)
    {
      hide LinksIn, SlotsIn, CountsIn, MarksIn, FlagVals, MarkBits, CoveredBy, Rested, HeadVals, SlotSpec;
      ghost var after := nodes[Pos(height, 0) := n];
      HeadFacts(head, height, nodes, contents, zeroBusy);
      HeadEntry(head, height, nodes, contents, zeroBusy);
      HeadRaise(head, height, nodes, contents, zeroBusy, n);
      BuildRoot(n, entry, after);
      nodes, height := after, height + 1;
    }

    /** The parent's side of freeing the node at `c`. */
    method UnlinkChild(n: Node, parent: Node, ghost c: Pos)
      requires LinksIn(nodes, height) && SlotsIn(nodes, contents) && CountsIn(nodes, null, 0, 0)
      requires c in nodes && nodes[c] == n && c.level + 1 < height && n.parent == parent
      modifies parent`slots, parent`count
      ensures SlotsIn(nodes - {c}, contents) && CountsIn(nodes - {c}, null, 0, 0)
    {
      hide LinksIn, SlotVals;
      ghost var q := Pos(c.level + 1, Hi(c.chunk));
      LinkFacts(nodes, height, c);
      Distinct(nodes, height, q);
      NodeFacts(nodes, height, contents, q);
      CatHiLo(c.chunk);
      UsedUpdate(parent.slots, Lo(c.chunk), Empty);
      forall p | p in nodes
        ensures SlotVals(if p == q then parent.slots[Lo(c.chunk) := Empty] else nodes[p].slots,
                         p, nodes - {c}, contents)
      {
        assert SlotVals(nodes[p].slots, p, nodes, contents);
        SlotsDrop(nodes[p].slots, p, nodes, contents, c);
        SlotsLength(nodes[p].slots, p, nodes, contents);
      }
      parent.slots := parent.slots[n.offset := Empty];
      parent.count := parent.count - 1;
    }

    /** One round of xas_delete_node() below the root: an empty node leaves its parent. */
    method Unlink(n: Node, parent: Node, ghost c: Pos)
      requires Valid() && c in nodes && nodes[c] == n && n.count == 0
      requires c.level + 1 < height && n.parent == parent
      modifies parent`slots, parent`count, this`nodes
      ensures Valid() && nodes == old(nodes) - {c}
    {
      hide LinksIn, SlotsIn, CountsIn, MarksIn, HeadVals, FlagVals, CoveredBy, Rested;
      ghost var nodes' := nodes - {c};
      CountFacts(nodes, c);
      LinksDrop(nodes, height, contents, c);
      MarksDrop(nodes, tags, c);
      CoveredDrop(nodes, height, contents, c);
      HeadShrink(head, height, nodes, contents, zeroBusy, c);
      UnlinkChild(n, parent, c);
      nodes := nodes';
    }

    /** The last round of xas_delete_node(): the root itself is empty. */
    method ClearHead(n: Node)
      requires Valid() && height > 0 && Pos(height - 1, 0) in nodes && nodes[Pos(height - 1, 0)] == n && n.count == 0
      modifies this`head, this`nodes, this`height
      ensures Valid() && nodes == map[] && height == 0 && head == Empty
      ensures old(nodes - {Pos(height - 1, 0)}) == map[]
    {
      hide LinksIn, SlotsIn, CountsIn, MarksIn, FlagVals, CoveredBy, Rested;
      ghost var c := Pos(height - 1, 0);
      CountFacts(nodes, c);
      EmptyRoot(nodes, height, contents);
      EmptyTop(flags, height, nodes, tags, trackFree);
      NoNodes(tags, contents);
      CoveredDrop(nodes, height, contents, c);
      CoveredEmpty();
      head := Empty;
      nodes, height := map[], 0;
    }
  
    /** The links once the root is gone. */
    method LowerHead(n: Node, entry: Slot, ghost after: map<Pos, Node>)
      requires LinksIn(nodes, height) && height > 0 && Pos(height - 1, 0) in nodes && nodes[Pos(height - 1, 0)] == n
      requires forall q :: q in nodes ==> q == Pos(height - 1, 0) || q.level + 1 < height
      requires forall q :: q in nodes && q.level + 2 == height ==> q == Pos(height - 2, 0)
      requires height > 1 ==> Pos(height - 2, 0) in nodes && entry == Child(nodes[Pos(height - 2, 0)])
      requires height == 1 ==> !entry.Child?
      requires after == nodes - {Pos(height - 1, 0)}
      modifies (if entry.Child? then {entry.node} else {})`parent
      ensures LinksIn(after, height - 1)
    {
      hide LinksIn, Node.Linked;
      AllLinked(nodes, height);
      if entry.Child? {
        Distinct(nodes, height, Pos(height - 2, 0));
        NodeLink(nodes, height, Pos(height - 2, 0));
        entry.node.parent := null;
      }
      LinksLower(nodes, height);
    }

    /** The old root as xas_shrink() hands it to the slab. */
    method RetireRoot(n: Node, entry: Slot)
      requires n.slots != []
      modifies n`count, n`nrValues, n`slots
    {
      n.count := 0;
      n.nrValues := 0;
      if !entry.Child? {
        n.slots := n.slots[0 := Retry];
      }
    }

    /** The links and the rest of the tree once the root is gone. */
    method LowerTree(n: Node, entry: Slot, ghost after: map<Pos, Node>)
      requires LinksIn(nodes, height) && height > 0 && Pos(height - 1, 0) in nodes && nodes[Pos(height - 1, 0)] == n
      requires forall q :: q in nodes ==> q == Pos(height - 1, 0) || q.level + 1 < height
      requires forall q :: q in nodes && q.level + 2 == height ==> q == Pos(height - 2, 0)
      requires height > 1 ==> Pos(height - 2, 0) in nodes && entry == Child(nodes[Pos(height - 2, 0)])
      requires height == 1 ==> !entry.Child?
      requires after == nodes - {Pos(height - 1, 0)} && n.slots != []
      requires SlotsIn(after, contents) && CountsIn(after, null, 0, 0) && MarksIn(after, tags)
      modifies (if entry.Child? then {entry.node} else {})`parent, n`count, n`nrValues, n`slots
      ensures LinksIn(after, height - 1)
      ensures SlotsIn(after, contents) && CountsIn(after, null, 0, 0) && MarksIn(after, tags)
    {
      hide LinksIn, SlotsIn, CountsIn, MarksIn;
      Distinct(nodes, height, Pos(height - 1, 0));
      assert n !in after.Values;
      LowerHead(n, entry, after);
      RetireRoot(n, entry);
    }

    /** The head of the lower tree, and its free flag. */
    method SetHead(n: Node, entry: Slot, ghost after: map<Pos, Node>)
      requires height > 0 && FlagVals(flags, height, tags) && MarkBits(n.marks, Pos(height - 1, 0), tags)
      requires Rested(contents, tags, trackFree) && CoveredBy(contents, height - 1, after)
      modifies this`head, this`flags
      ensures head == entry && FlagVals(flags, height - 1, tags)
    {
      hide FlagVals, CoveredBy, Rested;
      head := entry;
      FlagsLower(flags, n.marks, contents, height, after, tags, trackFree);
      BitOfFlag(flags, height, tags, FREE_MARK);
      if trackFree && !n.marks[FREE_MARK][0] {
        if flags[FREE_MARK] {
          flags := flags[FREE_MARK := false];
        }
      }
    }

    /** Without its root the tree is that of a lower array, whose head is in slot 0 of the root. */
    lemma RootGone(n: Node)
      requires Valid() && height > 0 && Pos(height - 1, 0) in nodes && nodes[Pos(height - 1, 0)] == n
      requires n.count == 1 && |n.slots| == CHUNK_SIZE && n.slots[0] != Empty
      ensures LinksIn(nodes, height) && FlagVals(flags, height, tags) && Rested(contents, tags, trackFree)
      ensures var after := nodes - {Pos(height - 1, 0)};
        && CoveredBy(contents, height - 1, after) && SlotsIn(after, contents) && CountsIn(after, null, 0, 0)
        && MarksIn(after, tags) && (zeroBusy ==> trackFree)
        && HeadVals(if zeroBusy && n.slots[0] == Stored(Zero) then Empty else n.slots[0],
                    height - 1, after, contents, zeroBusy)
      ensures MarkBits(n.marks, Pos(height - 1, 0), tags)
      ensures forall q :: q in nodes ==> q == Pos(height - 1, 0) || q.level + 1 < height
      ensures forall q :: q in nodes && q.level + 2 == height ==> q == Pos(height - 2, 0)
      ensures height > 1 ==> Pos(height - 2, 0) in nodes && n.slots[0] == Child(nodes[Pos(height - 2, 0)])
      ensures height == 1 ==> !n.slots[0].Child?
    {
      hide LinksIn, SlotsIn, CountsIn, MarksIn, HeadVals, FlagVals, MarkBits, CoveredBy, Rested, SlotSpec;
      var c := Pos(height - 1, 0);
      RootSlotZero(nodes, height, contents);
      HeadLower(head, height, nodes, contents, zeroBusy, n.slots[0]);
      LoneSlot(nodes, height, contents);
      RootMarks(nodes, tags, c);
      MarksDrop(nodes, tags, c);
      CountsDrop(nodes, null, 0, 0, c);
    }

    /** One round of xas_shrink(): slot 0 of the root becomes the head. */
    method DropRoot(n: Node) returns (entry: Slot)
      requires Valid() && height > 0 && Pos(height - 1, 0) in nodes && nodes[Pos(height - 1, 0)] == n
      requires n.count == 1 && |n.slots| == CHUNK_SIZE && n.slots[0] != Empty
      modifies this`head, this`flags, this`nodes, this`height, n`count, n`nrValues, n`slots, nodes.Values`parent
      ensures Valid() && height == old(height) - 1 && nodes == old(nodes) - {Pos(old(height) - 1, 0)}
      ensures entry == head
    {
      hide LinksIn, SlotsIn, CountsIn, MarksIn, HeadVals, FlagVals, MarkBits, CoveredBy, Rested, SlotSpec;
      ghost var after := nodes - {Pos(height - 1, 0)};
      RootGone(n);
      entry := n.slots[0];
      if zeroBusy && entry == Stored(Zero) {
        entry := Empty;
      }
      SetHead(n, entry, after);
      LowerTree(n, entry, after);
      nodes, height := after, height - 1;
    }
  
    /** One round of xas_shrink(), giving the old root back to the slab. */
    method ShrinkOnce(n: Node) returns (entry: Slot)
      requires Valid() && height > 0 && Pos(height - 1, 0) in nodes && nodes[Pos(height - 1, 0)] == n
      requires n.count == 1 && |n.slots| == CHUNK_SIZE && n.slots[0] != Empty && nodes.Values <= live
      modifies this`head, this`flags, this`nodes, this`height, this`live
      modifies n`count, n`nrValues, n`slots, nodes.Values`parent
      ensures Valid() && height == old(height) - 1 && nodes == old(nodes) - {Pos(old(height) - 1, 0)}
      ensures nodes.Values == old(nodes.Values) - {n} && live == old(live) - {n}
      ensures if height == 0 then !entry.Child? else
                entry.Child? && Pos(height - 1, 0) in nodes && nodes[Pos(height - 1, 0)] == entry.node
      ensures old(NoEmpty(nodes, null)) ==> NoEmpty(nodes, null)
    {
      hide LinksIn, SlotsIn, CountsIn, MarksIn, HeadVals, FlagVals, CoveredBy, Rested, SlotVals;
      ValuesDrop(nodes, height, Pos(height - 1, 0));
      entry := DropRoot(n);
      HeadFacts(head, height, nodes, contents, zeroBusy);
      Free(n);
    }
  
    /** One round of xas_delete_node(): the empty node at `c` is freed and leaves its parent, or the head. */
    method DeleteOnce(n: Node, ghost c: Pos) returns (parent: Node?)
      requires Valid() && c in nodes && nodes[c] == n && n.count == 0 && nodes.Values <= live
      modifies this`head, this`nodes, this`height, this`live
      modifies (if n.parent != null then {n.parent} else {})`slots, (if n.parent != null then {n.parent} else {})`count
      ensures Valid() && parent == n.parent && nodes == old(nodes) - {c}
      ensures nodes.Values == old(nodes.Values) - {n} && live == old(live) - {n}
      ensures parent == null ==> nodes == map[] && height == 0
      ensures parent != null ==>
        var p := Pos(c.level + 1, Hi(c.chunk));
        height == old(height) && p in nodes && nodes[p] == parent && p.level < height
      ensures old(NoEmpty(nodes, n)) ==> NoEmpty(nodes, parent)
      ensures old(Tight(nodes, height)) ==> Tight(nodes, height) || (parent != null && parent.parent == null)
    {
      hide LinksIn, SlotsIn, CountsIn, MarksIn, HeadVals, FlagVals, CoveredBy, Rested, SlotVals;
      parent := n.parent;
      LinkFacts(nodes, height, c);
      ValuesDrop(nodes, height, c);
      Free(n);
      if parent == null {
        ClearHead(n);
      } else {
        LinkFacts(nodes, height, Pos(c.level + 1, Hi(c.chunk)));
        Distinct(nodes, height, Pos(c.level + 1, Hi(c.chunk)));
        Unlink(n, parent, c);
      }
    }
  
    /** Assign the slot of index `i` in its leaf, all but the counts. */
    method PutLeaf(n: Node, o: nat, x: Slot, ghost i: nat)
      requires Valid() && OnPath(nodes, n, i, 0) && o == Lo(i) && (x == Empty || x.Stored?) && i < WORD
      requires x == Empty ==> RestedAt(tags, i, trackFree)
      modifies n`slots, this`contents
      ensures contents == Update(old(contents), i, x) && Sound()
      ensures |old(n.slots)| == CHUNK_SIZE && n.slots == old(n.slots)[o := x]
      ensures CountsIn(nodes, n, (if x == Empty then 0 else 1) - (if old(n.slots[o]) == Empty then 0 else 1),
                       ValueIn(x) - ValueIn(old(n.slots[o])))
    {
      hide LinksIn, SlotsIn, CountsIn, MarksIn, HeadVals, FlagVals, CoveredBy, Rested, RestedAt, SlotVals;
      assert Up(i, 1) == Hi(i);
      UpStart(i);
      NodeFacts(nodes, height, contents, Pos(0, Hi(i)));
      PathTop(nodes, height, i, 0);
      HeadPut(head, height, nodes, contents, zeroBusy, i, x);
      CoveredPut(contents, height, nodes, i, x);
      RestedPut(contents, tags, trackFree, i, x);
      PutSlot(n, o, x, i);
    }

    /** Assign the head of an array without nodes. */
    method PutHead(x: Slot)
      requires Valid() && height == 0 && (x == Empty || x.Stored?)
      requires x == Empty ==> RestedAt(tags, 0, trackFree)
      modifies this`head, this`contents
      ensures contents == Update(old(contents), 0, x) && Valid() && head == x && height == 0
    {
      hide LinksIn, CountsIn, MarksIn, FlagVals, CoveredBy, Rested, RestedAt;
      UpStart(0);
      AboveHead();
      CoveredPut(contents, height, nodes, 0, x);
      RestedPut(contents, tags, trackFree, 0, x);
      TopLinks(nodes, height);
      head := x;
      contents := Update(contents, 0, x);
    }
  }
}
