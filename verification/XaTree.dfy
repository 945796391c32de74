/**
 What it means for the nodes of an XArray to form the right tree, one conjunct per aspect.  Nodes are
 found by position, so every statement is about one node at a time and needs no recursion.
 */
module XaTree {
  import opened Chunks
  import opened Numbers
  import opened XaNodes

  /** Every node has the shift, parent and offset of its position. */
  ghost predicate LinksIn(nodes: map<Pos, Node>, height: nat)
    reads nodes.Values`level, nodes.Values`chunk, nodes.Values`shift, nodes.Values`offset, nodes.Values`parent
  {
    forall q :: q in nodes ==> nodes[q].Linked(q, height, nodes)
  }

  /** Every slot holds its child, its entry or nothing. */
  ghost predicate SlotsIn(nodes: map<Pos, Node>, contents: map<nat, Entry>)
    reads nodes.Values`slots
  {
    forall q :: q in nodes ==> SlotVals(nodes[q].slots, q, nodes, contents)
  }

  /** Every count is exact, except those of `n`, which are short by `dc` and `dv`. */
  ghost predicate CountsIn(nodes: map<Pos, Node>, n: Node?, dc: int, dv: int)
    reads nodes.Values`slots, nodes.Values`count, nodes.Values`nrValues
  {
    forall q :: q in nodes ==>
      && nodes[q].count + (if nodes[q] == n then dc else 0) == Used(nodes[q].slots)
      && nodes[q].nrValues + (if nodes[q] == n then dv else 0) == Values(nodes[q].slots)
  }

  /** Every mark bit says whether some index below its slot is marked. */
  ghost predicate MarksIn(nodes: map<Pos, Node>, t: Tags)
    reads nodes.Values`marks
  {
    forall q :: q in nodes ==> MarkBits(nodes[q].marks, q, t)
  }

  /** The head is the root, or the entry of an array without nodes; a busy index 0 may then be implied. */
  ghost predicate HeadVals(head: Slot, height: nat, nodes: map<Pos, Node>, contents: map<nat, Entry>, zeroBusy: bool)
  {
    && (head == SlotSpec(nodes, contents, height, 0) || ImpliedZero(head, height, contents, zeroBusy))
    && (height > 0 ==> head.Child? && ShiftOf(height - 1) <= 60)
  }

  /** Index 0 is reserved without anything to show for it: the array has no head. */
  ghost predicate ImpliedZero(head: Slot, height: nat, contents: map<nat, Entry>, zeroBusy: bool)
  {
    zeroBusy && height == 0 && head == Empty && 0 in contents && contents[0] == Zero
  }

  /** The tree reaches every stored index, and there is a leaf for it. */
  ghost predicate CoveredBy(contents: map<nat, Entry>, height: nat, nodes: map<Pos, Node>)
  {
    forall i :: i in contents ==> i < WORD && Up(i, height) == 0 && (height > 0 ==> Pos(0, Hi(i)) in nodes)
  }

  /** An index holding nothing carries no mark, except the free mark of an array that tracks free indices. */
  ghost predicate Rested(contents: map<nat, Entry>, t: Tags, trackFree: bool)
  {
    |t| == MAX_MARKS &&
    forall i: nat, m :: 0 <= m < MAX_MARKS && i !in contents ==> (i in t[m] <==> trackFree && m == FREE_MARK)
  }

  /** `n` is the node above index `i` at level `l`. */
  ghost predicate OnPath(nodes: map<Pos, Node>, n: Node, i: nat, l: nat)
  {
    Pos(l, Up(i, l + 1)) in nodes && nodes[Pos(l, Up(i, l + 1))] == n
  }

  /** Following parents from the node above index `i` at level `l` ends at the head. */
  lemma {:induction false} PathTop(nodes: map<Pos, Node>, height: nat, i: nat, l: nat)
    requires LinksIn(nodes, height) && Pos(l, Up(i, l + 1)) in nodes
    ensures Up(i, height) == 0
    decreases height - l
  {
    var q := Pos(l, Up(i, l + 1));
    assert nodes[q].Linked(q, height, nodes);
    if l + 1 < height {
      PathTop(nodes, height, i, l + 1);
    }
  }

  /** A tree that has the node above `i` at one level has the nodes above `i` at all higher levels. */
  lemma {:induction false} PathUp(nodes: map<Pos, Node>, height: nat, i: nat, l: nat, m: nat)
    requires LinksIn(nodes, height) && Pos(l, Up(i, l + 1)) in nodes && l <= m < height
    ensures Pos(m, Up(i, m + 1)) in nodes
    decreases m - l
  {
    var q := Pos(l, Up(i, l + 1));
    assert nodes[q].Linked(q, height, nodes);
    if l < m {
      PathUp(nodes, height, i, l + 1, m);
    }
  }

  /** The node one level up on the path of `i`. */
  lemma ParentFacts(nodes: map<Pos, Node>, height: nat, i: nat, l: nat)
    requires LinksIn(nodes, height) && Pos(l, Up(i, l + 1)) in nodes
    ensures l < height
    ensures l + 1 == height ==> nodes[Pos(l, Up(i, l + 1))].parent == null
    ensures l + 1 < height ==>
      var n, p := nodes[Pos(l, Up(i, l + 1))], Pos(l + 1, Up(i, l + 2));
      p in nodes && n.parent == nodes[p] && n.offset == Lo(Up(i, l + 1))
  {
    var q := Pos(l, Up(i, l + 1));
    assert nodes[q].Linked(q, height, nodes);
  }

  lemma BelowHeight(nodes: map<Pos, Node>, height: nat, q: Pos)
    requires LinksIn(nodes, height) && q in nodes
    ensures q.level < height && (q.level + 1 == height ==> q.chunk == 0)
  {
    assert nodes[q].Linked(q, height, nodes);
  }

  lemma Distinct(nodes: map<Pos, Node>, height: nat, q: Pos)
    requires LinksIn(nodes, height) && q in nodes
    ensures forall p :: p in nodes && p != q ==> nodes[p] != nodes[q]
  {
    assert nodes[q].Linked(q, height, nodes);
    forall p | p in nodes && p != q
      ensures nodes[p] != nodes[q]
    {
      assert nodes[p].Linked(p, height, nodes);
    }
  }

  lemma NodeFacts(nodes: map<Pos, Node>, height: nat, contents: map<nat, Entry>, q: Pos)
    requires LinksIn(nodes, height) && SlotsIn(nodes, contents) && q in nodes
    ensures var n := nodes[q];
      && n.level == q.level < height && n.chunk == q.chunk && n.shift == ShiftOf(q.level)
      && SlotVals(n.slots, q, nodes, contents)
      && |n.slots| == CHUNK_SIZE
      && forall o :: 0 <= o < CHUNK_SIZE ==> n.slots[o] == SlotSpec(nodes, contents, q.level, Cat(q.chunk, o))
  {
    assert nodes[q].Linked(q, height, nodes);
  }

  lemma HeadFacts(head: Slot, height: nat, nodes: map<Pos, Node>, contents: map<nat, Entry>, zeroBusy: bool)
    requires HeadVals(head, height, nodes, contents, zeroBusy) && LinksIn(nodes, height)
    ensures height == 0 ==> head == EntryAt(contents, 0) || ImpliedZero(head, height, contents, zeroBusy)
    ensures height > 0 ==>
      var q := Pos(height - 1, 0);
      && q in nodes && head == Child(nodes[q]) && nodes[q].level == height - 1 && nodes[q].chunk == 0
      && nodes[q].shift == ShiftOf(height - 1) <= 60
  {
  }

  /** The bits of every node are right for `t` from level `l` up, and already right for `t'` below it. */
  ghost predicate MarksSplit(nodes: map<Pos, Node>, t': Tags, t: Tags, l: nat)
    reads nodes.Values`marks
  {
    forall q :: q in nodes ==> MarkBits(nodes[q].marks, q, if q.level < l then t' else t)
  }

  lemma SplitStart(nodes: map<Pos, Node>, t': Tags, t: Tags)
    requires MarksIn(nodes, t)
    ensures MarksSplit(nodes, t', t, 0)
  {
  }

  lemma SplitBits(nodes: map<Pos, Node>, t': Tags, t: Tags, l: nat, q: Pos)
    requires MarksSplit(nodes, t', t, l) && q in nodes && q.level == l
    ensures MarkBits(nodes[q].marks, q, t)
  {
  }

  lemma SplitDone(nodes: map<Pos, Node>, height: nat, t': Tags, t: Tags)
    requires LinksIn(nodes, height) && MarksSplit(nodes, t', t, height)
    ensures MarksIn(nodes, t')
  {
    forall q | q in nodes
      ensures MarkBits(nodes[q].marks, q, t')
    {
      assert nodes[q].Linked(q, height, nodes);
    }
  }

  lemma InsertSettled(nodes: map<Pos, Node>, t: Tags, m: nat, i: nat, l: nat)
    requires |t| == MAX_MARKS && m < MAX_MARKS && MarksSplit(nodes, Insert(t, m, i), t, l)
    requires Any(t[m], l, Up(i, l))
    ensures MarksIn(nodes, Insert(t, m, i))
  {
    forall q | q in nodes
      ensures MarkBits(nodes[q].marks, q, Insert(t, m, i))
    {
      if q.level >= l {
        AnyUpTo(t[m], i, l, q.level);
        BitsInsertSame(nodes[q].marks, q, t, m, i);
      }
    }
  }

  lemma RemoveSettled(nodes: map<Pos, Node>, t: Tags, m: nat, i: nat, l: nat)
    requires |t| == MAX_MARKS && m < MAX_MARKS && MarksSplit(nodes, Remove(t, m, i), t, l)
    requires Any(t[m] - iset{i}, l, Up(i, l))
    ensures MarksIn(nodes, Remove(t, m, i))
  {
    forall q | q in nodes
      ensures MarkBits(nodes[q].marks, q, Remove(t, m, i))
    {
      if q.level >= l {
        AnyUpTo(t[m] - iset{i}, i, l, q.level);
        BitsRemoveSame(nodes[q].marks, q, t, m, i);
      }
    }
  }

  /** An index whose bit is clear somewhere on its path is not marked, so unmarking it is no change. */
  lemma RemoveNothing(nodes: map<Pos, Node>, t: Tags, m: nat, i: nat, l: nat)
    requires |t| == MAX_MARKS && m < MAX_MARKS && MarksSplit(nodes, Remove(t, m, i), t, l)
    requires !Any(t[m], l, Up(i, l))
    ensures Remove(t, m, i) == t && MarksIn(nodes, t)
  {
    AnyNot(t[m], i, l);
    assert t[m] - iset{i} == t[m];
    assert Remove(t, m, i) == t;
  }

  // Reshaping the tree

  /** Hanging node `n` at an unused position keeps all other links. */
  lemma LinksAdd(nodes: map<Pos, Node>, height: nat, c: Pos, n: Node)
    requires LinksIn(nodes, height) && c !in nodes && n.Linked(c, height, nodes[c := n])
    ensures LinksIn(nodes[c := n], height)
  {
    forall q | q in nodes
      ensures nodes[q].Linked(q, height, nodes[c := n])
    {
      assert nodes[q].Linked(q, height, nodes);
    }
  }

  lemma CoveredGrow(contents: map<nat, Entry>, height: nat, nodes: map<Pos, Node>, nodes': map<Pos, Node>)
    requires CoveredBy(contents, height, nodes) && nodes.Keys <= nodes'.Keys
    ensures CoveredBy(contents, height, nodes')
  {
  }

  /** A node without used slots has no node below it. */
  lemma NoChildren(nodes: map<Pos, Node>, height: nat, contents: map<nat, Entry>, c: Pos, p: Pos)
    requires LinksIn(nodes, height) && SlotsIn(nodes, contents) && c in nodes && Used(nodes[c].slots) == 0
    requires p.level + 1 == c.level && Hi(p.chunk) == c.chunk
    ensures p !in nodes
  {
    hide LinksIn, SlotsIn, SlotVals, Used;
    UsedZero(nodes[c].slots);
    CatHiLo(p.chunk);
    NodeFacts(nodes, height, contents, c);
    assert nodes[c].slots[Lo(p.chunk)] == Empty;
  }

  lemma LinksDrop(nodes: map<Pos, Node>, height: nat, contents: map<nat, Entry>, c: Pos)
    requires LinksIn(nodes, height) && SlotsIn(nodes, contents) && c in nodes && Used(nodes[c].slots) == 0
    requires c.level + 1 < height
    ensures LinksIn(nodes - {c}, height)
  {
    forall q | q in nodes - {c}
      ensures nodes[q].Linked(q, height, nodes - {c})
    {
      assert nodes[q].Linked(q, height, nodes);
      if Pos(q.level + 1, Hi(q.chunk)) == c {
        NoChildren(nodes, height, contents, c, q);
      }
    }
  }

  /** A leaf without used slots covers no stored index. */
  lemma NoContents(nodes: map<Pos, Node>, contents: map<nat, Entry>, c: Pos, i: nat)
    requires SlotsIn(nodes, contents) && c in nodes && Used(nodes[c].slots) == 0
    requires c == Pos(0, Hi(i))
    ensures i !in contents
  {
    UsedZero(nodes[c].slots);
    CatHiLo(i);
    assert SlotVals(nodes[c].slots, c, nodes, contents);
    assert nodes[c].slots[Lo(i)] == Empty;
  }

  lemma CoveredDrop(nodes: map<Pos, Node>, height: nat, contents: map<nat, Entry>, c: Pos)
    requires SlotsIn(nodes, contents) && c in nodes && Used(nodes[c].slots) == 0
    requires CoveredBy(contents, height, nodes)
    ensures CoveredBy(contents, height, nodes - {c})
  {
    forall i | i in contents && height > 0
      ensures Pos(0, Hi(i)) != c
    {
      if Pos(0, Hi(i)) == c {
        NoContents(nodes, contents, c, i);
      }
    }
  }

  /** An empty root is the only node. */
  lemma OnlyRoot(nodes: map<Pos, Node>, height: nat, contents: map<nat, Entry>, q: Pos)
    requires LinksIn(nodes, height) && SlotsIn(nodes, contents) && q in nodes
    requires height > 0 && Pos(height - 1, 0) in nodes && Used(nodes[Pos(height - 1, 0)].slots) == 0
    ensures q == Pos(height - 1, 0)
  {
    hide LinksIn, SlotsIn, Used;
    BelowHeight(nodes, height, q);
    if q.level + 1 < height {
      var i := Base(q.level + 1, q.chunk);
      UpBase(q.level + 1, q.chunk);
      PathUp(nodes, height, i, q.level, height - 2);
      PathTop(nodes, height, i, q.level);
      NoChildren(nodes, height, contents, Pos(height - 1, 0), Pos(height - 2, Up(i, height - 1)));
    }
  }

  lemma EmptyRoot(nodes: map<Pos, Node>, height: nat, contents: map<nat, Entry>)
    requires LinksIn(nodes, height) && SlotsIn(nodes, contents) && CoveredBy(contents, height, nodes)
    requires height > 0 && Pos(height - 1, 0) in nodes && Used(nodes[Pos(height - 1, 0)].slots) == 0
    ensures nodes - {Pos(height - 1, 0)} == map[]
    ensures contents == map[]
  {
    hide SlotsIn, LinksIn;
    forall q | q in nodes
      ensures q == Pos(height - 1, 0)
    {
      OnlyRoot(nodes, height, contents, q);
    }
    forall i: nat
      ensures i !in contents
    {
      if height == 1 && Hi(i) == 0 {
        NoContents(nodes, contents, Pos(0, 0), i);
      }
    }
  }

  /** Indices beyond the reach of a tree of this height hold nothing, so they are all at rest. */
  lemma BeyondReach(contents: map<nat, Entry>, height: nat, nodes: map<Pos, Node>, t: Tags, trackFree: bool,
                    m: nat, k: nat)
    requires CoveredBy(contents, height, nodes) && Rested(contents, t, trackFree) && m < MAX_MARKS && k != 0
    ensures Any(t[m], height, k) <==> trackFree && m == FREE_MARK
  {
    UpBase(height, k);
    var i := Base(height, k);
    assert Up(i, height) == k && i !in contents;
  }

  /** The marks of a new root above the old head: the old array flags in slot 0, rest everywhere else. */
  ghost predicate Spread(marks: seq<seq<bool>>, flags: seq<bool>, flags': seq<bool>, trackFree: bool)
  {
    && |marks| == MAX_MARKS == |flags| == |flags'|
    && forall m :: 0 <= m < MAX_MARKS ==>
         && |marks[m]| == CHUNK_SIZE
         && marks[m][0] == flags[m]
         && (forall o :: 1 <= o < CHUNK_SIZE ==> (marks[m][o] <==> trackFree && m == FREE_MARK))
         && flags'[m] == (flags[m] || (trackFree && m == FREE_MARK))
  }

  lemma RootBits(marks: seq<seq<bool>>, flags: seq<bool>, flags': seq<bool>, contents: map<nat, Entry>, height: nat,
                 nodes: map<Pos, Node>, t: Tags, trackFree: bool)
    requires CoveredBy(contents, height, nodes) && Rested(contents, t, trackFree) && FlagVals(flags, height, t)
    requires Spread(marks, flags, flags', trackFree)
    ensures MarkBits(marks, Pos(height, 0), t)
    ensures FlagVals(flags', height + 1, t)
  {
    hide CoveredBy, Rested, Any;
    forall m | 0 <= m < MAX_MARKS
      ensures forall o :: 0 <= o < CHUNK_SIZE ==> (marks[m][o] <==> Any(t[m], height, Cat(0, o)))
      ensures flags'[m] <==> Any(t[m], height + 1, 0)
    {
      forall o | 0 <= o < CHUNK_SIZE
        ensures marks[m][o] <==> Any(t[m], height, Cat(0, o))
      {
        if o != 0 {
          BeyondReach(contents, height, nodes, t, trackFree, m, Cat(0, o));
        }
      }
      AnySlot(t[m], height, 0);
      assert Any(t[m], height, Cat(0, 0)) == flags[m];
      assert Any(t[m], height, Cat(0, 1)) == (trackFree && m == FREE_MARK);
    }
  }

  /** Links after `n` has become the parent of the old root. */
  lemma LinksRaise(nodes: map<Pos, Node>, height: nat, n: Node)
    requires forall q :: q in nodes && q.level + 1 != height ==> nodes[q].Linked(q, height, nodes)
    requires forall q :: q in nodes && q.level + 1 == height ==>
               && q.chunk == 0 && nodes[q].level == q.level && nodes[q].chunk == 0
               && nodes[q].shift == ShiftOf(q.level) && nodes[q].parent == n && nodes[q].offset == 0
    requires n.Linked(Pos(height, 0), height + 1, nodes[Pos(height, 0) := n])
    ensures LinksIn(nodes[Pos(height, 0) := n], height + 1)
  {
    var nodes' := nodes[Pos(height, 0) := n];
    forall q | q in nodes && q.level < height
      ensures nodes[q].Linked(q, height + 1, nodes')
    {
      if q.level + 1 != height {
        assert nodes[q].Linked(q, height, nodes);
      }
    }
    forall q | q in nodes
      ensures q.level < height
    {
      if q.level + 1 != height {
        assert nodes[q].Linked(q, height, nodes);
      }
    }
  }

  lemma SlotsRaise(nodes: map<Pos, Node>, height: nat, contents: map<nat, Entry>, n: Node)
    requires LinksIn(nodes, height) && SlotsIn(nodes, contents) && CoveredBy(contents, height, nodes)
    requires n.slots == Blank()[0 := SlotSpec(nodes, contents, height, 0)]
    ensures SlotsIn(nodes[Pos(height, 0) := n], contents)
    ensures CoveredBy(contents, height + 1, nodes[Pos(height, 0) := n])
  {
    var c := Pos(height, 0);
    forall q | q in nodes && q != c
      ensures SlotVals(nodes[q].slots, q, nodes[c := n], contents)
    {
      assert nodes[q].Linked(q, height, nodes);
      SlotsAdd(nodes[q].slots, q, nodes, contents, c, n);
    }
    forall o | 0 <= o < CHUNK_SIZE
      ensures n.slots[o] == SlotSpec(nodes[c := n], contents, height, Cat(0, o))
    {
      if height > 0 && Pos(height - 1, o) in nodes {
        assert nodes[Pos(height - 1, o)].Linked(Pos(height - 1, o), height, nodes);
      }
    }
    forall i | i in contents
      ensures Up(i, height + 1) == 0 && Pos(0, Hi(i)) in nodes[c := n]
    {
      assert Up(i, height) == 0;
    }
  }

  /** Below an unused position of the tree nothing is stored. */
  lemma NothingBelow(nodes: map<Pos, Node>, height: nat, contents: map<nat, Entry>, c: Pos, i: nat)
    requires LinksIn(nodes, height) && CoveredBy(contents, height, nodes)
    requires c !in nodes && c.level < height && Up(i, c.level + 1) == c.chunk
    ensures i !in contents
  {
    if i in contents {
      assert Up(i, 1) == Hi(i);
      PathUp(nodes, height, i, 0, c.level);
    }
  }

  /** The marks of a new node hung where nothing is stored. */
  ghost predicate AtRest(marks: seq<seq<bool>>, trackFree: bool)
  {
    |marks| == MAX_MARKS && forall m :: 0 <= m < MAX_MARKS ==>
      |marks[m]| == CHUNK_SIZE && forall o :: 0 <= o < CHUNK_SIZE ==> (marks[m][o] <==> trackFree && m == FREE_MARK)
  }

  /** node_mark_all() on a zeroed node of an array that tracks free indices. */
  lemma RestMarks(trackFree: bool)
    ensures |Unmarked()| == MAX_MARKS
    ensures AtRest(if trackFree then Unmarked()[FREE_MARK := seq(CHUNK_SIZE, _ => true)] else Unmarked(), trackFree)
  {
  }

  /** A slot above no stored index is marked like the indices at rest. */
  lemma RestSlot(contents: map<nat, Entry>, t: Tags, trackFree: bool, m: nat, l: nat, k: nat)
    requires Rested(contents, t, trackFree) && m < MAX_MARKS
    requires forall i: nat :: Up(i, l) == k ==> i !in contents
    ensures |t| == MAX_MARKS && (Any(t[m], l, k) <==> trackFree && m == FREE_MARK)
  {
    UpBase(l, k);
    var i := Base(l, k);
    assert Up(i, l) == k && i !in contents;
  }

  lemma RestBits(marks: seq<seq<bool>>, contents: map<nat, Entry>, t: Tags, trackFree: bool, c: Pos)
    requires AtRest(marks, trackFree) && Rested(contents, t, trackFree)
    requires forall i: nat :: Up(i, c.level + 1) == c.chunk ==> i !in contents
    ensures MarkBits(marks, c, t)
  {
    hide Rested, Any;
    RestSlot(contents, t, trackFree, 0, c.level + 1, c.chunk);
    forall m, o | 0 <= m < MAX_MARKS && 0 <= o < CHUNK_SIZE
      ensures marks[m][o] <==> Any(t[m], c.level, Cat(c.chunk, o))
    {
      HiLoCat(c.chunk, o);
      forall i: nat | Up(i, c.level) == Cat(c.chunk, o)
        ensures i !in contents
      {
        assert Up(i, c.level + 1) == c.chunk;
      }
      RestSlot(contents, t, trackFree, m, c.level, Cat(c.chunk, o));
    }
  }

  // Removing a root whose only used slot is slot 0

  /** Everything but the root of such a tree lies below its slot 0. */
  lemma UnderSlotZero(nodes: map<Pos, Node>, height: nat, contents: map<nat, Entry>, q: Pos)
    requires LinksIn(nodes, height) && SlotsIn(nodes, contents) && q in nodes && height > 0
    requires var root := Pos(height - 1, 0);
      root in nodes && forall o :: 1 <= o < |nodes[root].slots| ==> nodes[root].slots[o] == Empty
    ensures q == Pos(height - 1, 0) || q.level + 1 < height
    ensures q.level + 2 == height ==> q.chunk == 0
  {
    hide LinksIn, SlotsIn, SlotVals;
    BelowHeight(nodes, height, q);
    if q.level + 2 == height {
      var root := Pos(height - 1, 0);
      ParentPos(nodes, height, q);
      BelowHeight(nodes, height, Pos(q.level + 1, Hi(q.chunk)));
      CatHiLo(q.chunk);
      NodeFacts(nodes, height, contents, root);
      assert nodes[root].slots[Lo(q.chunk)] == Child(nodes[q]);
    }
  }

  lemma ParentPos(nodes: map<Pos, Node>, height: nat, q: Pos)
    requires LinksIn(nodes, height) && q in nodes && q.level + 1 < height
    ensures Pos(q.level + 1, Hi(q.chunk)) in nodes
  {
    LinkFacts(nodes, height, q);
  }

  lemma ContentsUnderSlotZero(nodes: map<Pos, Node>, height: nat, contents: map<nat, Entry>, i: nat)
    requires LinksIn(nodes, height) && SlotsIn(nodes, contents) && CoveredBy(contents, height, nodes) && height > 0
    requires var root := Pos(height - 1, 0);
      root in nodes && forall o :: 1 <= o < |nodes[root].slots| ==> nodes[root].slots[o] == Empty
    requires i in contents
    ensures Up(i, height - 1) == 0
  {
    hide LinksIn, SlotsIn;
    assert Pos(0, Hi(i)) in nodes && Up(i, 1) == Hi(i);
    if height > 1 {
      PathUp(nodes, height, i, 0, height - 2);
      UnderSlotZero(nodes, height, contents, Pos(height - 2, Up(i, height - 1)));
    } else {
      NodeFacts(nodes, height, contents, Pos(0, 0));
      CatHiLo(i);
      assert nodes[Pos(0, 0)].slots[Lo(i)] == Stored(contents[i]);
    }
  }

  lemma CoveredLower(nodes: map<Pos, Node>, height: nat, contents: map<nat, Entry>)
    requires LinksIn(nodes, height) && SlotsIn(nodes, contents) && CoveredBy(contents, height, nodes) && height > 0
    requires var root := Pos(height - 1, 0);
      root in nodes && forall o :: 1 <= o < |nodes[root].slots| ==> nodes[root].slots[o] == Empty
    ensures CoveredBy(contents, height - 1, nodes - {Pos(height - 1, 0)})
  {
    hide LinksIn, SlotsIn;
    forall i | i in contents
      ensures Up(i, height - 1) == 0
    {
      ContentsUnderSlotZero(nodes, height, contents, i);
    }
  }

  /** Links after the root has gone and its child in slot 0 has lost its parent. */
  lemma LinksLower(nodes: map<Pos, Node>, height: nat)
    requires height > 0 && Pos(height - 1, 0) in nodes
    requires forall q :: q in nodes ==> q == Pos(height - 1, 0) || q.level + 1 < height
    requires forall q :: q in nodes && q.level + 2 < height ==> nodes[q].Linked(q, height, nodes)
    requires forall q :: q in nodes && q.level + 2 == height ==>
               && q.chunk == 0 && nodes[q].level == q.level && nodes[q].chunk == 0
               && nodes[q].shift == ShiftOf(q.level) && nodes[q].parent == null
    ensures LinksIn(nodes - {Pos(height - 1, 0)}, height - 1)
  {
    var nodes' := nodes - {Pos(height - 1, 0)};
    forall q | q in nodes'
      ensures nodes'[q].Linked(q, height - 1, nodes')
    {
      if q.level + 2 < height {
        assert nodes[q].Linked(q, height, nodes);
      }
    }
  }

  lemma SlotsLower(nodes: map<Pos, Node>, height: nat, contents: map<nat, Entry>)
    requires LinksIn(nodes, height) && SlotsIn(nodes, contents) && height > 0
    ensures SlotsIn(nodes - {Pos(height - 1, 0)}, contents)
  {
    forall q | q in nodes - {Pos(height - 1, 0)}
      ensures SlotVals(nodes[q].slots, q, nodes - {Pos(height - 1, 0)}, contents)
    {
      assert nodes[q].Linked(q, height, nodes);
      SlotsDrop(nodes[q].slots, q, nodes, contents, Pos(height - 1, 0));
    }
  }

  /** The flags after the shrink: only the free flag can be lost. */
  lemma FlagsLower(flags: seq<bool>, marks: seq<seq<bool>>, contents: map<nat, Entry>, height: nat,
                   nodes: map<Pos, Node>, t: Tags, trackFree: bool)
    requires height > 0 && FlagVals(flags, height, t) && MarkBits(marks, Pos(height - 1, 0), t)
    requires Rested(contents, t, trackFree) && CoveredBy(contents, height - 1, nodes)
    ensures FlagVals(if trackFree && !marks[FREE_MARK][0] then flags[FREE_MARK := false] else flags, height - 1, t)
  {
    hide Rested, CoveredBy, Any;
    forall m | 0 <= m < MAX_MARKS
      ensures Any(t[m], height - 1, 0) <==> flags[m] && (trackFree && m == FREE_MARK ==> marks[m][0])
    {
      AnySlot(t[m], height - 1, 0);
      assert marks[m][0] <==> Any(t[m], height - 1, Cat(0, 0));
      forall o | 1 <= o < CHUNK_SIZE
        ensures Any(t[m], height - 1, Cat(0, o)) <==> trackFree && m == FREE_MARK
      {
        BeyondReach(contents, height - 1, nodes, t, trackFree, m, Cat(0, o));
      }
    }
  }

  lemma {:induction false} BlankCounts(n: nat)
    ensures Used(seq(n, _ => Empty)) == 0 && Values(seq(n, _ => Empty)) == 0
  {
    if n != 0 {
      assert seq(n, _ => Empty)[1..] == seq(n - 1, _ => Empty);
      BlankCounts(n - 1);
    }
  }

  lemma BlankFacts()
    ensures |Blank()| == CHUNK_SIZE && Blank()[0] == Empty && Used(Blank()) == 0 && Values(Blank()) == 0
  {
    BlankCounts(CHUNK_SIZE);
  }

  /** No node hangs below an unused position. */
  lemma NoOrphan(nodes: map<Pos, Node>, height: nat, c: Pos, q: Pos)
    requires LinksIn(nodes, height) && c !in nodes && (c.level < height || nodes == map[])
    requires q.level + 1 == c.level && Hi(q.chunk) == c.chunk
    ensures q !in nodes
  {
  }

  /** A new node without used slots is right for a position where nothing is stored. */
  lemma BlankSlots(nodes: map<Pos, Node>, height: nat, contents: map<nat, Entry>, c: Pos, n: Node)
    requires LinksIn(nodes, height) && c !in nodes && (c.level < height || nodes == map[])
    requires forall i: nat :: Up(i, c.level + 1) == c.chunk ==> i !in contents
    ensures SlotVals(Blank(), c, nodes[c := n], contents)
  {
    forall o | 0 <= o < CHUNK_SIZE
      ensures SlotSpec(nodes[c := n], contents, c.level, Cat(c.chunk, o)) == Empty
    {
      HiLoCat(c.chunk, o);
      var k := Cat(c.chunk, o);
      if c.level == 0 {
        assert Up(k, 1) == c.chunk;
      } else {
        NoOrphan(nodes, height, c, Pos(c.level - 1, k));
      }
    }
  }

  lemma MarksAdd(nodes: map<Pos, Node>, t: Tags, c: Pos, n: Node)
    requires MarksIn(nodes, t) && MarkBits(n.marks, c, t)
    ensures MarksIn(nodes[c := n], t)
  {
  }

  lemma CountsAdd(nodes: map<Pos, Node>, c: Pos, n: Node)
    requires CountsIn(nodes, null, 0, 0) && n.count == Used(n.slots) && n.nrValues == Values(n.slots)
    ensures CountsIn(nodes[c := n], null, 0, 0)
  {
  }

  lemma HeadRaise(head: Slot, height: nat, nodes: map<Pos, Node>, contents: map<nat, Entry>, zeroBusy: bool, n: Node)
    requires HeadVals(head, height, nodes, contents, zeroBusy) && ShiftOf(height) <= 60
    ensures HeadVals(Child(n), height + 1, nodes[Pos(height, 0) := n], contents, zeroBusy)
  {
  }

  lemma HeadEntry(head: Slot, height: nat, nodes: map<Pos, Node>, contents: map<nat, Entry>, zeroBusy: bool)
    requires HeadVals(head, height, nodes, contents, zeroBusy)
    ensures height == 0 ==> !SlotSpec(nodes, contents, height, 0).Child?
    ensures height > 0 ==> SlotSpec(nodes, contents, height, 0) == head
    ensures height == 0 && head == Empty && 0 in contents ==> SlotSpec(nodes, contents, 0, 0) == Stored(Zero)
    ensures height == 0 && head != Empty ==> SlotSpec(nodes, contents, 0, 0) == head
  {
  }

  lemma HeadGrow(head: Slot, height: nat, nodes: map<Pos, Node>, contents: map<nat, Entry>, zeroBusy: bool,
                 c: Pos, n: Node)
    requires HeadVals(head, height, nodes, contents, zeroBusy) && c.level + 1 < height
    ensures HeadVals(head, height, nodes[c := n], contents, zeroBusy)
  {
  }

  /** An array without nodes that does not hold index 0 holds nothing. */
  lemma EmptyArray(nodes: map<Pos, Node>, contents: map<nat, Entry>)
    requires 0 !in contents
    requires LinksIn(nodes, 0) && CoveredBy(contents, 0, nodes)
    ensures nodes == map[] && contents == map[]
  {
    forall q: Pos
      ensures q !in nodes
    {
      if q in nodes {
        BelowHeight(nodes, 0, q);
      }
    }
    forall i: nat
      ensures i !in contents
    {
      assert Up(i, 0) == i;
    }
  }

  /** The flags do not depend on the height while nothing is stored. */
  lemma EmptyFlags(flags: seq<bool>, h: nat, t: Tags, trackFree: bool)
    requires FlagVals(flags, 0, t) && Rested(map[], t, trackFree)
    ensures FlagVals(flags, h, t)
  {
    hide Rested, Any;
    forall m | 0 <= m < MAX_MARKS
      ensures Any(t[m], h, 0) <==> Any(t[m], 0, 0)
    {
      RestSlot(map[], t, trackFree, m, h, 0);
      RestSlot(map[], t, trackFree, m, 0, 0);
    }
  }

  /** The tree of a single node without used slots. */
  lemma SingleBlank(n: Node, h: nat, t: Tags, trackFree: bool)
    requires h > 0 && n.Linked(Pos(h - 1, 0), h, map[Pos(h - 1, 0) := n])
    requires n.slots == Blank() && n.count == n.nrValues == 0 && AtRest(n.marks, trackFree)
    requires Rested(map[], t, trackFree)
    ensures var nodes := map[Pos(h - 1, 0) := n];
      && LinksIn(nodes, h) && SlotsIn(nodes, map[]) && CountsIn(nodes, null, 0, 0) && MarksIn(nodes, t)
      && CoveredBy(map[], h, nodes)
  {
    hide MarkBits, SlotVals, AtRest, Rested, Blank, Used, Values;
    var c := Pos(h - 1, 0);
    var none: map<Pos, Node> := map[];
    NoNodes(t, map[]);
    RestBits(n.marks, map[], t, trackFree, c);
    BlankSlots(none, h, map[], c, n);
    BlankFacts();
    assert none[c := n] == map[c := n];
  }

  lemma MarksDrop(nodes: map<Pos, Node>, t: Tags, c: Pos)
    requires MarksIn(nodes, t)
    ensures MarksIn(nodes - {c}, t)
  {
  }

  lemma CountsDrop(nodes: map<Pos, Node>, n: Node?, dc: int, dv: int, c: Pos)
    requires CountsIn(nodes, n, dc, dv)
    ensures CountsIn(nodes - {c}, n, dc, dv)
  {
  }

  lemma HeadShrink(head: Slot, height: nat, nodes: map<Pos, Node>, contents: map<nat, Entry>, zeroBusy: bool, c: Pos)
    requires HeadVals(head, height, nodes, contents, zeroBusy) && c.level + 1 < height
    ensures HeadVals(head, height, nodes - {c}, contents, zeroBusy)
  {
  }

  lemma EmptyTop(flags: seq<bool>, height: nat, nodes: map<Pos, Node>, t: Tags, trackFree: bool)
    requires FlagVals(flags, height, t) && Rested(map[], t, trackFree)
    ensures FlagVals(flags, 0, t)
  {
    hide Rested, Any;
    forall m | 0 <= m < MAX_MARKS
      ensures Any(t[m], height, 0) <==> Any(t[m], 0, 0)
    {
      RestSlot(map[], t, trackFree, m, height, 0);
      RestSlot(map[], t, trackFree, m, 0, 0);
    }
  }

  lemma CoveredEmpty()
    ensures CoveredBy(map[], 0, map[])
  {
  }

  lemma CountFacts(nodes: map<Pos, Node>, q: Pos)
    requires CountsIn(nodes, null, 0, 0) && q in nodes
    ensures nodes[q].count == Used(nodes[q].slots) && nodes[q].nrValues == Values(nodes[q].slots)
  {
  }

  lemma LinkFacts(nodes: map<Pos, Node>, height: nat, q: Pos)
    requires LinksIn(nodes, height) && q in nodes
    ensures nodes[q].Linked(q, height, nodes)
  {
  }

  lemma RootMarks(nodes: map<Pos, Node>, t: Tags, q: Pos)
    requires MarksIn(nodes, t) && q in nodes
    ensures MarkBits(nodes[q].marks, q, t)
    ensures |nodes[q].marks| == MAX_MARKS && |nodes[q].marks[FREE_MARK]| == CHUNK_SIZE
  {
  }

  lemma AllLinked(nodes: map<Pos, Node>, height: nat)
    requires LinksIn(nodes, height)
    ensures forall q :: q in nodes ==> nodes[q].Linked(q, height, nodes)
  {
  }

  /** Only one position is at the top level. */
  lemma TopLinks(nodes: map<Pos, Node>, height: nat)
    requires LinksIn(nodes, height)
    ensures forall q :: q in nodes ==> q.level < height
    ensures forall q :: q in nodes && q.level + 1 == height ==> q == Pos(height - 1, 0)
  {
    forall q | q in nodes
      ensures q.level < height && (q.level + 1 == height ==> q.chunk == 0)
    {
      BelowHeight(nodes, height, q);
    }
  }

  lemma NodeLink(nodes: map<Pos, Node>, height: nat, q: Pos)
    requires LinksIn(nodes, height) && q in nodes
    ensures nodes[q].level == q.level && nodes[q].chunk == q.chunk && nodes[q].shift == ShiftOf(q.level)
  {
    LinkFacts(nodes, height, q);
  }

  lemma RootLink(n: Node, height: nat, nodes: map<Pos, Node>)
    requires n.level == height && n.chunk == 0 && n.shift == ShiftOf(height) && n.parent == null
    ensures n.Linked(Pos(height, 0), height + 1, nodes)
  {
  }

  /** A child found in a slot on the path of `i` is the next node on that path. */
  lemma ChildOnPath(nodes: map<Pos, Node>, height: nat, contents: map<nat, Entry>, i: nat, l: nat)
    requires LinksIn(nodes, height) && SlotSpec(nodes, contents, l, Up(i, l)).Child?
    ensures var n := SlotSpec(nodes, contents, l, Up(i, l)).node;
      l > 0 && n.level == l - 1 && OnPath(nodes, n, i, l - 1) && n.shift == ShiftOf(l - 1) && l <= height
  {
    LinkFacts(nodes, height, Pos(l - 1, Up(i, l)));
  }

  /** An empty slot above index `i` means nothing is stored there. */
  lemma EmptySlot(nodes: map<Pos, Node>, height: nat, contents: map<nat, Entry>, i: nat, l: nat)
    requires LinksIn(nodes, height) && CoveredBy(contents, height, nodes)
    requires l < height && SlotSpec(nodes, contents, l, Up(i, l)) == Empty
    ensures i !in contents
  {
    if l > 0 {
      NothingBelow(nodes, height, contents, Pos(l - 1, Up(i, l)), i);
    }
  }

  lemma OutOfReach(contents: map<nat, Entry>, height: nat, nodes: map<Pos, Node>, i: nat)
    requires CoveredBy(contents, height, nodes) && Up(i, height) != 0
    ensures i !in contents
  {
  }

  lemma HeadOnPath(head: Slot, height: nat, nodes: map<Pos, Node>, contents: map<nat, Entry>, zeroBusy: bool, i: nat)
    requires HeadVals(head, height, nodes, contents, zeroBusy) && LinksIn(nodes, height)
    requires height > 0 && Up(i, height) == 0
    ensures head.Child? && head.node.level == height - 1 && OnPath(nodes, head.node, i, height - 1)
    ensures head.node.shift == ShiftOf(height - 1) <= 60
  {
    HeadFacts(head, height, nodes, contents, zeroBusy);
  }

  lemma NoNodes(t: Tags, contents: map<nat, Entry>)
    ensures var none: map<Pos, Node> := map[];
      LinksIn(none, 0) && SlotsIn(none, contents) && CountsIn(none, null, 0, 0) && MarksIn(none, t)
  {
  }

  /** What xas_shrink() finds in slot 0 of the root is the head of the lower tree. */
  lemma HeadLower(head: Slot, height: nat, nodes: map<Pos, Node>, contents: map<nat, Entry>, zeroBusy: bool,
                  entry: Slot)
    requires HeadVals(head, height, nodes, contents, zeroBusy) && height > 0
    requires entry == SlotSpec(nodes, contents, height - 1, 0) && entry != Empty
    ensures height == 1 ==> entry.Stored?
    ensures height > 1 ==> Pos(height - 2, 0) in nodes && entry == Child(nodes[Pos(height - 2, 0)])
    ensures HeadVals(if zeroBusy && entry == Stored(Zero) then Empty else entry, height - 1,
                     nodes - {Pos(height - 1, 0)}, contents, zeroBusy)
  {
  }

  lemma RootSlotZero(nodes: map<Pos, Node>, height: nat, contents: map<nat, Entry>)
    requires LinksIn(nodes, height) && SlotsIn(nodes, contents) && height > 0 && Pos(height - 1, 0) in nodes
    ensures |nodes[Pos(height - 1, 0)].slots| == CHUNK_SIZE
    ensures nodes[Pos(height - 1, 0)].slots[0] == SlotSpec(nodes, contents, height - 1, 0)
  {
    hide LinksIn, SlotsIn, SlotVals;
    NodeFacts(nodes, height, contents, Pos(height - 1, 0));
    assert Cat(0, 0) == 0;
  }

  /** A root with one used slot, slot 0, and the tree below it. */
  lemma LoneSlot(nodes: map<Pos, Node>, height: nat, contents: map<nat, Entry>)
    requires LinksIn(nodes, height) && SlotsIn(nodes, contents) && CountsIn(nodes, null, 0, 0)
    requires CoveredBy(contents, height, nodes) && height > 0
    requires var root := Pos(height - 1, 0);
      root in nodes && nodes[root].count == 1 && |nodes[root].slots| == CHUNK_SIZE && nodes[root].slots[0] != Empty
    ensures CoveredBy(contents, height - 1, nodes - {Pos(height - 1, 0)})
    ensures SlotsIn(nodes - {Pos(height - 1, 0)}, contents)
    ensures forall q :: q in nodes ==> q == Pos(height - 1, 0) || q.level + 1 < height
    ensures forall q :: q in nodes && q.level + 2 == height ==> q == Pos(height - 2, 0)
  {
    hide LinksIn, SlotsIn, CoveredBy;
    var root := Pos(height - 1, 0);
    UsedOne(nodes[root].slots);
    CoveredLower(nodes, height, contents);
    SlotsLower(nodes, height, contents);
    forall q | q in nodes
      ensures q == root || q.level + 1 < height
      ensures q.level + 2 == height ==> q.chunk == 0
    {
      UnderSlotZero(nodes, height, contents, q);
    }
  }

  // Shape

  /** No node is empty, apart from `n`. */
  ghost predicate NoEmpty(nodes: map<Pos, Node>, n: Node?)
    reads nodes.Values`count
  {
    forall q :: q in nodes && nodes[q] != n ==> nodes[q].count > 0
  }

  /** The root, if there is one, uses a slot past slot 0 or does not use slot 0. */
  ghost predicate Tight(nodes: map<Pos, Node>, height: nat)
    reads nodes.Values`count, nodes.Values`slots
  {
    height > 0 && Pos(height - 1, 0) in nodes ==>
      !Loose(nodes[Pos(height - 1, 0)].count, nodes[Pos(height - 1, 0)].slots)
  }

  /** `after` is what is left of `before` when some nodes are gone. */
  ghost predicate Shrunk(before: map<Pos, Node>, after: map<Pos, Node>)
  {
    forall q :: q in after ==> q in before && after[q] == before[q]
  }

  /** Positions name nodes, so one position less is one node less. */
  lemma ValuesDrop(nodes: map<Pos, Node>, height: nat, c: Pos)
    requires LinksIn(nodes, height) && c in nodes
    ensures (nodes - {c}).Values == nodes.Values - {nodes[c]}
  {
    hide LinksIn;
    Distinct(nodes, height, c);
    forall n | n in nodes.Values && n != nodes[c]
      ensures n in (nodes - {c}).Values
    {
      var q :| q in nodes && nodes[q] == n;
      assert (nodes - {c})[q] == n;
    }
  }

  /** What is left of a tree once the nodes above index `i` from level `l` up to `top` are gone, and with them every
      node at level `height` or above. */
  ghost predicate Pruned(before: map<Pos, Node>, after: map<Pos, Node>, i: nat, l: nat, top: nat, height: nat)
  {
    && Shrunk(before, after)
    && forall q :: q in before ==>
         (q in after <==> q.level < height && !(l <= q.level < top && q.chunk == Up(i, q.level + 1)))
  }

  lemma PrunedSame(nodes: map<Pos, Node>, i: nat, l: nat, height: nat)
    requires LinksIn(nodes, height)
    ensures Pruned(nodes, nodes, i, l, l, height)
  {
    hide LinksIn;
    forall q | q in nodes
      ensures q.level < height
    {
      BelowHeight(nodes, height, q);
    }
  }

  lemma PrunedStep(before: map<Pos, Node>, was: map<Pos, Node>, i: nat, l: nat, top: nat, height: nat)
    requires Pruned(before, was, i, l, top, height) && l <= top
    ensures Pruned(before, was - {Pos(top, Up(i, top + 1))}, i, l, top + 1, height)
  {
    hide Up;
  }

  lemma PrunedAway(before: map<Pos, Node>, i: nat, l: nat, top: nat)
    ensures Pruned(before, map[], i, l, top, 0)
  {
  }

  lemma PrunedLower(before: map<Pos, Node>, was: map<Pos, Node>, height: nat)
    requires Pruned(before, was, 0, 0, 0, height) && LinksIn(was, height) && height > 0
    ensures Pruned(before, was - {Pos(height - 1, 0)}, 0, 0, 0, height - 1)
  {
    hide LinksIn;
    forall q | q in was
      ensures q.level < height - 1 || q == Pos(height - 1, 0)
    {
      BelowHeight(was, height, q);
    }
  }

  lemma PrunedBoth(before: map<Pos, Node>, was: map<Pos, Node>, after: map<Pos, Node>, i: nat, l: nat, top: nat,
                   height: nat, height': nat)
    requires Pruned(before, was, i, l, top, height) && Pruned(was, after, 0, 0, 0, height') && height' <= height
    ensures Pruned(before, after, i, l, top, height')
  {
    hide Up;
  }

  lemma ShrunkValues(before: map<Pos, Node>, after: map<Pos, Node>)
    requires Shrunk(before, after)
    ensures after.Values <= before.Values
  {
  }

  /** Above the leaves a used slot holds a child. */
  lemma UsedIsChild(nodes: map<Pos, Node>, height: nat, contents: map<nat, Entry>, q: Pos, o: nat)
    requires LinksIn(nodes, height) && SlotsIn(nodes, contents) && q in nodes && o < CHUNK_SIZE
    ensures |nodes[q].slots| == CHUNK_SIZE && nodes[q].shift == ShiftOf(q.level)
    ensures nodes[q].slots[o] != Empty ==> nodes[q].slots[o].Child? || q.level == 0
    ensures nodes[q].slots[o] != Empty && q.level == 0 ==> nodes[q].slots[o].Stored?
  {
    hide LinksIn, SlotsIn, SlotVals;
    NodeFacts(nodes, height, contents, q);
  }

  lemma ParentView(nodes: map<Pos, Node>, height: nat, q: Pos)
    requires LinksIn(nodes, height) && q in nodes
    ensures q.level < height && (nodes[q].parent == null <==> q == Pos(height - 1, 0))
    ensures nodes[q].parent != null ==> nodes[q].parent in nodes.Values
  {
    LinkFacts(nodes, height, q);
  }

  lemma NoneEmpty(nodes: map<Pos, Node>, n: Node)
    requires NoEmpty(nodes, n) && n.count > 0
    ensures NoEmpty(nodes, null)
  {
  }

  /** Every empty node is on the way to index `i`, where a store that is still going on will fill it. */
  ghost predicate OnWay(nodes: map<Pos, Node>, i: nat)
    reads nodes.Values`count
  {
    forall q :: q in nodes && nodes[q].count == 0 ==> q.chunk == Up(i, q.level + 1)
  }

  lemma OnWayAdd(nodes: map<Pos, Node>, c: Pos, n: Node, i: nat)
    requires OnWay(nodes, i) && n.count > 0
    ensures OnWay(nodes[c := n], i)
  {
  }

  /** A node below another one shows that the other one is not empty. */
  lemma {:induction false} WayEnds(nodes: map<Pos, Node>, height: nat, contents: map<nat, Entry>, i: nat, l: nat,
                                   m: nat)
    requires LinksIn(nodes, height) && SlotsIn(nodes, contents) && CountsIn(nodes, null, 0, 0)
    requires Pos(l, Up(i, l + 1)) in nodes && Pos(m, Up(i, m + 1)) in nodes && l < m
    ensures nodes[Pos(m, Up(i, m + 1))].count > 0
  {
    hide LinksIn, SlotsIn, CountsIn, SlotVals, Up;
    BelowHeight(nodes, height, Pos(m, Up(i, m + 1)));
    PathUp(nodes, height, i, l, m - 1);
    NodeFacts(nodes, height, contents, Pos(m, Up(i, m + 1)));
    UpStep(i, m);
    SlotCounted(nodes, Pos(m, Up(i, m + 1)), Lo(Up(i, m)));
  }

  /** Once there is a leaf for index `i`, no other node on the way is empty. */
  lemma LeafOnly(nodes: map<Pos, Node>, height: nat, contents: map<nat, Entry>, i: nat)
    requires LinksIn(nodes, height) && SlotsIn(nodes, contents) && CountsIn(nodes, null, 0, 0)
    requires OnWay(nodes, i) && Pos(0, Up(i, 1)) in nodes
    ensures NoEmpty(nodes, nodes[Pos(0, Up(i, 1))])
  {
    hide LinksIn, SlotsIn, CountsIn, Up;
    forall q | q in nodes && q != Pos(0, Up(i, 1))
      ensures nodes[q].count > 0
    {
      if nodes[q].count == 0 && q.level > 0 {
        WayEnds(nodes, height, contents, i, 0, q.level);
      }
    }
  }

  /** The root uses a slot past slot 0, or will once index `i` is stored. */
  ghost predicate Firm(nodes: map<Pos, Node>, height: nat, i: nat)
    reads nodes.Values`count, nodes.Values`slots
  {
    height > 0 && Pos(height - 1, 0) in nodes ==>
      (nodes[Pos(height - 1, 0)].count > 0 && Tight(nodes, height)) || Up(i, height - 1) != 0
  }

  lemma SlotCounted(nodes: map<Pos, Node>, q: Pos, o: nat)
    requires CountsIn(nodes, null, 0, 0) && q in nodes && o < |nodes[q].slots| && nodes[q].slots[o] != Empty
    ensures nodes[q].count > 0
  {
    UsedZero(nodes[q].slots);
  }

  lemma NothingEmpty(n: Node?)
    ensures NoEmpty(map[], n) && Tight(map[], 0)
  {
  }

  lemma ValuesAdd(nodes: map<Pos, Node>, c: Pos, n: Node)
    requires c !in nodes
    ensures nodes[c := n].Values == nodes.Values + {n}
  {
    forall m | m in nodes.Values
      ensures m in nodes[c := n].Values
    {
      var q :| q in nodes && nodes[q] == m;
      assert nodes[c := n][q] == m;
    }
    assert nodes[c := n][c] == n;
  }

  lemma ValuesOne(c: Pos, n: Node)
    ensures map[c := n].Values == {n}
  {
    assert map[c := n][c] == n;
  }

  /** `after` is `before` with new nodes, each on the path of index `i` or above the old head. */
  ghost predicate Grown(before: map<Pos, Node>, after: map<Pos, Node>, i: nat)
  {
    && (forall q :: q in before ==> q in after && after[q] == before[q])
    && (forall q :: q in after && q !in before ==>
          (q.chunk == 0 || q.chunk == Up(i, q.level + 1)) && ShiftOf(q.level) <= 60)
  }

  lemma GrownTrans(a: map<Pos, Node>, b: map<Pos, Node>, c: map<Pos, Node>, i: nat)
    requires Grown(a, b, i) && Grown(b, c, i)
    ensures Grown(a, c, i) && a.Keys <= b.Keys <= c.Keys
  {
  }

  lemma GrownSame(a: map<Pos, Node>, i: nat)
    ensures Grown(a, a, i)
  {
  }

  lemma ChildEntry(nodes: map<Pos, Node>, contents: map<nat, Entry>, l: nat, k: nat)
    requires Pos(l, k) in nodes
    ensures SlotSpec(nodes, contents, l + 1, k) == Child(nodes[Pos(l, k)])
  {
  }

  lemma GrownFirst(a: map<Pos, Node>, c: Pos, n: Node, i: nat)
    requires a == map[] && (c.chunk == 0 || c.chunk == Up(i, c.level + 1)) && ShiftOf(c.level) <= 60
    ensures Grown(a, map[c := n], i)
  {
  }

  lemma GrownOne(a: map<Pos, Node>, c: Pos, n: Node, i: nat)
    requires c !in a && (c.chunk == 0 || c.chunk == Up(i, c.level + 1)) && ShiftOf(c.level) <= 60
    ensures Grown(a, a[c := n], i)
  {
  }

  // Storing one entry

  lemma HeadPut(head: Slot, height: nat, nodes: map<Pos, Node>, contents: map<nat, Entry>, zeroBusy: bool,
                i: nat, x: Slot)
    requires HeadVals(head, height, nodes, contents, zeroBusy) && height > 0 && (x == Empty || x.Stored?)
    ensures HeadVals(head, height, nodes, Update(contents, i, x), zeroBusy)
  {
  }

  lemma CoveredPut(contents: map<nat, Entry>, height: nat, nodes: map<Pos, Node>, i: nat, x: Slot)
    requires CoveredBy(contents, height, nodes) && (x == Empty || x.Stored?)
    requires i < WORD && Up(i, height) == 0 && (height > 0 ==> Pos(0, Hi(i)) in nodes)
    ensures CoveredBy(Update(contents, i, x), height, nodes)
  {
  }

  /** Index `i` carries the marks of an index that holds nothing. */
  ghost predicate RestedAt(t: Tags, i: nat, trackFree: bool)
  {
    |t| == MAX_MARKS && forall m :: 0 <= m < MAX_MARKS ==> (i in t[m] <==> trackFree && m == FREE_MARK)
  }

  lemma RestedPut(contents: map<nat, Entry>, t: Tags, trackFree: bool, i: nat, x: Slot)
    requires Rested(contents, t, trackFree) && (x == Empty || x.Stored?)
    requires x == Empty ==> RestedAt(t, i, trackFree)
    ensures Rested(Update(contents, i, x), t, trackFree)
  {
  }

  lemma ResetRests(t: Tags, i: nat, trackFree: bool)
    requires |t| == MAX_MARKS
    ensures RestedAt(ResetBelow(t, MAX_MARKS, i, trackFree), i, trackFree)
  {
  }

  /** Putting an index at rest that holds nothing changes nothing. */
  lemma ResetAtRest(contents: map<nat, Entry>, t: Tags, i: nat, trackFree: bool)
    requires Rested(contents, t, trackFree) && i !in contents
    ensures ResetBelow(t, MAX_MARKS, i, trackFree) == t
  {
    var r := ResetBelow(t, MAX_MARKS, i, trackFree);
    forall m | 0 <= m < MAX_MARKS
      ensures r[m] == t[m]
    {
      assert i in t[m] <==> trackFree && m == FREE_MARK;
    }
  }

  lemma CountsNone(nodes: map<Pos, Node>, n: Node)
    requires CountsIn(nodes, n, 0, 0)
    ensures CountsIn(nodes, null, 0, 0)
  {
  }

  /** Tightness of a node, by its fields. */
  ghost predicate Loose(count: nat, slots: seq<Slot>)
  {
    count == 1 && slots != [] && slots[0] != Empty
  }

  /** A node that is not loose does not become so by using one more slot, or the same ones. */
  lemma LoosePut(count: nat, slots: seq<Slot>, count': nat, o: nat, x: Slot)
    requires o < |slots| && x != Empty && !Loose(count, slots) && count > 0
    requires count' == count + (if slots[o] == Empty then 1 else 0)
    ensures !Loose(count', slots[o := x])
  {
  }

  /** A root that uses a slot past slot 0 is tight. */
  lemma TightBy(nodes: map<Pos, Node>, height: nat, o: nat)
    requires height > 0 && Pos(height - 1, 0) in nodes && CountsIn(nodes, null, 0, 0)
    requires var root := nodes[Pos(height - 1, 0)]; 1 <= o < |root.slots| && root.slots[o] != Empty
    ensures Tight(nodes, height)
  {
    var root := nodes[Pos(height - 1, 0)];
    if root.slots[0] != Empty {
      UsedOne(root.slots);
    }
  }

  /** The entry at index `i`, reserved entries included. */
  ghost function EntryAt(contents: map<nat, Entry>, i: nat): Slot
  {
    if i in contents then Stored(contents[i]) else Empty
  }

  /** The positions below level `n` that xas_create() may fill on its way to index `i`. */
  ghost function Targets(i: nat, n: nat): set<Pos>
  {
    if n == 0 then {} else Targets(i, n - 1) + {Pos(n - 1, 0), Pos(n - 1, Up(i, n))}
  }

  lemma InTargets(i: nat, n: nat, q: Pos)
    requires q.level < n && (q.chunk == 0 || q.chunk == Up(i, q.level + 1))
    ensures q in Targets(i, n)
  {
    if q.level + 1 < n {
      InTargets(i, n - 1, q);
    }
  }

  lemma GrownKeys(before: map<Pos, Node>, after: map<Pos, Node>, i: nat)
    requires Grown(before, after, i) && after.Keys <= before.Keys
    ensures before == after
  {
  }

  /** The positions left to fill. */
  ghost function Missing(nodes: map<Pos, Node>, i: nat): set<Pos>
  {
    Targets(i, 16) - nodes.Keys
  }

  lemma MissingShrinks(before: map<Pos, Node>, after: map<Pos, Node>, i: nat)
    requires Grown(before, after, i)
    ensures before == after || Missing(after, i) < Missing(before, i)
  {
    if after.Keys <= before.Keys {
      GrownKeys(before, after, i);
    } else {
      var q :| q in after && q !in before;
      InTargets(i, 16, q);
      assert q in Missing(before, i) && q !in Missing(after, i);
    }
  }

  /** No place in the tree lies past the reach of the root. */
  lemma PlaceWithin(nodes: map<Pos, Node>, height: nat, q: Pos, o: nat)
    requires LinksIn(nodes, height) && q in nodes && o <= CHUNK_SIZE
    ensures Base(q.level, Cat(q.chunk, o)) <= Base(height, 1)
  {
    hide LinksIn, Base, Up;
    BelowHeight(nodes, height, q);
    var i := Base(q.level + 1, q.chunk);
    UpBase(q.level + 1, q.chunk);
    PathTop(nodes, height, i, q.level);
    Covers(i, height, 1);
    BaseMonotone(q.level, Cat(q.chunk, o), Cat(q.chunk, CHUNK_SIZE));
    BaseStep(q.level, q.chunk);
    NestedEnd(q.level + 1, q.chunk, height);
  }

  // The empty array

  ghost predicate MarkedClean(i: nat, m: int, trackFree: bool, zeroBusy: bool)
  {
    trackFree && m == FREE_MARK && (zeroBusy ==> i != 0)
  }

  /** The marks of an array that holds nothing but, perhaps, the reserved index 0. */
  ghost function Clean(trackFree: bool, zeroBusy: bool): Tags
  {
    seq(MAX_MARKS, m => iset i: nat | MarkedClean(i, m, trackFree, zeroBusy))
  }

  ghost function Nothing(zeroBusy: bool): map<nat, Entry>
  {
    if zeroBusy then map[0 := Zero] else map[]
  }

  /** A new array keeps every index free, save index 0 if that is to be kept busy; no other mark is set. */
  lemma CleanMeans(trackFree: bool, zeroBusy: bool)
    ensures |Clean(trackFree, zeroBusy)| == 3
    ensures forall m, i: nat :: 0 <= m < 3 ==>
      (i in Clean(trackFree, zeroBusy)[m] <==> trackFree && m == 0 && !(zeroBusy && i == 0))
  {
  }

  lemma CleanParts(trackFree: bool, zeroBusy: bool)
    requires zeroBusy ==> trackFree
    ensures Rested(Nothing(zeroBusy), Clean(trackFree, zeroBusy), trackFree)
    ensures CoveredBy(Nothing(zeroBusy), 0, map[]) && HeadVals(Empty, 0, map[], Nothing(zeroBusy), zeroBusy)
  {
    UpStart(0);
  }

  lemma CleanFlags(flags: seq<bool>, trackFree: bool, zeroBusy: bool)
    requires |flags| == MAX_MARKS
    requires forall m :: 0 <= m < MAX_MARKS ==> (flags[m] <==> trackFree && !zeroBusy && m == FREE_MARK)
    ensures FlagVals(flags, 0, Clean(trackFree, zeroBusy))
  {
    forall m | 0 <= m < MAX_MARKS
      ensures flags[m] <==> Any(Clean(trackFree, zeroBusy)[m], 0, 0)
    {
      AnyBottom(Clean(trackFree, zeroBusy)[m], 0);
    }
  }
}
