/**
 The operation state: a cursor that walks the tree, creates and deletes nodes on the way, and stores and marks entries.
 */
module XaStates {
  import opened Chunks
  import opened Numbers
  import opened XaNodes
  import opened XaTree
  import opened XArrays

  /** -ENOMEM, -EBUSY, -EINVAL */
  datatype Errno = NoMem | Busy | Invalid

  /** The xa_node of an operation state: one of its special values, the head, a node, or an error. */
  datatype Walk = Restart | Bounds | Top | At(n: Node) | Error(e: Errno)

  /** get_offset() */
  function GetOffset(index: nat, n: Node): nat
    reads n`shift
  {
    Lo(Shr(index, n.shift))
  }

  /** struct xa_state, for one index. */
  class XaState {
    const xa: XArray
    var index: nat
    var offset: nat
    var node: Walk
    var spare: Node?

    /** XA_STATE */
    constructor (xa: XArray, index: nat)
      requires index < WORD
      ensures this.xa == xa && this.index == index && node == Restart && spare == null && Cursor()
    {
      this.xa, this.index, offset, node, spare := xa, index, 0, Restart, null;
    }

    /** The cursor agrees with its index: at a node it is on the slot the index passes through. */
    ghost predicate Cursor()
      reads this`index, this`offset, this`node, xa`height, xa`nodes, if node.At? then {node.n} else {}
    {
      && index < WORD
      && match node
         case Top => xa.height == 0 && index == 0
         case Bounds => Up(index, xa.height) != 0
         case At(n) => OnPath(xa.nodes, n, index, n.level) && offset == Lo(Up(index, n.level))
         case _ => true
    }

    /** A walk in progress: `entry` is what the slot under the cursor holds, and lies on the path of the index. */
    ghost predicate Walked(entry: Slot)
      reads this`index, this`offset, this`node, xa`height, xa`nodes, xa`contents, xa`head,
            if node.At? then {node.n} else {}, if entry.Child? then {entry.node} else {}
    {
      && (node == Top || node == Bounds || node.At?)
      && (node == Top ==> Up(index, xa.height) == 0 && entry == xa.head)
      && (node == Bounds ==> Up(index, xa.height) != 0 && entry == Empty)
      && (node.At? ==>
            && OnPath(xa.nodes, node.n, index, node.n.level) && offset == Lo(Up(index, node.n.level))
            && node.n.level < xa.height
            && entry == SlotSpec(xa.nodes, xa.contents, node.n.level, Up(index, node.n.level)))
      && (entry.Child? ==>
            && OnPath(xa.nodes, entry.node, index, entry.node.level)
            && entry.node.shift == ShiftOf(entry.node.level) && entry.node.level < xa.height)
    }

    /** xas_start() */
    method Start() returns (entry: Slot)
      requires xa.Valid() && Cursor()
      modifies this`node
      ensures old(node).Error? ==> node == old(node) && entry == Empty
      ensures !old(node).Error? ==> Walked(entry)
      ensures !old(node).Error? ==> !node.Error?
      ensures old(node).At? ==> node == old(node)
    {
      hide LinksIn, SlotsIn, CountsIn, MarksIn, HeadVals, FlagVals, CoveredBy, Rested, SlotVals, SlotSpec;
      HeadFacts(xa.head, xa.height, xa.nodes, xa.contents, xa.zeroBusy);
      if node == Top {
        return xa.head;
      } else if node.At? {
        NodeFacts(xa.nodes, xa.height, xa.contents, Pos(node.n.level, Up(index, node.n.level + 1)));
        UpStep(index, node.n.level);
        entry := node.n.slots[offset];
        if entry.Child? {
          ChildOnPath(xa.nodes, xa.height, xa.contents, index, node.n.level);
        }
        return;
      } else if node.Error? {
        return Empty;
      }
      entry := xa.head;
      if !entry.Child? {
        if index != 0 {
          node := Bounds;
          return Empty;
        }
      } else {
        ShrIsUp(index, xa.height - 1);
        if Shr(index, entry.node.shift) >= CHUNK_SIZE {
          node := Bounds;
          return Empty;
        }
        HeadOnPath(xa.head, xa.height, xa.nodes, xa.contents, xa.zeroBusy, index);
      }
      node := Top;
    }

    /** xas_descend() */
    method Descend(n: Node) returns (entry: Slot)
      requires LinksIn(xa.nodes, xa.height) && SlotsIn(xa.nodes, xa.contents)
      requires OnPath(xa.nodes, n, index, n.level)
      modifies this`node, this`offset
      ensures node == At(n) && Walked(entry) && |n.slots| == CHUNK_SIZE && entry == n.slots[offset]
    {
      hide LinksIn, SlotsIn, SlotVals, SlotSpec;
      NodeFacts(xa.nodes, xa.height, xa.contents, Pos(n.level, Up(index, n.level + 1)));
      ShrIsUp(index, n.level);
      UpStep(index, n.level);
      offset := GetOffset(index, n);
      entry := n.slots[offset];
      node := At(n);
      if entry.Child? {
        ChildOnPath(xa.nodes, xa.height, xa.contents, index, n.level);
      }
    }

    /** Where a completed walk may end: on a leaf, on an empty slot higher up, at the head, or out of range. */
    ghost predicate Landed(entry: Slot)
      reads this`node, this`offset, if node.At? then {node.n} else {}
    {
      node.At? ==> (node.n.level == 0 || entry == Empty) && offset < |node.n.slots| && node.n.slots[offset] == entry
    }

    /** xas_load(): the walk ends on what is stored at the index. */
    method Load() returns (entry: Slot)
      requires xa.Valid() && Cursor()
      modifies this`node, this`offset
      ensures Cursor()
      ensures old(node).Error? ==> node == old(node) && entry == Empty
      ensures !old(node).Error? ==> !node.Error? && node != Restart && entry == xa.Raw(index) && Landed(entry)
      ensures node == Bounds ==> entry == Empty
    {
      hide LinksIn, SlotsIn, CountsIn, MarksIn, HeadVals, FlagVals, CoveredBy, Rested, SlotVals, Walked;
      entry := Start();
      if node.Error? {
        return;
      }
      while entry.Child?
        invariant Walked(entry)
        decreases if entry.Child? then entry.node.level + 1 else 0
      {
        var n := entry.node;
        ChildFacts(entry);
        entry := Descend(n);
        if entry.Child? {
          LeafFacts(entry);
        }
        if n.shift == 0 {
          break;
        }
      }
      LoadFacts(entry);
    }

    lemma ChildFacts(entry: Slot)
      requires Walked(entry) && entry.Child?
      ensures OnPath(xa.nodes, entry.node, index, entry.node.level)
      ensures entry.node.shift == ShiftOf(entry.node.level) && entry.node.level < xa.height
    {
    }

    /** Levels go down by one at each step of a walk, and a leaf has no children. */
    lemma LeafFacts(entry: Slot)
      requires Walked(entry) && node.At? && entry.Child? && LinksIn(xa.nodes, xa.height)
      ensures node.n.level > 0 && entry.node.level == node.n.level - 1
    {
      ChildOnPath(xa.nodes, xa.height, xa.contents, index, node.n.level);
    }

    /** The end of a walk says what is stored at its index. */
    lemma LoadFacts(entry: Slot)
      requires xa.Valid() && index < WORD && Walked(entry) && !entry.Child?
      ensures Cursor() && entry == xa.Raw(index) && Landed(entry)
      ensures !node.Error? && node != Restart && (node == Bounds ==> entry == Empty)
    {
      hide LinksIn, SlotsIn, CountsIn, MarksIn, HeadVals, FlagVals, CoveredBy, Rested, SlotVals;
      HeadFacts(xa.head, xa.height, xa.nodes, xa.contents, xa.zeroBusy);
      if node == Bounds {
        OutOfReach(xa.contents, xa.height, xa.nodes, index);
      } else if node.At? {
        xa.PathParts(node.n, index);
        if entry == Empty {
          EmptySlot(xa.nodes, xa.height, xa.contents, index, node.n.level);
        }
      }
    }
  
    /** The cursor is on an entry: at a leaf, or at the head of an array without nodes. */
    ghost predicate OnEntry()
      reads this`node, if node.At? then {node.n} else {}
    {
      node == Top || (node.At? && node.n.level == 0)
    }

    /** The cursor is where a walk may have left it: on a leaf, or on an empty slot higher up. */
    ghost predicate Resting()
      reads this`node, this`offset, if node.At? then {node.n} else {}
    {
      node.At? && node.n.level > 0 ==> offset < |node.n.slots| && node.n.slots[offset] == Empty
    }

    /** xas_invalid(): the cursor has not been walked to a slot, or is in an error state. */
    predicate Idle()
      reads this`node
    {
      node == Restart || node == Bounds || node.Error?
    }

    /** xas_set_mark() */
    method SetMark(m: nat)
      requires xa.Valid() && Cursor() && (OnEntry() || Idle()) && m < MAX_MARKS
      requires !Idle() ==> index in xa.contents || (xa.trackFree && m == FREE_MARK)
      modifies xa`flags, xa`tags, xa.nodes.Values`marks
      ensures xa.Valid() && |old(xa.tags)| == MAX_MARKS
      ensures xa.tags == if Idle() then old(xa.tags) else old(Insert(xa.tags, m, index))
    {
      hide LinksIn, SlotsIn, CountsIn, MarksIn, HeadVals, FlagVals, CoveredBy;
      xa.TagCount();
      if Idle() {
        return;
      }
      if node.At? {
        xa.RaiseMarks(node.n, offset, m, index);
      } else {
        xa.RaiseMarks(null, offset, m, index);
      }
      xa.tags := Insert(xa.tags, m, index);
    }

    /** xas_clear_mark() */
    method ClearMark(m: nat)
      requires xa.Valid() && Cursor() && (OnEntry() || Idle()) && m < MAX_MARKS
      requires !Idle() ==> index in xa.contents || !(xa.trackFree && m == FREE_MARK)
      modifies xa`flags, xa`tags, xa.nodes.Values`marks
      ensures xa.Valid() && |old(xa.tags)| == MAX_MARKS
      ensures xa.tags == if Idle() then old(xa.tags) else old(Remove(xa.tags, m, index))
    {
      hide LinksIn, SlotsIn, CountsIn, MarksIn, HeadVals, FlagVals, CoveredBy;
      xa.TagCount();
      if Idle() {
        return;
      }
      if node.At? {
        xa.DropMarks(node.n, offset, m, index);
      } else {
        xa.DropMarks(null, offset, m, index);
      }
      xa.tags := Remove(xa.tags, m, index);
    }

    /** xas_init_marks() */
    method InitMarks()
      requires xa.Valid() && Cursor() && OnEntry() && index in xa.contents
      modifies xa`flags, xa`tags, xa.nodes.Values`marks
      ensures xa.Valid() && xa.tags == old(ResetBelow(xa.tags, MAX_MARKS, index, xa.trackFree))
    {
      hide LinksIn, SlotsIn, CountsIn, MarksIn, HeadVals, FlagVals, CoveredBy;
      ghost var t := xa.tags;
      for m := 0 to MAX_MARKS
        invariant xa.Valid() && xa.tags == ResetBelow(t, m, index, xa.trackFree)
      {
        if xa.trackFree && m == FREE_MARK {
          SetMark(m);
        } else {
          ClearMark(m);
        }
      }
    }
  
    /** `n` is the root of the tree. */
    ghost predicate AtRoot(n: Node)
      reads xa`height, xa`nodes
    {
      xa.height > 0 && Pos(xa.height - 1, 0) in xa.nodes && xa.nodes[Pos(xa.height - 1, 0)] == n
    }

    /** Slot 0 of the root becomes the head; what is left of the tree `before` loses its top level. */
    method ShrinkRound(n: Node, ghost before: map<Pos, Node>) returns (entry: Slot)
      requires xa.Valid() && AtRoot(n) && n.count == 1 && |n.slots| == CHUNK_SIZE && n.slots[0] != Empty
      requires xa.nodes.Values <= xa.live && Pruned(before, xa.nodes, 0, 0, 0, xa.height)
      modifies xa`head, xa`flags, xa`nodes, xa`height, xa`live
      modifies n`count, n`nrValues, n`slots, xa.nodes.Values`parent
      ensures xa.Valid() && Pruned(before, xa.nodes, 0, 0, 0, xa.height) && xa.height == old(xa.height) - 1
      ensures xa.nodes.Values == old(xa.nodes.Values) - {n} && xa.live == old(xa.live) - {n}
      ensures if xa.height == 0 then !entry.Child? else entry.Child? && AtRoot(entry.node)
      ensures old(NoEmpty(xa.nodes, null)) ==> NoEmpty(xa.nodes, null)
    {
      hide XArray.Valid, LinksIn, SlotsIn, NoEmpty, Pruned;
      xa.TreeParts();
      PrunedLower(before, xa.nodes, xa.height);
      entry := xa.ShrinkOnce(n);
    }

    /** xas_shrink() */
    method Shrink()
      requires xa.Valid() && node.At? && AtRoot(node.n) && xa.nodes.Values <= xa.live
      modifies this`node, xa`head, xa`flags, xa`nodes, xa`height, xa`live
      modifies xa.nodes.Values`count, xa.nodes.Values`nrValues, xa.nodes.Values`slots, xa.nodes.Values`parent
      ensures xa.Valid() && Tight(xa.nodes, xa.height) && !node.Error?
      ensures Pruned(old(xa.nodes), xa.nodes, 0, 0, 0, xa.height) && xa.height <= old(xa.height)
      ensures xa.nodes.Values <= xa.live && xa.Outside() == old(xa.Outside())
      ensures old(NoEmpty(xa.nodes, null)) ==> NoEmpty(xa.nodes, null)
    {
      hide XArray.Valid, LinksIn, SlotsIn, NoEmpty, Pruned, Tight;
      ghost var before := xa.nodes;
      xa.TreeParts();
      PrunedSame(before, 0, 0, xa.height);
      var n := node.n;
      while true
        invariant xa.Valid() && AtRoot(n) && !node.Error?
        invariant Pruned(before, xa.nodes, 0, 0, 0, xa.height) && xa.height <= old(xa.height)
        invariant xa.nodes.Values <= xa.live && xa.nodes.Values <= before.Values
        invariant xa.Outside() == old(xa.Outside())
        invariant old(NoEmpty(xa.nodes, null)) ==> NoEmpty(xa.nodes, null)
        decreases xa.height
      {
        RootView(n);
        if n.count != 1 {
          break;
        }
        var entry := n.slots[0];
        if entry == Empty {
          break;
        }
        if !entry.Child? && n.shift != 0 {
          break;
        }
        node := Bounds;
        entry := ShrinkRound(n, before);
        if !entry.Child? {
          TightNone();
          break;
        }
        n := entry.node;
      }
    }

    /** What xas_shrink() sees of the root, and when it has nothing to do. */
    lemma RootView(n: Node)
      requires xa.Valid() && AtRoot(n)
      ensures |n.slots| == CHUNK_SIZE
      ensures n.slots[0] != Empty && n.shift != 0 ==> n.slots[0].Child?
      ensures n.count != 1 || n.slots[0] == Empty ==> Tight(xa.nodes, xa.height)
    {
      hide XArray.Valid;
      xa.TreeParts();
      UsedIsChild(xa.nodes, xa.height, xa.contents, Pos(xa.height - 1, 0), 0);
    }

    lemma TightNone()
      ensures xa.height == 0 ==> Tight(xa.nodes, xa.height)
    {
    }

    /** One round of the loop in xas_delete_node(): the empty node above the index at level `top` goes. */
    method PruneOnce(n: Node, ghost before: map<Pos, Node>, ghost l: nat, ghost top: nat) returns (parent: Node?)
      requires xa.Valid() && OnPath(xa.nodes, n, index, top) && n.count == 0 && xa.nodes.Values <= xa.live
      requires Pruned(before, xa.nodes, index, l, top, xa.height) && l <= top
      modifies this`node, this`offset, xa`head, xa`nodes, xa`height, xa`live
      modifies (if n.parent != null then {n.parent} else {})`slots, (if n.parent != null then {n.parent} else {})`count
      ensures xa.Valid() && Pruned(before, xa.nodes, index, l, top + 1, xa.height)
      ensures xa.nodes.Values <= xa.live && xa.nodes.Values <= old(xa.nodes.Values) && xa.Outside() == old(xa.Outside())
      ensures parent == old(n.parent) && (parent == null ==> node == Bounds && xa.nodes == map[] && xa.height == 0)
      ensures parent != null ==>
        node == At(parent) && xa.height == old(xa.height) && OnPath(xa.nodes, parent, index, top + 1) &&
        top + 1 < xa.height
      ensures old(NoEmpty(xa.nodes, n)) ==> NoEmpty(xa.nodes, parent)
      ensures old(Tight(xa.nodes, xa.height)) ==>
        Tight(xa.nodes, xa.height) || (parent != null && parent.parent == null)
    {
      hide XArray.Valid, NoEmpty, Tight, Pruned, Up;
      PrunedStep(before, xa.nodes, index, l, top, xa.height);
      PrunedAway(before, index, l, top + 1);
      UpStep(index, top + 1);
      parent := n.parent;
      node := if parent == null then Bounds else At(parent);
      offset := n.offset;
      parent := xa.DeleteOnce(n, Pos(top, Up(index, top + 1)));
    }

    /** The loop of xas_delete_node(): free empty nodes from the leaf upwards. */
    method PruneUp() returns (n: Node?, ghost top: nat)
      requires xa.Valid() && node.At? && xa.nodes.Values <= xa.live
      requires OnPath(xa.nodes, node.n, index, node.n.level)
      modifies this`node, this`offset, xa`head, xa`nodes, xa`height, xa`live
      modifies xa.nodes.Values`count, xa.nodes.Values`slots
      ensures xa.Valid() && Pruned(old(xa.nodes), xa.nodes, index, old(node.n.level), top, xa.height)
      ensures xa.nodes.Values <= xa.live && xa.nodes.Values <= old(xa.nodes.Values) && xa.Outside() == old(xa.Outside())
      ensures n == null ==> node == Bounds && xa.nodes == map[] && xa.height == 0
      ensures n != null ==>
        xa.height == old(xa.height) && n.count > 0 && node == At(n) && n in xa.nodes.Values &&
        (n.parent == null ==> AtRoot(n))
      ensures n != null && old(NoEmpty(xa.nodes, node.n)) ==> NoEmpty(xa.nodes, n)
      ensures n != null && old(node.n.parent == null || Tight(xa.nodes, xa.height)) ==>
                n.parent == null || Tight(xa.nodes, xa.height)
    {
      hide XArray.Valid, LinksIn, SlotsIn, NoEmpty, Tight, Up, Pruned;
      ghost var before := xa.nodes;
      ghost var filled := NoEmpty(xa.nodes, node.n);
      ghost var tight := node.n.parent == null || Tight(xa.nodes, xa.height);
      n := node.n;
      ghost var bottom := n.level;
      top := n.level;
      xa.TreeParts();
      PrunedSame(before, index, bottom, xa.height);
      PathParent(n, top);
      while n.count == 0
        invariant n != null && node == At(n) && xa.height == old(xa.height)
        invariant xa.Valid() && Pruned(before, xa.nodes, index, bottom, top, xa.height) && bottom <= top < xa.height
        invariant OnPath(xa.nodes, n, index, top)
        invariant xa.nodes.Values <= xa.live && xa.nodes.Values <= before.Values
        invariant xa.Outside() == old(xa.Outside())
        invariant filled ==> NoEmpty(xa.nodes, n)
        invariant tight ==> n.parent == null || Tight(xa.nodes, xa.height)
        decreases xa.height - top
      {
        PathParent(n, top);
        n := PruneOnce(n, before, bottom, top);
        top := top + 1;
        if n == null {
          return;
        }
      }
      PathParent(n, top);
    }

    lemma PathParent(n: Node, l: nat)
      requires xa.Valid() && OnPath(xa.nodes, n, index, l)
      ensures l < xa.height && n in xa.nodes.Values &&
        (n.parent == null ==> AtRoot(n))
      ensures n.parent != null ==> n.parent in xa.nodes.Values
    {
      hide XArray.Valid, Up;
      xa.ValidParent(Pos(l, Up(index, l + 1)));
    }

    /** xas_delete_node() */
    method DeleteNode() returns (ghost top: nat)
      requires xa.Valid() && node.At? && xa.nodes.Values <= xa.live
      requires OnPath(xa.nodes, node.n, index, node.n.level)
      modifies this`node, this`offset, xa`head, xa`flags, xa`nodes, xa`height, xa`live
      modifies xa.nodes.Values`count, xa.nodes.Values`nrValues, xa.nodes.Values`slots, xa.nodes.Values`parent
      ensures xa.Valid() && !node.Error?
      ensures Pruned(old(xa.nodes), xa.nodes, index, old(node.n.level), top, xa.height) && xa.height <= old(xa.height)
      ensures xa.nodes.Values <= xa.live && xa.Outside() == old(xa.Outside())
      ensures old(NoEmpty(xa.nodes, node.n) && (node.n.parent == null || Tight(xa.nodes, xa.height))) ==>
                NoEmpty(xa.nodes, null) && Tight(xa.nodes, xa.height)
    {
      hide Pruned, LinksIn, SlotsIn, CountsIn, MarksIn, HeadVals, FlagVals, CoveredBy, Rested, SlotVals, NoEmpty, Tight;
      ghost var shaped := NoEmpty(xa.nodes, node.n) && (node.n.parent == null || Tight(xa.nodes, xa.height));
      ghost var before, bottom := xa.nodes, node.n.level;
      var n: Node?;
      n, top := PruneUp();
      if n == null {
        NothingEmpty(null);
        return;
      }
      if shaped {
        NoneEmpty(xa.nodes, n);
      }
      if n.parent == null {
        ghost var was, height := xa.nodes, xa.height;
        Shrink();
        PrunedBoth(before, was, xa.nodes, index, bottom, top, height, xa.height);
      }
    }
  
    /** A node allocated beforehand by xas_nomem(), waiting outside the tree. */
    ghost predicate SpareOk()
      reads this`spare, xa`live, xa`nodes, if spare != null then {spare} else {}
    {
      spare != null ==>
        spare in xa.live && spare !in xa.nodes.Values && spare.slots == Blank() && spare.marks == Unmarked()
    }

    /** xas_alloc(): a node for a slot of the node under the cursor, which is charged for it. */
    method Alloc(shift: nat) returns (n: Node?)
      requires (node == Top || node.At?) && SpareOk() && (node.At? ==> node.n != spare)
      modifies this`node, this`spare, xa`live, xa`failures
      modifies if spare != null then {spare} else {}, (if node.At? then {node.n} else {})`count
      ensures xa.failures == old(xa.failures) <==> !node.Error?
      ensures xa.failures >= old(xa.failures)
      ensures fresh(xa.live - old(xa.live))
      ensures n == null ==> node == Error(NoMem) && old(spare) == null && spare == null && xa.live == old(xa.live)
                            && (old(node).At? ==> old(node).n.count == old(node.n.count))
      ensures n != null ==>
        && node == old(node) && spare == null
        && n.slots == Blank() && n.marks == Unmarked() && n.count == n.nrValues == 0 && n.shift == shift
        && (if node.At? then n.parent == node.n && n.offset == offset && node.n.count == old(node.n.count) + 1
            else n.parent == null)
      ensures n != null ==> if old(spare) != null then n == old(spare) && xa.live == old(xa.live)
                            else fresh(n) && xa.live == old(xa.live) + {n}
    {
      n := spare;
      if n != null {
        spare := null;
      } else {
        n := xa.Allocate();
        if n == null {
          node := Error(NoMem);
          return;
        }
      }
      if node.At? {
        n.offset := offset;
        node.n.count := node.n.count + 1;
      }
      n.shift := shift;
      n.count := 0;
      n.nrValues := 0;
      n.parent := if node.At? then node.n else null;
    }
  
    /** Every node that is out is in the tree, or is the spare one. */
    ghost predicate NoLeak()
      reads this`spare, xa`live, xa`nodes
    {
      xa.nodes.Values <= xa.live && xa.Outside() == if spare == null then {} else {spare}
    }

    /** xas_alloc() for the head of the tree. */
    method AllocTop(shift: nat) returns (n: Node?)
      requires xa.Valid() && node == Top && SpareOk() && NoLeak()
      modifies this`node, this`spare, xa`live, xa`failures, if spare != null then {spare} else {}
      ensures xa.failures == old(xa.failures) <==> !node.Error?
      ensures xa.failures >= old(xa.failures)
      ensures fresh(xa.live - old(xa.live))
      ensures xa.Valid() && SpareOk() && spare == null
      ensures n == null ==> NoLeak() && node == Error(NoMem) && old(spare) == null
      ensures n != null ==>
        && node == Top && n.slots == Blank() && n.marks == Unmarked() && n.count == n.nrValues == 0 && n.shift == shift
        && n.parent == null && n !in xa.nodes.Values
        && xa.nodes.Values + {n} <= xa.live && xa.Outside() == {n} && (fresh(n) || n == old(spare))
    {
      hide XArray.Valid, Blank, Unmarked;
      n := Alloc(shift);
    }

    /** One round of the loop in xas_expand(): a new root above `head`. */
    method Grow(head: Slot, shift: nat) returns (n: Node?)
      requires xa.Valid() && node == Top && SpareOk() && NoLeak()
      requires head != Empty && head == SlotSpec(xa.nodes, xa.contents, xa.height, 0)
      requires shift == ShiftOf(xa.height) <= 60
      modifies this`node, this`spare, xa`head, xa`flags, xa`nodes, xa`height, xa`live, xa`failures
      modifies if spare != null then {spare} else {}
      modifies (if head.Child? then {head.node} else {})`parent, (if head.Child? then {head.node} else {})`offset
      ensures xa.failures == old(xa.failures) <==> !node.Error?
      ensures xa.failures >= old(xa.failures)
      ensures fresh(xa.live - old(xa.live))
      ensures xa.Valid() && SpareOk() && NoLeak()
      ensures n == null ==> node == Error(NoMem) && xa.nodes == old(xa.nodes) && xa.height == old(xa.height)
                            && xa.head == old(xa.head) && old(spare) == null && spare == null
      ensures n != null ==> node == Top && spare == null && xa.height == old(xa.height) + 1
                            && n.count == 1 && n.shift == shift
                            && (fresh(n) || n == old(spare)) && n !in old(xa.nodes.Values)
                            && Pos(old(xa.height), 0) !in old(xa.nodes)
                            && xa.nodes == old(xa.nodes)[Pos(old(xa.height), 0) := n]
      ensures old(OnWay(xa.nodes, index)) ==> OnWay(xa.nodes, index)
      ensures xa.head == old(xa.head) || xa.head.Child?
    {
      hide XArray.Valid, SlotSpec, Blank, Unmarked, OnWay;
      ghost var c, was := Pos(xa.height, 0), xa.nodes;
      xa.AboveHead();
      n := AllocTop(shift);
      if n == null {
        return;
      }
      ValuesAdd(was, c, n);
      xa.AddRoot(n, head);
      if OnWay(was, index) {
        OnWayAdd(was, c, n, index);
      }
    }
  
    /** max_index(): the largest index reachable below this head. */
    static function MaxBelow(head: Slot): nat
      reads if head.Child? then {head.node} else {}
    {
      if head.Child? then MaxIndex(head.node.shift) else 0
    }

    /** The head entry as xas_expand() is given it. An index 0 that is kept busy but not reserved is passed as a zero
        entry all the same, which does no harm on the way to index 0 itself. */
    ghost predicate Topmost(top: Slot)
      reads this`index, xa`height, xa`nodes, xa`contents
    {
      && top != Empty
      && (top == SlotSpec(xa.nodes, xa.contents, xa.height, 0) || (xa.height == 0 && index == 0 && !top.Child?))
    }

    /** The loop state of xas_expand(): `top` is the head entry and `shift` the shift of the next root. */
    ghost predicate Topped(top: Slot, n: Node?, shift: int)
      reads this`index, xa`height, xa`nodes, xa`contents, if top.Child? then {top.node} else {}
    {
      && Topmost(top) && shift == ShiftOf(xa.height)
      && (if xa.height == 0 then n == null else n != null && AtRoot(n) && top == Child(n))
      && (index > MaxBelow(top) <==> Up(index, xa.height) != 0)
    }

    lemma ToppedStart(top: Slot)
      requires xa.Valid() && index < WORD && Topmost(top)
      ensures Topped(top, if top.Child? then top.node else null, if top.Child? then top.node.shift + CHUNK_SHIFT else 0)
    {
      hide XArray.Valid, SlotSpec, Up;
      UpStart(index);
      if top == SlotSpec(xa.nodes, xa.contents, xa.height, 0) {
        xa.ReachFacts(top, index);
      }
    }

    lemma ToppedDone(top: Slot, n: Node?, shift: int)
      requires Topped(top, n, shift) && index <= MaxBelow(top)
      ensures shift == ShiftOf(xa.height) && Up(index, xa.height) == 0
      ensures if xa.height == 0 then n == null else n != null && AtRoot(n)
    {
    }

    /** A new root, and what it means for the walk towards the index. */
    method GrowStep(top: Slot, above: Node?, shift: nat, ghost was: map<Pos, Node>) returns (n: Node?)
      requires xa.Valid() && node == Top && index < WORD && SpareOk() && NoLeak() && was == xa.nodes
      requires Topped(top, above, shift) && index > MaxBelow(top)
      modifies this`node, this`spare, xa`head, xa`flags, xa`nodes, xa`height, xa`live, xa`failures
      modifies if spare != null then {spare} else {}
      modifies (if top.Child? then {top.node} else {})`parent, (if top.Child? then {top.node} else {})`offset
      ensures xa.failures == old(xa.failures) <==> !node.Error?
      ensures xa.failures >= old(xa.failures)
      ensures fresh(xa.live - old(xa.live))
      ensures xa.Valid() && SpareOk() && NoLeak() && spare == null && Grown(was, xa.nodes, index)
      ensures n == null ==> node == Error(NoMem) && xa.nodes == was && xa.height == old(xa.height) && old(spare) == null
                            && xa.head == old(xa.head)
      ensures n != null ==> node == Top && xa.height == old(xa.height) + 1 && Topped(Child(n), n, shift + CHUNK_SHIFT)
                            && Up(index, xa.height - 1) != 0 && Up(index, xa.height) < Up(index, xa.height - 1)
                            && Pos(old(xa.height), 0) in xa.nodes && Pos(old(xa.height), 0) !in was
      ensures n != null ==> fresh(n) || n == old(spare)
      ensures old(xa.Halfway(index)) ==> xa.Halfway(index)
      ensures xa.head == old(xa.head) || xa.head.Child?
    {
      hide XArray.Valid, OnWay, Firm, Grown, SlotSpec, Up, SpareOk;
      xa.ReachFacts(top, index);
      GrownSame(was, index);
      ghost var c := Pos(xa.height, 0);
      xa.AboveHead();
      n := Grow(top, shift);
      if n == null {
        return;
      }
      GrownOne(was, c, n, index);
      ChildEntry(xa.nodes, xa.contents, xa.height - 1, 0);
      xa.ReachFacts(Child(n), index);
      if OnWay(xa.nodes, index) {
        RootReaches();
      }
    }

    /** A root that the index does not pass by slot 0 is firm. */
    lemma RootReaches()
      requires OnWay(xa.nodes, index) && xa.height > 0 && Up(index, xa.height - 1) != 0
      ensures xa.Halfway(index)
    {
    }

    /** What has happened to the tree since the loop of xas_expand() began. */
    ghost predicate Growing(before: map<Pos, Node>, base: nat, spare0: Node?)
      reads this`index, this`spare, xa`height, xa`nodes
    {
      && Grown(before, xa.nodes, index) && xa.height >= base
      && if xa.height == base then xa.nodes == before && spare == spare0
         else Up(index, xa.height - 1) != 0 && spare == null && Pos(base, 0) in xa.nodes
    }

    lemma GrowingStep(before: map<Pos, Node>, was: map<Pos, Node>, height: nat, base: nat, spare0: Node?)
      requires Grown(before, was, index) && Grown(was, xa.nodes, index) && spare == null
      requires base <= height && (height == base ==> was == before) && (height > base ==> Pos(base, 0) in was)
      requires xa.height == height + 1 && Pos(height, 0) in xa.nodes && Up(index, height) != 0
      ensures Growing(before, base, spare0)
    {
      GrownTrans(before, was, xa.nodes, index);
    }

    /** One round of the loop in xas_expand(), with its bookkeeping. */
    method GrowRound(top: Slot, above: Node?, shift: nat, ghost before: map<Pos, Node>, ghost base: nat,
                     ghost spare0: Node?)
        returns (n: Node?)
      requires xa.Valid() && node == Top && index < WORD && SpareOk() && NoLeak()
      requires Topped(top, above, shift) && index > MaxBelow(top) && Growing(before, base, spare0)
      modifies this`node, this`spare, xa`head, xa`flags, xa`nodes, xa`height, xa`live, xa`failures
      modifies if spare != null then {spare} else {}
      modifies (if top.Child? then {top.node} else {})`parent, (if top.Child? then {top.node} else {})`offset
      ensures xa.failures == old(xa.failures) <==> !node.Error?
      ensures xa.failures >= old(xa.failures)
      ensures fresh(xa.live - old(xa.live))
      ensures xa.Valid() && SpareOk() && NoLeak() && spare == null && Growing(before, base, spare0)
      ensures n == null ==> node == Error(NoMem) && xa.nodes == old(xa.nodes) && xa.height == old(xa.height)
                            && xa.head == old(xa.head)
      ensures n != null ==> xa.height == old(xa.height) + 1
      ensures n != null ==> node == Top && Topped(Child(n), n, shift + CHUNK_SHIFT) && (fresh(n) || n == old(spare))
                            && Up(index, xa.height) < old(Up(index, xa.height))
      ensures old(xa.Halfway(index)) ==> xa.Halfway(index)
      ensures xa.head == old(xa.head) || xa.head.Child?
    {
      hide XArray.Valid, XArray.Halfway, Grown, SlotSpec, Up, SpareOk, NoLeak, AtRoot, Topped;
      ghost var was, height := xa.nodes, xa.height;
      n := GrowStep(top, above, shift, was);
      if n != null {
        GrowingStep(before, was, height, base, spare0);
      }
    }

    /** The loop of xas_expand(): add roots until the tree reaches the index. */
    method GrowToReach(head: Slot) returns (shift: int)
      requires xa.Valid() && node == Top && index < WORD && SpareOk() && NoLeak()
      requires Topmost(head)
      modifies this`node, this`spare, xa`head, xa`flags, xa`nodes, xa`height, xa`live, xa`failures
      modifies if spare != null then {spare} else {}
      modifies (if head.Child? then {head.node} else {})`parent, (if head.Child? then {head.node} else {})`offset
      ensures xa.failures == old(xa.failures) <==> !node.Error?
      ensures xa.failures >= old(xa.failures)
      ensures fresh(xa.live - old(xa.live))
      ensures xa.Valid() && SpareOk() && NoLeak()
      ensures if xa.height == old(xa.height) then xa.head == old(xa.head) else index > 0
      ensures shift < 0 ==> index > 0
      ensures xa.head == old(xa.head) || xa.head.Child?
      ensures Growing(old(xa.nodes), old(xa.height), old(spare))
      ensures if shift < 0 then node == Error(NoMem) && spare == null else
                && shift == ShiftOf(xa.height) && Up(index, xa.height) == 0
                && (if xa.height == 0 then node == Top else node.At? && AtRoot(node.n))
      ensures old(xa.Halfway(index)) ==> xa.Halfway(index)
    {
      hide XArray.Valid, XArray.Halfway, Grown, SlotSpec, Up, SpareOk, NoLeak, AtRoot, Topped, Growing;
      ghost var before, base, spare0 := xa.nodes, xa.height, spare;
      ghost var halfway := xa.Halfway(index);
      var top := head;
      ToppedStart(top);
      GrowingStart();
      shift := if top.Child? then top.node.shift + CHUNK_SHIFT else 0;
      var n: Node? := if top.Child? then top.node else null;
      while index > MaxBelow(top)
        invariant xa.Valid() && node == Top && SpareOk() && NoLeak() && Topped(top, n, shift) && shift >= 0
        invariant Growing(before, base, spare0)
        invariant if xa.height == base then xa.head == old(xa.head) else xa.height > base && index > 0
        invariant top == head || (top.Child? && (fresh(top.node) || top.node == spare0))
        invariant spare == null || spare == spare0
        invariant halfway ==> xa.Halfway(index)
        invariant xa.head == old(xa.head) || xa.head.Child?
        invariant fresh(xa.live - old(xa.live)) && xa.failures == old(xa.failures)
        decreases Up(index, xa.height)
      {
        n := GrowRound(top, n, shift, before, base, spare0);
        if n == null {
          return -1;
        }
        top := Child(n);
        shift := shift + CHUNK_SHIFT;
      }
      ToppedDone(top, n, shift);
      node := if n == null then Top else At(n);
    }

    lemma GrowingStart()
      ensures Growing(xa.nodes, xa.height, spare)
    {
      GrownSame(xa.nodes, index);
    }

    /** xas_expand() on an array without entries only works out how tall the tree has to be. */
    method FirstShift() returns (shift: nat, ghost h: nat)
      requires index < WORD
      ensures shift == ShiftOf(h) && Up(index, h) == 0 && (h == 0 <==> index == 0)
      ensures h > 0 ==> ShiftOf(h - 1) <= 60 && Up(index, h - 1) != 0
    {
      if index == 0 {
        return 0, 0;
      }
      shift, h := 0, 0;
      ShrIsUp(index, 0);
      while Shr(index, shift) >= CHUNK_SIZE
        invariant shift == ShiftOf(h) && Shr(index, shift) == Up(index, h) && Up(index, h) != 0
        decreases Up(index, h)
      {
        assert Up(index, h + 1) == Hi(Up(index, h));
        h := h + 1;
        shift := shift + CHUNK_SHIFT;
        ShrIsUp(index, h);
      }
      ReachShift(index, h);
      assert Up(index, h + 1) == Hi(Up(index, h));
      h := h + 1;
      shift := shift + CHUNK_SHIFT;
    }

    /** The tree has only grown towards the index, and a spare node is used up exactly when it has. */
    ghost predicate Made(before: map<Pos, Node>, spare0: Node?)
      reads this`index, this`spare, xa`nodes
    {
      Grown(before, xa.nodes, index) && if xa.nodes == before then spare == spare0 else spare == null
    }

    /** xas_expand() */
    method Expand(entry: Slot) returns (shift: int, ghost h: nat)
      requires xa.Valid() && node == Top && index < WORD && SpareOk() && NoLeak()
      requires if entry == Empty then xa.height == 0 else Topmost(entry)
      modifies this`node, this`spare, xa`head, xa`flags, xa`nodes, xa`height, xa`live, xa`failures
      modifies if spare != null then {spare} else {}
      modifies (if entry.Child? then {entry.node} else {})`parent, (if entry.Child? then {entry.node} else {})`offset
      ensures xa.failures == old(xa.failures) <==> !node.Error?
      ensures xa.failures >= old(xa.failures)
      ensures fresh(xa.live - old(xa.live))
      ensures xa.Valid() && SpareOk() && NoLeak()
      ensures Made(old(xa.nodes), old(spare)) && xa.height >= old(xa.height)
      ensures shift < 0 ==> node == Error(NoMem) && spare == null && index > 0
      ensures shift >= 0 ==> shift == ShiftOf(h) && Up(index, h) == 0
      ensures entry == Empty ==>
        && shift >= 0 && node == Top && spare == old(spare) && xa.nodes == old(xa.nodes) && xa.height == 0
        && xa.head == old(xa.head) && (h == 0 <==> index == 0)
        && (h > 0 ==> ShiftOf(h - 1) <= 60 && Up(index, h - 1) != 0)
      ensures entry != Empty && shift >= 0 ==>
        h == xa.height && (if xa.height == 0 then node == Top else node.At? && AtRoot(node.n))
      ensures if xa.height == old(xa.height) then xa.nodes == old(xa.nodes) && xa.head == old(xa.head)
              else index > 0 && Up(index, xa.height - 1) != 0
      ensures xa.head == old(xa.head) || xa.head.Child?
      ensures xa.Raw(index) == old(xa.Raw(index))
      ensures old(xa.Halfway(index)) ==> xa.Halfway(index)
    {
      hide XArray.Valid, XArray.Halfway, Grown, SlotSpec, Up, SpareOk, NoLeak;
      xa.AboveHead();
      xa.RawFacts(index);
      if entry == Empty {
        GrownSame(xa.nodes, index);
        shift, h := FirstShift();
      } else {
        shift := GrowToReach(entry);
        h := xa.height;
        xa.RawFacts(index);
      }
    }
  
    /** xas_alloc() below the node under the cursor. */
    method AllocUnder(p: Node, shift: nat) returns (n: Node?)
      requires xa.Valid() && node == At(p) && p in xa.nodes.Values && SpareOk() && NoLeak()
      modifies this`node, this`spare, xa`live, xa`failures
      modifies if spare != null then {spare} else {}, p`count
      ensures xa.failures == old(xa.failures) <==> !node.Error?
      ensures xa.failures >= old(xa.failures)
      ensures fresh(xa.live - old(xa.live))
      ensures SpareOk() && spare == null
      ensures n == null ==>
        xa.Valid() && NoLeak() && node == Error(NoMem) && old(spare) == null && p.count == old(p.count)
      ensures n != null ==>
        && node == At(p) && xa.Sound() && CountsIn(xa.nodes, p, -1, 0) && p.count == old(p.count) + 1
        && n.slots == Blank() && n.marks == Unmarked() && n.count == n.nrValues == 0 && n.shift == shift
        && n.parent == p && n.offset == offset && n !in xa.nodes.Values
        && xa.nodes.Values + {n} <= xa.live && xa.Outside() == {n} && (fresh(n) || n == old(spare))
    {
      hide XArray.Sound, Blank, Unmarked;
      n := Alloc(shift);
    }

    /** The round of the loop in xas_create() that adds a node below another one. */
    method HangBelow(p: Node, shift: nat, ghost l: nat) returns (n: Node?)
      requires xa.Valid() && node == At(p) && OnPath(xa.nodes, p, index, l) && SpareOk() && NoLeak()
      requires 0 < l < xa.height && offset == Lo(Up(index, l)) && shift == ShiftOf(l - 1)
      requires Pos(l - 1, Up(index, l)) !in xa.nodes
      modifies this`node, this`spare, xa`live, xa`failures, xa`nodes
      modifies if spare != null then {spare} else {}, p`count, p`slots
      ensures xa.failures == old(xa.failures) <==> !node.Error?
      ensures xa.failures >= old(xa.failures)
      ensures fresh(xa.live - old(xa.live))
      ensures xa.Valid() && SpareOk() && NoLeak() && spare == null
      ensures n == null ==> node == Error(NoMem) && xa.nodes == old(xa.nodes) && old(spare) == null
                            && p.count == old(p.count) && p.slots == old(p.slots)
      ensures n != null ==>
        && node == At(p) && n.count == 0 && n.shift == shift && p.count == old(p.count) + 1
        && (fresh(n) || n == old(spare)) && n !in old(xa.nodes.Values)
        && xa.nodes == old(xa.nodes)[Pos(l - 1, Up(index, l)) := n] && n.level == l - 1
    {
      hide LinksIn, SlotsIn, CountsIn, MarksIn, HeadVals, FlagVals, CoveredBy, Rested, SlotVals, Blank, Unmarked;
      hide AtRest;
      ghost var c := Pos(l - 1, Up(index, l));
      n := AllocUnder(p, shift);
      if n == null {
        return;
      }
      RestMarks(xa.trackFree);
      if xa.trackFree {
        n.marks := n.marks[FREE_MARK := seq(CHUNK_SIZE, _ => true)];
      }
      ValuesAdd(xa.nodes, c, n);
      xa.Attach(n, p, offset, c);
    }

    /** The round of the loop in xas_create() that adds the first node of an empty array. */
    method HangTop(shift: nat, ghost l: nat) returns (n: Node?)
      requires xa.Valid() && node == Top && SpareOk() && NoLeak() && xa.height == 0 && 0 !in xa.contents
      requires l > 0 && Up(index, l) == 0 && shift == ShiftOf(l - 1) <= 60
      modifies this`node, this`spare, xa`live, xa`failures, xa`nodes, xa`head, xa`height
      modifies if spare != null then {spare} else {}
      ensures xa.failures == old(xa.failures) <==> !node.Error?
      ensures xa.failures >= old(xa.failures)
      ensures fresh(xa.live - old(xa.live))
      ensures xa.Valid() && SpareOk() && NoLeak() && spare == null
      ensures n == null ==> node == Error(NoMem) && xa.nodes == old(xa.nodes) && old(spare) == null && xa.height == 0
      ensures xa.head == old(xa.head) || xa.head.Child?
      ensures xa.Raw(index) == old(xa.Raw(index))
      ensures n != null ==>
        && node == Top && n.count == 0 && n.shift == shift && xa.height == l
        && (fresh(n) || n == old(spare)) && old(xa.nodes) == map[]
        && xa.nodes == map[Pos(l - 1, 0) := n] && n.level == l - 1
    {
      hide LinksIn, SlotsIn, CountsIn, MarksIn, HeadVals, FlagVals, CoveredBy, Rested, SlotVals, Blank, Unmarked;
      hide AtRest;
      EmptyArray(xa.nodes, xa.contents);
      n := AllocTop(shift);
      if n == null {
        return;
      }
      RestMarks(xa.trackFree);
      if xa.trackFree {
        n.marks := n.marks[FREE_MARK := seq(CHUNK_SIZE, _ => true)];
      }
      ValuesOne(Pos(l - 1, 0), n);
      xa.AttachTop(n, l);
    }
  
    /** The loop state of xas_create(): `entry` is what slot `Up(index, l)` of level `l` holds. */
    ghost predicate Creating(entry: Slot, l: nat)
      reads this`index, this`offset, this`node, xa`height, xa`nodes, xa`contents, xa`head,
            if node.At? then {node.n} else {}
    {
      && index < WORD
      && (node == Top || node.At?)
      && if InNode(l) then
           && OnPath(xa.nodes, node.n, index, l) && l < xa.height && offset == Lo(Up(index, l))
           && entry == SlotSpec(xa.nodes, xa.contents, l, Up(index, l))
         else
           && Up(index, l) == 0 && entry == xa.head
           && (xa.height > 0 ==> l == xa.height && entry.Child? && entry == SlotSpec(xa.nodes, xa.contents, l, 0))
           && (xa.height == 0 ==> node == Top && !entry.Child? && (l > 0 ==> ShiftOf(l - 1) <= 60)
                                  && (if entry == Empty then l > 0 ==> 0 !in xa.contents else index == 0 && l <= 1))
    }

    /** The slot is in a node, rather than the head. */
    ghost predicate InNode(l: nat)
      reads this`node, if node.At? then {node.n} else {}
    {
      node.At? && node.n.level == l
    }

    /** One round of the loop in xas_create() into a node that is already there. */
    method EnterChild(entry: Slot, ghost l: nat) returns (next: Slot)
      requires xa.Valid() && Creating(entry, l) && entry.Child? && l > 0
      modifies this`node, this`offset
      ensures Creating(next, l - 1) && node == At(entry.node) && InNode(l - 1)
    {
      hide LinksIn, SlotsIn, CountsIn, MarksIn, HeadVals, FlagVals, CoveredBy, Rested, SlotVals, SlotSpec;
      ChildOnPath(xa.nodes, xa.height, xa.contents, index, l);
      next := Descend(entry.node);
    }
  
    /** One round of the loop in xas_create() that has to add the node first. */
    method HangChild(shift: nat, ghost l: nat) returns (n: Node?)
      requires xa.Valid() && Creating(Empty, l) && l > 0 && shift == ShiftOf(l - 1) && SpareOk() && NoLeak()
      modifies this`node, this`spare, xa`live, xa`failures, xa`nodes, xa`head, xa`height
      modifies if spare != null then {spare} else {}
      modifies (if node.At? then {node.n} else {})`count, (if node.At? then {node.n} else {})`slots
      ensures xa.failures == old(xa.failures) <==> !node.Error?
      ensures xa.failures >= old(xa.failures)
      ensures fresh(xa.live - old(xa.live))
      ensures xa.Valid() && SpareOk() && NoLeak() && spare == null && Grown(old(xa.nodes), xa.nodes, index)
      ensures xa.Raw(index) == old(xa.Raw(index))
      ensures n == null ==>
        node == Error(NoMem) && xa.nodes == old(xa.nodes) && xa.height == old(xa.height) && old(spare) == null
      ensures n != null ==>
        && node == old(node) && OnPath(xa.nodes, n, index, l - 1) && n.level == l - 1 && n.shift == shift
        && Pos(l - 1, Up(index, l)) in xa.nodes && Pos(l - 1, Up(index, l)) !in old(xa.nodes)
        && (fresh(n) || n == old(spare)) && (old(xa.height) > 0 ==> xa.height == old(xa.height))
      ensures old(xa.Halfway(index)) && (old(xa.height) == 0 ==> Up(index, l - 1) != 0) ==> xa.Halfway(index)
      ensures xa.head == old(xa.head) || xa.head.Child?
    {
      hide XArray.Valid, Grown, SlotSpec, Up;
      ghost var before, h0 := xa.nodes, xa.height;
      ghost var c := Pos(l - 1, Up(index, l));
      GrownSame(before, index);
      if node.At? {
        var p := node.n;
        xa.SlotUnused(index, l);
        n := HangBelow(p, shift, l);
        if n != null {
          GrownOne(before, c, n, index);
        }
      } else {
        n := HangTop(shift, l);
        if n != null {
          GrownFirst(before, c, n, index);
        }
      }
    }
  
    lemma WalkedCreating(entry: Slot, l: nat)
      requires node.At? && node.n.level == l && Walked(entry) && index < WORD
      ensures Creating(entry, l) && InNode(l)
    {
    }

    /** Add the missing node and move into it. */
    method EnterNew(shift: nat, ghost l: nat) returns (next: Slot)
      requires xa.Valid() && Creating(Empty, l) && l > 0 && shift == ShiftOf(l - 1) && SpareOk() && NoLeak()
      modifies this`node, this`offset, this`spare, xa`live, xa`failures, xa`nodes, xa`head, xa`height
      modifies if spare != null then {spare} else {}
      modifies (if node.At? then {node.n} else {})`count, (if node.At? then {node.n} else {})`slots
      ensures xa.failures == old(xa.failures) <==> !node.Error?
      ensures xa.failures >= old(xa.failures)
      ensures fresh(xa.live - old(xa.live))
      ensures xa.Valid() && SpareOk() && NoLeak() && spare == null && Grown(old(xa.nodes), xa.nodes, index)
      ensures xa.Raw(index) == old(xa.Raw(index))
      ensures node.Error? ==> node == Error(NoMem) && next == Empty && old(spare) == null
                              && xa.nodes == old(xa.nodes) && xa.height == old(xa.height)
      ensures !node.Error? ==> Creating(next, l - 1) && InNode(l - 1) && (fresh(node.n) || node.n == old(spare))
                               && Pos(l - 1, Up(index, l)) in xa.nodes && Pos(l - 1, Up(index, l)) !in old(xa.nodes)
      ensures old(xa.Halfway(index)) && (old(xa.height) == 0 ==> Up(index, l - 1) != 0) ==> xa.Halfway(index)
      ensures xa.head == old(xa.head) || xa.head.Child?
    {
      hide XArray.Valid, Grown, SlotSpec, Up, Walked, Creating, SpareOk, NoLeak, XArray.Halfway, InNode;
      CreatingIndex(Empty, l);
      var n := HangChild(shift, l);
      if n == null {
        return Empty;
      }
      next := EnterFresh(n, l - 1);
    }

    /** xas_descend() into the node just added. */
    method EnterFresh(n: Node, ghost l: nat) returns (next: Slot)
      requires xa.Valid() && OnPath(xa.nodes, n, index, l) && n.level == l && index < WORD
      modifies this`node, this`offset
      ensures Creating(next, l) && InNode(l) && node == At(n)
    {
      hide XArray.Valid, Up, Walked, Creating;
      xa.TreeParts();
      next := Descend(n);
      WalkedCreating(next, l);
    }

    lemma CreatingIndex(entry: Slot, l: nat)
      requires Creating(entry, l)
      ensures index < WORD && (node == Top || node.At?)
    {
    }

    /** One round of the loop in xas_create(): one level down, adding the node if it is missing. */
    method CreateStep(entry: Slot, shift: nat, ghost l: nat) returns (next: Slot)
      requires xa.Valid() && Creating(entry, l) && l > 0 && shift == ShiftOf(l - 1) && SpareOk() && NoLeak()
      requires entry == Empty || entry.Child?
      modifies this`node, this`offset, this`spare, xa`live, xa`failures, xa`nodes, xa`head, xa`height
      modifies if spare != null then {spare} else {}
      modifies (if node.At? && entry == Empty then {node.n} else {})`count
      modifies (if node.At? && entry == Empty then {node.n} else {})`slots
      ensures xa.failures == old(xa.failures) <==> !node.Error?
      ensures xa.failures >= old(xa.failures)
      ensures fresh(xa.live - old(xa.live))
      ensures xa.Valid() && SpareOk() && NoLeak() && Grown(old(xa.nodes), xa.nodes, index)
      ensures xa.Raw(index) == old(xa.Raw(index))
      ensures node.Error? ==> next == Empty && node == Error(NoMem) && spare == null && old(spare) == null
                              && xa.nodes == old(xa.nodes) && xa.height == old(xa.height)
      ensures !node.Error? ==> node.At? && Creating(next, l - 1) && InNode(l - 1)
      ensures if xa.nodes == old(xa.nodes) then xa.height == old(xa.height) && spare == old(spare)
              else spare == null && Pos(l - 1, Up(index, l)) in xa.nodes && Pos(l - 1, Up(index, l)) !in old(xa.nodes)
      ensures old(xa.Halfway(index)) && (old(xa.height) == 0 ==> Up(index, l - 1) != 0) ==> xa.Halfway(index)
      ensures node.At? ==> node.n in xa.nodes.Values && xa.height > 0
      ensures xa.head == old(xa.head) || xa.head.Child?
    {
      hide XArray.Valid, Grown, SlotSpec, Up, Walked, Creating, SpareOk, NoLeak, XArray.Halfway;
      CreatingIndex(entry, l);
      if entry == Empty {
        next := EnterNew(shift, l);
      } else {
        GrownSame(xa.nodes, index);
        next := EnterChild(entry, l);
      }
      if !node.Error? {
        CreatingNode(next, l - 1);
      }
    }

    lemma CreatingEmpty(l: nat)
      requires Creating(Empty, l) && node.At?
      ensures node.n in xa.nodes.Values
    {
    }

    lemma CreatingNode(entry: Slot, l: nat)
      requires Creating(entry, l) && InNode(l)
      ensures node.n in xa.nodes.Values && xa.height > 0
    {
    }
  
    /** What xas_expand() leaves for xas_create() to start from. */
    ghost predicate Expanded(h: nat)
      reads this`index, this`node, xa`height, xa`nodes, xa`head
    {
      && index < WORD && Up(index, h) == 0
      && if xa.head == Empty then
           && xa.height == 0 && node == Top && (h == 0 <==> index == 0)
           && (h > 0 ==> ShiftOf(h - 1) <= 60 && Up(index, h - 1) != 0)
         else
           h == xa.height && (if xa.height == 0 then node == Top else node.At? && AtRoot(node.n))
    }

    /** The loop of xas_create() begins at the head; a tree is at least one level tall if the head may not hold the
        entry. */
    lemma CreatingHead(h: nat, l: nat)
      requires xa.Valid() && Expanded(h) && (l == h || (l == 1 && h == 0))
      requires xa.head == Empty && l > 0 ==> 0 !in xa.contents
      ensures Creating(xa.head, l) && !InNode(l)
      ensures xa.height == 0 && l == h && l > 0 ==> Up(index, l - 1) != 0
    {
      hide LinksIn, SlotsIn, CountsIn, MarksIn, FlagVals, CoveredBy, Rested;
      xa.HeadParts();
      UpStart(index);
    }

    /** xas_expand() from the head. */
    method ExpandHead() returns (shift: int, ghost h: nat)
      requires xa.Valid() && !node.At? && !node.Error? && index < WORD && SpareOk() && NoLeak()
      requires xa.ZeroSafe(index, false)
      modifies this`node, this`spare, xa`live, xa`failures, xa`nodes, xa`head, xa`flags, xa`height
      modifies if spare != null then {spare} else {}
      modifies (if xa.head.Child? then {xa.head.node} else {})`parent
      modifies (if xa.head.Child? then {xa.head.node} else {})`offset
      ensures xa.failures == old(xa.failures) <==> !node.Error?
      ensures xa.failures >= old(xa.failures)
      ensures fresh(xa.live - old(xa.live))
      ensures xa.Valid() && SpareOk() && NoLeak() && Made(old(xa.nodes), old(spare))
      ensures xa.Raw(index) == old(xa.Raw(index))
      ensures spare == null || spare == old(spare)
      ensures shift < 0 ==> node == Error(NoMem) && spare == null
      ensures shift >= 0 ==> shift == ShiftOf(h) && Expanded(h)
      ensures shift >= 0 && xa.head == Empty ==> 0 !in xa.contents || (h == index == 0 && old(xa.Implied()))
      ensures if xa.height == old(xa.height) then xa.nodes == old(xa.nodes) && xa.head == old(xa.head)
              else xa.height > 0 && Up(index, xa.height - 1) != 0
      ensures shift < 0 ==> index > 0
      ensures old(xa.Halfway(index)) ==> xa.Halfway(index)
      ensures xa.head == old(xa.head) || xa.head.Child?
      ensures index == 0 && old(xa.head).Stored? ==> xa.head == old(xa.head) && node == Top
    {
      hide XArray.Valid, Grown, SlotSpec, Up, NoLeak, SpareOk, XArray.Halfway;
      xa.AboveHead();
      UpStart(index);
      xa.HeadParts();
      var entry := xa.head;
      node := Top;
      if entry == Empty && xa.zeroBusy {
        entry := Stored(Zero);
      }
      shift, h := Expand(entry);
      xa.HeadParts();
    }

    /** The first part of xas_create(), from the head. */
    method CreateFromHead(allowRoot: bool) returns (entry: Slot, shift: int, ghost l: nat)
      requires xa.Valid() && !node.At? && !node.Error? && index < WORD && SpareOk() && NoLeak()
      requires xa.ZeroSafe(index, !allowRoot)
      modifies this`node, this`spare, xa`live, xa`failures, xa`nodes, xa`head, xa`flags, xa`height
      modifies if spare != null then {spare} else {}
      modifies (if xa.head.Child? then {xa.head.node} else {})`parent
      modifies (if xa.head.Child? then {xa.head.node} else {})`offset
      ensures xa.failures == old(xa.failures) <==> !node.Error?
      ensures xa.failures >= old(xa.failures)
      ensures fresh(xa.live - old(xa.live))
      ensures xa.Valid() && SpareOk() && NoLeak() && Made(old(xa.nodes), old(spare))
      ensures xa.Raw(index) == old(xa.Raw(index))
      ensures spare == null || spare == old(spare)
      ensures shift < 0 ==> node == Error(NoMem) && spare == null && entry == Empty
      ensures shift >= 0 ==> shift == ShiftOf(l) && Creating(entry, l) && (!allowRoot ==> l > 0)
      ensures shift >= 0 && xa.height == 0 && l > 0 && allowRoot ==> Up(index, l - 1) != 0
      ensures old(xa.Halfway(index)) ==> xa.Halfway(index)
      ensures xa.head == old(xa.head) || xa.head.Child?
      ensures index == 0 && old(xa.head).Stored? ==>
        shift >= 0 && entry == xa.head == old(xa.head) && node == Top
    {
      hide XArray.Valid, Grown, SlotSpec, Up, NoLeak, Creating, Made, XArray.Halfway, Expanded;
      ghost var h: nat;
      xa.HeadParts();
      shift, h := ExpandHead();
      if shift < 0 {
        return Empty, shift, 0;
      }
      l := h;
      if shift == 0 && !allowRoot {
        shift, l := CHUNK_SHIFT, 1;
      }
      entry := xa.head;
      CreatingHead(h, l);
    }

    /** xas_create() from a node. */
    method CreateFromNode() returns (entry: Slot, shift: int, ghost l: nat)
      requires xa.Valid() && Cursor() && node.At?
      ensures shift == ShiftOf(l) && Creating(entry, l) && Made(xa.nodes, spare) && xa.height > 0 && xa.head.Child?
      ensures entry == Empty ==> node.n in xa.nodes.Values
    {
      hide XArray.Valid, Grown, SlotSpec, Up;
      AtNode();
      xa.HeadParts();
      var n := node.n;
      GrownSame(xa.nodes, index);
      l := n.level;
      xa.PathParts(n, index);
      shift := n.shift;
      entry := n.slots[offset];
      if entry == Empty {
        CreatingEmpty(l);
      }
    }

    lemma CursorIndex()
      requires Cursor()
      ensures index < WORD
    {
    }

    /** The first part of xas_create(). */
    method CreateStart(allowRoot: bool) returns (entry: Slot, shift: int, ghost l: nat)
      requires xa.Valid() && Cursor() && !node.Error? && SpareOk() && NoLeak()
      requires xa.ZeroSafe(index, !allowRoot)
      modifies this`node, this`spare, xa`live, xa`failures, xa`nodes, xa`head, xa`flags, xa`height
      modifies if spare != null then {spare} else {}
      modifies (if xa.head.Child? then {xa.head.node} else {})`parent
      modifies (if xa.head.Child? then {xa.head.node} else {})`offset
      ensures xa.failures == old(xa.failures) <==> !node.Error?
      ensures xa.failures >= old(xa.failures)
      ensures fresh(xa.live - old(xa.live))
      ensures xa.Valid() && SpareOk() && NoLeak() && Made(old(xa.nodes), old(spare))
      ensures xa.Raw(index) == old(xa.Raw(index))
      ensures spare == null || spare == old(spare)
      ensures shift < 0 ==> node == Error(NoMem) && spare == null && entry == Empty
      ensures shift >= 0 ==> shift == ShiftOf(l) && Creating(entry, l) && (!allowRoot && !node.At? ==> l > 0)
      ensures shift >= 0 && xa.height == 0 && l > 0 && allowRoot ==> Up(index, l - 1) != 0
      ensures old(xa.Halfway(index)) ==> xa.Halfway(index)
      ensures shift >= 0 && node.At? && entry == Empty ==> node.n in xa.nodes.Values
      ensures xa.head == old(xa.head) || xa.head.Child?
      ensures index == 0 && old(xa.head).Stored? ==>
        shift >= 0 && entry == xa.head == old(xa.head) && node == Top
    {
      hide XArray.Valid, XArray.Halfway, XArray.ZeroSafe, Grown, SlotSpec, Up, NoLeak, SpareOk, Made, Creating, Cursor;
      CursorIndex();
      if node.At? {
        entry, shift, l := CreateFromNode();
      } else {
        entry, shift, l := CreateFromHead(allowRoot);
        if shift >= 0 && node.At? && entry == Empty {
          CreatingEmpty(l);
        }
      }
    }

    lemma MadeStep(before: map<Pos, Node>, was: map<Pos, Node>, spare0: Node?, spare1: Node?)
      requires Grown(before, was, index) && (if was == before then spare1 == spare0 else spare1 == null)
      requires Grown(was, xa.nodes, index) && (if xa.nodes == was then spare == spare1 else spare == null)
      ensures Made(before, spare0)
    {
      GrownTrans(before, was, xa.nodes, index);
      if xa.nodes == before {
        assert was.Keys == before.Keys;
        assert forall q :: q in before ==> was[q] == before[q];
        assert was == before;
      }
    }
  
    /** What the loop of xas_create() can be looking at, and where it may stop. */
    lemma CreatingKinds(entry: Slot, l: nat)
      requires Creating(entry, l) && xa.Valid()
      ensures entry == Empty || entry.Child? || entry.Stored?
      ensures entry.Child? ==> l > 0
      ensures l == 0 || entry.Stored? ==> Cursor() && OnEntry() && entry == xa.Raw(index)
      ensures entry.Stored? && l > 0 ==> xa.height == 0 && Up(index, l - 1) == 0
    {
      hide CountsIn, MarksIn, FlagVals, CoveredBy, Rested, SlotVals;
      xa.HeadParts();
      if InNode(l) && entry.Child? {
        ChildOnPath(xa.nodes, xa.height, xa.contents, index, l);
      }
      UpStart(index);
    }

    /** One round of the loop in xas_create(), with its bookkeeping. */
    method CreateRound(entry: Slot, shift: nat, ghost l: nat, ghost before: map<Pos, Node>, ghost spare0: Node?)
        returns (next: Slot)
      requires xa.Valid() && SpareOk() && NoLeak() && Made(before, spare0)
      requires Creating(entry, l) && l > 0 && shift == ShiftOf(l - 1) && (entry == Empty || entry.Child?)
      modifies this`node, this`offset, this`spare, xa`live, xa`failures, xa`nodes, xa`head, xa`height
      modifies if spare != null then {spare} else {}
      modifies (if node.At? && entry == Empty then {node.n} else {})`count
      modifies (if node.At? && entry == Empty then {node.n} else {})`slots
      ensures xa.failures == old(xa.failures) <==> !node.Error?
      ensures xa.failures >= old(xa.failures)
      ensures fresh(xa.live - old(xa.live))
      ensures xa.Valid() && SpareOk() && NoLeak() && Made(before, spare0) && (spare == null || spare == old(spare))
      ensures xa.Raw(index) == old(xa.Raw(index))
      ensures node.Error? ==> next == Empty && node == Error(NoMem) && spare == null
      ensures !node.Error? ==>
        node.At? && Creating(next, l - 1) && InNode(l - 1) && node.n in xa.nodes.Values && xa.height > 0
      ensures old(xa.Halfway(index)) && (old(xa.height) == 0 ==> Up(index, l - 1) != 0) ==> xa.Halfway(index)
      ensures xa.head == old(xa.head) || xa.head.Child?
    {
      hide XArray.Valid, Grown, SlotSpec, Up, Creating, SpareOk, NoLeak, XArray.Halfway, InNode;
      ghost var was, spare1 := xa.nodes, spare;
      next := CreateStep(entry, shift, l);
      MadeStep(before, was, spare0, spare1);
    }

    /** The shape is right so far, and the first node of an empty array will be needed. */
    ghost predicate Steady(l: nat)
      reads this`index, xa`height, xa`nodes, xa.nodes.Values`count, xa.nodes.Values`slots
    {
      xa.Halfway(index) && (xa.height == 0 && l > 0 ==> Up(index, l - 1) != 0)
    }

    /** The loop of xas_create(): down to the slot of the index, adding the nodes that are missing. */
    method CreateDown(start: Slot, top: nat, ghost height: nat, ghost before: map<Pos, Node>, ghost spare0: Node?)
        returns (entry: Slot)
      requires xa.Valid() && SpareOk() && NoLeak() && Made(before, spare0)
      requires Creating(start, height) && top == ShiftOf(height)
      requires node.At? && start == Empty ==> node.n in xa.nodes.Values
      modifies this`node, this`offset, this`spare, xa`live, xa`failures, xa`nodes, xa`head, xa`height
      modifies if spare != null then {spare} else {}
      modifies xa.nodes.Values`count, xa.nodes.Values`slots
      ensures xa.failures == old(xa.failures) <==> !node.Error?
      ensures xa.failures >= old(xa.failures)
      ensures fresh(xa.live - old(xa.live))
      ensures xa.Valid() && SpareOk() && NoLeak() && Made(before, spare0) && xa.Raw(index) == old(xa.Raw(index))
      ensures node.Error? ==> node == Error(NoMem) && spare == null && entry == Empty
      ensures !node.Error? ==> Cursor() && OnEntry() && entry == xa.Raw(index)
      ensures node == Top ==> old(node) == Top && (height > 0 ==> entry.Stored?)
      ensures old(Steady(height)) ==> xa.Halfway(index)
      ensures xa.head == old(xa.head) || xa.head.Child?
      ensures start.Stored? ==> !node.Error? && entry == start && node == old(node) && xa.head == old(xa.head)
    {
      hide XArray.Valid, Grown, SlotSpec, Up, SpareOk, NoLeak, Creating, XArray.Halfway, Made, XArray.Raw;
      ghost var shaped := Steady(height);
      entry := start;
      var shift: int := top;
      ghost var l := height;
      CreatingIndex(entry, l);
      LiveNode();
      while shift > 0
        invariant xa.Valid() && SpareOk() && NoLeak() && Made(before, spare0) && (spare == null || spare == old(spare))
        invariant !node.Error? && Creating(entry, l) && shift == ShiftOf(l) && xa.Raw(index) == old(xa.Raw(index))
        invariant node.At? && entry == Empty ==> node.n in xa.nodes.Values
        invariant node == Top ==> l == height && old(node) == Top
        invariant xa.head == old(xa.head) || xa.head.Child?
        invariant start.Stored? ==> entry == start && node == old(node) && xa.head == old(xa.head)
        invariant shaped ==> xa.Halfway(index)
        invariant xa.height == 0 && l > 0 && shaped ==> Up(index, l - 1) != 0
        invariant fresh(xa.live - old(xa.live)) && xa.failures == old(xa.failures)
        decreases l
      {
        CreatingKinds(entry, l);
        shift := shift - CHUNK_SHIFT;
        if entry.Stored? {
          break;
        }
        LiveNode();
        entry := CreateRound(entry, shift, l, before, spare0);
        if node.Error? {
          return;
        }
        l := l - 1;
      }
      CreatingKinds(entry, l);
    }

    /** xas_create(): the slot for the index, with the nodes above it. */
    method Create(allowRoot: bool) returns (entry: Slot)
      requires xa.Valid() && Cursor() && SpareOk() && NoLeak()
      requires !node.Error? ==> xa.ZeroSafe(index, !allowRoot)
      modifies this`node, this`offset, this`spare, xa`live, xa`failures, xa`nodes, xa`head, xa`flags, xa`height
      modifies if spare != null then {spare} else {}
      modifies xa.nodes.Values`parent, xa.nodes.Values`offset, xa.nodes.Values`count, xa.nodes.Values`slots
      ensures !old(node).Error? ==> (xa.failures == old(xa.failures) <==> !node.Error?)
      ensures old(node).Error? ==> xa.failures == old(xa.failures)
      ensures xa.failures >= old(xa.failures)
      ensures fresh(xa.live - old(xa.live))
      ensures xa.Valid() && SpareOk() && NoLeak() && Made(old(xa.nodes), old(spare))
      ensures xa.Raw(index) == old(xa.Raw(index))
      ensures old(node).Error? ==> node == old(node) && entry == Empty && xa.nodes == old(xa.nodes)
      ensures !old(node).Error? && node.Error? ==> node == Error(NoMem) && spare == null && entry == Empty
      ensures !node.Error? ==> Cursor() && OnEntry() && entry == xa.Raw(index)
      ensures !node.Error? && !allowRoot && entry == Empty ==> node.At?
      ensures allowRoot && old(xa.Halfway(index)) ==> xa.Halfway(index)
      ensures old(node).Error? && old(xa.Canonical()) ==> xa.Canonical()
      ensures xa.head == old(xa.head) || xa.head.Child?
      ensures !old(node).Error? && index == 0 && old(xa.head).Stored? ==>
        !node.Error? && entry == xa.head == old(xa.head) && node == Top
    {
      hide XArray.Valid, Grown, SlotSpec, Up, SpareOk, NoLeak, Creating, XArray.Halfway, Made, XArray.Canonical;
      hide XArray.Raw;
      ghost var before, spare0 := xa.nodes, spare;
      MadeStart();
      if node.Error? {
        return Empty;
      }
      var shift: int;
      ghost var l: nat;
      xa.HeadParts();
      LiveNode();
      entry, shift, l := CreateStart(allowRoot);
      if shift < 0 {
        return Empty;
      }
      CreatingIndex(entry, l);
      LiveNode();
      entry := CreateDown(entry, shift, l, before, spare0);
    }

    lemma MadeStart()
      ensures Made(xa.nodes, spare)
    {
      GrownSame(xa.nodes, index);
    }

    lemma LiveNode()
      requires NoLeak()
      ensures xa.nodes.Values <= xa.live && forall m :: m in xa.live ==> m in xa.nodes.Values || m == spare
    {
      forall m | m in xa.live && m !in xa.nodes.Values
        ensures m == spare
      {
        assert m in xa.Outside();
      }
    }
  
    /** The counts of update_node(). */
    method Recount(n: Node, count: int, values: int)
      requires xa.Sound() && n in xa.nodes.Values && CountsIn(xa.nodes, n, count, values)
      modifies n`count, n`nrValues
      ensures xa.Valid() && n.count == old(n.count) + count
    {
      hide XArray.Sound;
      ghost var q :| q in xa.nodes && xa.nodes[q] == n;
      n.count := n.count + count;
      n.nrValues := n.nrValues + values;
    }

    /** update_node() */
    method UpdateNode(n: Node, count: int, values: int)
      requires xa.Sound() && CountsIn(xa.nodes, n, count, values) && xa.nodes.Values <= xa.live
      requires node == At(n) && Pos(n.level, n.chunk) in xa.nodes && xa.nodes[Pos(n.level, n.chunk)] == n
      requires n.chunk == Up(index, n.level + 1)
      modifies this`node, this`offset, xa`head, xa`flags, xa`nodes, xa`height, xa`live
      modifies xa.nodes.Values`count, xa.nodes.Values`nrValues, xa.nodes.Values`slots, xa.nodes.Values`parent
      ensures xa.Valid() && Shrunk(old(xa.nodes), xa.nodes) && !node.Error?
      ensures xa.nodes.Values <= xa.live && xa.Outside() == old(xa.Outside()) && xa.live <= old(xa.live)
      ensures count >= 0 ==>
        && xa.nodes == old(xa.nodes) && xa.height == old(xa.height) && node == old(node) && offset == old(offset)
        && xa.live == old(xa.live) && n.count == old(n.count) + count
        && (forall m :: m in xa.nodes.Values ==> m.slots == old(m.slots) && (m != n ==> m.count == old(m.count)))
      ensures count < 0 && old(NoEmpty(xa.nodes, n) && (n.parent == null || Tight(xa.nodes, xa.height))) ==>
                NoEmpty(xa.nodes, null) && Tight(xa.nodes, xa.height)
    {
      hide XArray.Sound, XArray.Valid, CountsIn;
      if count == 0 && values == 0 {
        xa.SoundValid(n);
        return;
      }
      ghost var shaped := NoEmpty(xa.nodes, n) && (n.parent == null || Tight(xa.nodes, xa.height));
      Recount(n, count, values);
      if count < 0 {
        xa.ValidParent(Pos(n.level, n.chunk));
        xa.ValidDistinct(Pos(n.level, n.chunk));
        assert shaped ==> NoEmpty(xa.nodes, n) && (n.parent == null || Tight(xa.nodes, xa.height));
        ghost var live := xa.live;
        ghost var top := DeleteNode();
        ShrunkValues(old(xa.nodes), xa.nodes);
        LiveSubset(live, old(xa.nodes));
      }
    }

    lemma LiveSubset(live: set<Node>, before: map<Pos, Node>)
      requires before.Values <= live && live - before.Values == xa.Outside() && xa.nodes.Values <= before.Values
      ensures xa.live <= live
    {
      forall m | m in xa.live
        ensures m in live
      {
        if m !in xa.nodes.Values {
          assert m in xa.Outside();
        }
      }
    }
  
    /** The assignment of NULL in xas_store(): the leaf loses an entry. */
    method EraseLeaf(n: Node)
      requires xa.Valid() && Cursor() && node == At(n) && n.level == 0
      requires xa.Raw(index) != Empty && xa.nodes.Values <= xa.live
      requires RestedAt(xa.tags, index, xa.trackFree)
      modifies this`node, this`offset, xa`head, xa`flags, xa`nodes, xa`height, xa`live, xa`contents
      modifies xa.nodes.Values`count, xa.nodes.Values`nrValues, xa.nodes.Values`slots, xa.nodes.Values`parent
      ensures xa.Valid() && xa.contents == old(xa.contents) - {index} && Shrunk(old(xa.nodes), xa.nodes) && !node.Error?
      ensures xa.nodes.Values <= xa.live && xa.Outside() == old(xa.Outside()) && xa.live <= old(xa.live)
      ensures old(xa.Canonical()) ==> xa.Canonical()
    {
      hide XArray.Sound, XArray.Valid, CountsIn, SlotSpec, RestedAt;
      ghost var q, canonical := Pos(0, n.chunk), xa.Canonical();
      xa.PathParts(n, index);
      xa.LeafEntry(n, index);
      xa.ValidParent(q);
      xa.ValidDistinct(q);
      var values := 0 - ValueIn(n.slots[offset]);
      xa.PutLeaf(n, offset, Empty, index);
      assert canonical ==> NoEmpty(xa.nodes, n) && (n.parent == null || Tight(xa.nodes, xa.height));
      UpdateNode(n, -1, values);
    }

    /** The assignment of an entry in xas_store(), on a leaf. */
    method FillLeaf(n: Node, x: Slot)
      requires xa.Valid() && Cursor() && node == At(n) && n.level == 0
      requires x.Stored? && xa.nodes.Values <= xa.live
      modifies this`node, this`offset, xa`head, xa`flags, xa`nodes, xa`height, xa`live, xa`contents
      modifies xa.nodes.Values`count, xa.nodes.Values`nrValues, xa.nodes.Values`slots, xa.nodes.Values`parent
      ensures xa.Valid() && xa.contents == old(xa.contents)[index := x.entry]
      ensures xa.nodes == old(xa.nodes) && xa.height == old(xa.height) && node == old(node) && offset == old(offset)
      ensures xa.live == old(xa.live)
      ensures offset < old(|n.slots|) && n.slots == old(n.slots)[offset := x]
      ensures n.count == old(n.count) + if old(n.slots)[offset] == Empty then 1 else 0
      ensures forall m :: m in xa.nodes.Values && m != n ==> m.slots == old(m.slots) && m.count == old(m.count)
    {
      hide XArray.Sound, XArray.Valid, CountsIn, SlotSpec, RestedAt;
      xa.PathParts(n, index);
      xa.LeafEntry(n, index);
      var first := n.slots[offset];
      xa.PutLeaf(n, offset, x, index);
      UpdateNode(n, 1 - (if first == Empty then 0 else 1), ValueIn(x) - ValueIn(first));
    }

    /** The shape is right once the entry is in; `count0` and `slots0` are what the leaf held before. */
    lemma FilledShape(n: Node, x: Slot, count0: nat, slots0: seq<Slot>)
      requires xa.Valid() && Cursor() && node == At(n) && n.level == 0 && index in xa.contents && x != Empty
      requires NoEmpty(xa.nodes, n)
      requires xa.height > 0 && Pos(xa.height - 1, 0) in xa.nodes && Up(index, xa.height - 1) == 0 ==>
        var root := xa.nodes[Pos(xa.height - 1, 0)];
        if root == n then count0 > 0 && !Loose(count0, slots0) else root.count > 0 && !Loose(root.count, root.slots)
      requires offset < |slots0| && n.slots == slots0[offset := x]
      requires n.count == count0 + if slots0[offset] == Empty then 1 else 0
      ensures xa.Canonical()
    {
      hide XArray.Valid, Loose;
      xa.RootIn();
      xa.EntryCounted(Pos(0, Up(index, 1)), offset);
      NoneEmpty(xa.nodes, n);
      if xa.height > 0 {
        if Up(index, xa.height - 1) != 0 {
          xa.StoredTight(index);
        } else if xa.nodes[Pos(xa.height - 1, 0)] == n {
          LoosePut(count0, slots0, n.count, offset, x);
        }
      }
    }

    /** At a leaf, the way is made. */
    lemma HalfwayLeaf()
      requires xa.Valid() && Cursor() && node.At? && node.n.level == 0 && xa.Halfway(index)
      ensures NoEmpty(xa.nodes, node.n)
    {
      hide MarksIn, HeadVals, FlagVals, CoveredBy, Rested, LinksIn, SlotsIn, CountsIn;
      LeafOnly(xa.nodes, xa.height, xa.contents, index);
    }

    /** xas_store() of an entry on a leaf. */
    method FillLeafShaped(n: Node, x: Slot)
      requires xa.Valid() && Cursor() && node == At(n) && n.level == 0
      requires x.Stored? && xa.nodes.Values <= xa.live
      modifies this`node, this`offset, xa`head, xa`flags, xa`nodes, xa`height, xa`live, xa`contents
      modifies xa.nodes.Values`count, xa.nodes.Values`nrValues, xa.nodes.Values`slots, xa.nodes.Values`parent
      ensures xa.Valid() && xa.contents == old(xa.contents)[index := x.entry]
      ensures xa.nodes == old(xa.nodes) && xa.height == old(xa.height) && node == old(node) && offset == old(offset)
      ensures xa.live == old(xa.live)
      ensures old(xa.Halfway(index)) ==> xa.Canonical()
    {
      hide XArray.Valid, Loose, OnWay;
      ghost var halfway, count0, slots0 := xa.Halfway(index), n.count, n.slots;
      if halfway {
        HalfwayLeaf();
      }
      FillLeaf(n, x);
      if halfway {
        FilledShape(n, x, count0, slots0);
      }
    }
  
    /** xas_store() of NULL, once the walk has found an entry. */
    method Erase()
      requires xa.Valid() && Cursor() && OnEntry() && xa.Raw(index) != Empty && SpareOk() && NoLeak()
      modifies this`node, this`offset, xa`head, xa`flags, xa`nodes, xa`height, xa`live, xa`contents, xa`tags
      modifies xa.nodes.Values`count, xa.nodes.Values`nrValues, xa.nodes.Values`slots, xa.nodes.Values`parent
      modifies xa.nodes.Values`marks
      ensures xa.Valid() && SpareOk() && NoLeak() && xa.live <= old(xa.live) && !node.Error?
      ensures xa.contents == old(xa.contents) - {index}
      ensures xa.tags == old(ResetBelow(xa.tags, MAX_MARKS, index, xa.trackFree))
      ensures old(xa.Canonical()) ==> xa.Canonical()
    {
      hide XArray.Valid, RestedAt, NoEmpty, Tight;
      xa.RawFacts(index);
      xa.TagCount();
      InitMarks();
      ResetRests(old(xa.tags), index, xa.trackFree);
      if node.At? {
        EraseLeaf(node.n);
      } else {
        xa.PutHead(Empty);
        xa.NoNodesLeft();
      }
    }

    /** xas_store() of NULL */
    method StoreNull() returns (first: Slot)
      requires xa.Valid() && Cursor() && SpareOk() && NoLeak()
      modifies this`node, this`offset, xa`head, xa`flags, xa`nodes, xa`height, xa`live, xa`contents, xa`tags
      modifies xa.nodes.Values`count, xa.nodes.Values`nrValues, xa.nodes.Values`slots, xa.nodes.Values`parent
      modifies xa.nodes.Values`marks
      ensures xa.Valid() && SpareOk() && NoLeak() && xa.live <= old(xa.live)
      ensures old(node).Error? ==>
        node == old(node) && xa.contents == old(xa.contents) && xa.tags == old(xa.tags) && first == Empty
      ensures !old(node).Error? ==> !node.Error? && first == old(xa.Raw(index))
      ensures first == Empty ==> xa.contents == old(xa.contents) && xa.tags == old(xa.tags) && xa.head == old(xa.head)
      ensures first != Empty ==>
        && xa.contents == old(xa.contents) - {index}
        && xa.tags == old(ResetBelow(xa.tags, MAX_MARKS, index, xa.trackFree))
      ensures old(xa.Canonical()) ==> xa.Canonical()
    {
      hide XArray.Valid, NoEmpty, Tight;
      xa.TagCount();
      first := Load();
      if node.Error? || node == Bounds || first == Empty {
        return;
      }
      Erase();
    }
  
    /** An array whose slot for the index is already in use has its shape already. */
    lemma ShapedAlready()
      requires xa.Valid() && Cursor() && OnEntry() && xa.Halfway(index) && xa.Raw(index) != Empty
      ensures xa.Canonical()
    {
      hide XArray.Valid, Loose;
      xa.RootIn();
      xa.RawFacts(index);
      if node.At? {
        HalfwayLeaf();
        xa.PathParts(node.n, index);
        xa.LeafEntry(node.n, index);
        xa.EntryCounted(Pos(0, Up(index, 1)), offset);
        NoneEmpty(xa.nodes, node.n);
        if Up(index, xa.height - 1) != 0 {
          xa.StoredTight(index);
        }
      } else {
        xa.NoNodesLeft();
      }
    }

    /** The assignment in xas_store(). */
    method Assign(x: Slot)
      requires xa.Valid() && Cursor() && OnEntry() && x.Stored? && SpareOk() && NoLeak()
      modifies this`node, this`offset, xa`head, xa`flags, xa`nodes, xa`height, xa`live, xa`contents
      modifies xa.nodes.Values`count, xa.nodes.Values`nrValues, xa.nodes.Values`slots, xa.nodes.Values`parent
      ensures xa.Valid() && Cursor() && OnEntry() && SpareOk() && NoLeak()
      ensures xa.contents == old(xa.contents)[index := x.entry] && xa.Raw(index) == x
      ensures xa.nodes == old(xa.nodes) && xa.live == old(xa.live) && node == old(node)
      ensures node == Top ==> xa.head == x
      ensures old(xa.Halfway(index)) ==> xa.Canonical()
    {
      hide XArray.Valid, NoEmpty, Tight, XArray.Halfway;
      if node.At? {
        ghost var n := node.n;
        FillLeafShaped(node.n, x);
        AtNode();
      } else {
        xa.PutHead(x);
        xa.NoNodesLeft();
      }
    }

    /** An array with a cursor at a node has a node for its head. */
    lemma AtNode()
      requires xa.Valid() && Cursor()
      ensures node.At? ==> xa.head.Child?
    {
      hide XArray.Valid;
      xa.HeadParts();
      if node.At? {
        xa.PathParts(node.n, index);
      }
    }

    /** xas_store() of an entry */
    method StoreEntry(x: Slot) returns (first: Slot)
      requires xa.Valid() && Cursor() && x.Stored? && SpareOk() && NoLeak()
      requires !node.Error? ==> xa.ZeroSafe(index, x == Stored(Zero))
      modifies this`node, this`offset, this`spare
      modifies xa`head, xa`flags, xa`nodes, xa`height, xa`live, xa`failures, xa`contents
      modifies if spare != null then {spare} else {}
      modifies xa.nodes.Values`parent, xa.nodes.Values`offset, xa.nodes.Values`count, xa.nodes.Values`nrValues
      modifies xa.nodes.Values`slots
      ensures !old(node).Error? ==> (xa.failures == old(xa.failures) <==> !node.Error?)
      ensures old(node).Error? ==> xa.failures == old(xa.failures)
      ensures xa.failures >= old(xa.failures)
      ensures xa.Valid() && SpareOk() && NoLeak() && Made(old(xa.nodes), old(spare)) && fresh(xa.live - old(xa.live))
      ensures old(node).Error? ==> node == old(node) && first == Empty
      ensures !old(node).Error? && node.Error? ==> node == Error(NoMem) && spare == null && first == Empty
      ensures node.Error? ==> xa.contents == old(xa.contents) && xa.Raw(index) == old(xa.Raw(index))
      ensures !node.Error? ==> Cursor() && OnEntry() && first == old(xa.Raw(index))
                               && xa.contents == old(xa.contents)[index := x.entry] && xa.Raw(index) == x
      ensures !node.Error? && x == Stored(Zero) && first == Empty ==> xa.head.Child?
      ensures x != Stored(Zero) && old(xa.Halfway(index)) ==> if node.Error? then xa.Halfway(index) else xa.Canonical()
      ensures old(node).Error? && old(xa.Canonical()) ==> xa.Canonical()
      ensures !old(node).Error? && index == 0 && old(xa.head).Stored? ==> !node.Error? && xa.head == x
      ensures node.Error? ==> xa.head == old(xa.head) || xa.head.Child?
    {
      hide XArray.Valid, XArray.Halfway, XArray.Canonical, SpareOk, NoLeak, Made;
      hide XArray.Raw, XArray.ZeroSafe;
      LiveNode();
      first := Create(x != Stored(Zero));
      if node.Error? {
        return;
      }
      xa.RawFacts(index);
      if first == x {
        if xa.Halfway(index) {
          ShapedAlready();
        }
        return;
      }
      LiveNode();
      Assign(x);
      AtNode();
    }
  
    /** __xas_nomem(): after a failed allocation, try to set a spare node aside and start over. */
    method Nomem() returns (again: bool)
      requires SpareOk() && NoLeak() && (node == Error(NoMem) ==> spare == null)
      modifies this`node, this`spare, xa`live, xa`failures
      ensures xa.failures >= old(xa.failures) && (old(node) != Error(NoMem) ==> xa.failures == old(xa.failures))
      ensures fresh(xa.live - old(xa.live))
      ensures SpareOk() && NoLeak()
      ensures again ==> old(node) == Error(NoMem) && node == Restart && spare != null && fresh(spare)
      ensures !again ==> spare == null && node == old(node)
    {
      if node != Error(NoMem) {
        if spare != null {
          xa.Free(spare);
          spare := null;
        }
        return false;
      }
      spare := xa.Allocate();
      if spare == null {
        return false;
      }
      node := Restart;
      return true;
    }

    /** The index is not free any more, if the array tracks that. */
    method TakeFree()
      requires xa.Valid() && Cursor() && SpareOk() && NoLeak() && (Idle() || (OnEntry() && index in xa.contents))
      modifies xa`flags, xa`tags, xa.nodes.Values`marks
      ensures xa.Valid() && SpareOk() && NoLeak() && |old(xa.tags)| == MAX_MARKS
      ensures xa.tags == if xa.trackFree && !Idle() then old(Remove(xa.tags, FREE_MARK, index)) else old(xa.tags)
      ensures old(xa.Canonical()) ==> xa.Canonical()
    {
      hide XArray.Valid, NoEmpty, Tight, Remove;
      xa.TagCount();
      LiveNode();
      if xa.trackFree {
        ClearMark(FREE_MARK);
      }
    }

    /** The store of __xa_store() or __xa_alloc() and its clearing of the free mark; nothing in an error state. */
    method StoreAndClear(x: Slot) returns (first: Slot)
      requires xa.Valid() && Cursor() && x.Stored? && SpareOk() && NoLeak()
      requires !node.Error? ==> xa.ZeroSafe(index, x == Stored(Zero))
      modifies this`node, this`offset, this`spare, if spare != null then {spare} else {}
      modifies xa`head, xa`flags, xa`nodes, xa`height, xa`live, xa`failures, xa`contents, xa`tags, xa.nodes.Values
      ensures xa.failures == old(xa.failures) <==> !node.Error? || old(node).Error?
      ensures xa.failures >= old(xa.failures)
      ensures xa.Valid() && SpareOk() && NoLeak() && Made(old(xa.nodes), old(spare)) && fresh(xa.live - old(xa.live))
      ensures |old(xa.tags)| == MAX_MARKS
      ensures node.Error? ==>
        && xa.contents == old(xa.contents) && xa.tags == old(xa.tags)
        && xa.Raw(index) == old(xa.Raw(index)) && (xa.Bare() ==> old(xa.Bare()))
      ensures old(node).Error? ==> node == old(node)
      ensures node.Error? && !old(node).Error? ==> node == Error(NoMem) && spare == null
      ensures !node.Error? ==>
        && first == old(xa.Raw(index)) && xa.contents == old(xa.contents)[index := x.entry]
        && xa.Raw(index) == x
        && xa.tags == TagsAfter(old(xa.tags), index, x, xa.trackFree)
      ensures !node.Error? && x == Stored(Zero) && first == Empty ==> xa.head.Child?
      ensures x != Stored(Zero) && old(xa.Halfway(index)) ==> if node.Error? then xa.Halfway(index) else xa.Canonical()
      ensures old(node).Error? && old(xa.Canonical()) ==> xa.Canonical()
      ensures !old(node).Error? && index == 0 && old(xa.head).Stored? ==> !node.Error? && xa.head == x
      ensures node.Error? ==> xa.head == old(xa.head) || xa.head.Child?
    {
      hide XArray.Raw, XArray.ZeroSafe, XArray.Valid, XArray.Canonical, XArray.Halfway, Made, SpareOk, NoLeak;
      xa.TagCount();
      LiveNode();
      first := StoreEntry(x);
      LiveNode();
      TakeFree();
    }

    /** One round of the loop in __xa_store(). */
    method StoreRound(x: Slot) returns (first: Slot, again: bool)
      requires xa.Valid() && Cursor() && x.Stored? && SpareOk() && NoLeak() && !node.Error?
      requires xa.ZeroSafe(index, x == Stored(Zero))
      modifies this`node, this`offset, this`spare, if spare != null then {spare} else {}
      modifies xa`head, xa`flags, xa`nodes, xa`height, xa`live, xa`failures, xa`contents, xa`tags, xa.nodes.Values
      ensures xa.failures == old(xa.failures) <==> !again && !node.Error?
      ensures xa.failures >= old(xa.failures)
      ensures xa.Valid() && SpareOk() && NoLeak() && fresh(xa.live - old(xa.live)) && |old(xa.tags)| == MAX_MARKS
      ensures again ==>
        && node == Restart && spare != null && fresh(spare)
        && xa.ZeroSafe(index, x == Stored(Zero)) && xa.Raw(index) == old(xa.Raw(index))
        && xa.contents == old(xa.contents) && xa.tags == old(xa.tags)
        && (if xa.nodes == old(xa.nodes) then old(spare) == null
            else Missing(xa.nodes, index) < Missing(old(xa.nodes), index))
      ensures !again ==> spare == null
      ensures !again && node.Error? ==>
        node == Error(NoMem) && xa.contents == old(xa.contents) && xa.tags == old(xa.tags)
      ensures !again && !node.Error? ==>
        && first == old(xa.Raw(index)) && xa.contents == old(xa.contents)[index := x.entry]
        && xa.Raw(index) == x
        && xa.tags == TagsAfter(old(xa.tags), index, x, xa.trackFree)
      ensures !again && !node.Error? && x == Stored(Zero) && first == Empty ==> xa.head.Child?
      ensures x != Stored(Zero) && old(xa.Halfway(index)) ==>
        if again || node.Error? then xa.Halfway(index) else xa.Canonical()
      ensures index == 0 && old(xa.head).Stored? ==> !again && !node.Error? && xa.head == x
    {
      hide XArray.Valid, XArray.Canonical, XArray.Halfway, Missing, Grown, SpareOk, NoLeak, TagsAfter;
      ghost var before, spare0 := xa.nodes, spare;
      LiveNode();
      first := StoreAndClear(x);
      MissingShrinks(before, xa.nodes, index);
      again := Nomem();
    }
  
    lemma ReadyNoLeak()
      requires spare == null
      ensures SpareOk()
      ensures NoLeak() <==> xa.live == xa.nodes.Values
    {
      if NoLeak() {
        assert xa.live - xa.nodes.Values == {};
        assert forall n :: n in xa.live && n !in xa.nodes.Values ==> n in xa.live - xa.nodes.Values;
      }
    }
  
    /** The store of __xa_cmpxchg_raw(), once the walk has found the entry it wants. */
    method Replace(curr: Slot, x: Slot)
      requires xa.Valid() && Cursor() && (x == Empty || x.Stored?) && SpareOk() && NoLeak() && !node.Error?
      requires curr == xa.Raw(index) && (x != Empty ==> xa.ZeroSafe(index, x == Stored(Zero)))
      modifies this`node, this`offset, this`spare, if spare != null then {spare} else {}
      modifies xa`head, xa`flags, xa`nodes, xa`height, xa`live, xa`failures, xa`contents, xa`tags, xa.nodes.Values
      ensures xa.Valid() && SpareOk() && NoLeak() && fresh(xa.live - old(xa.live)) && |old(xa.tags)| == MAX_MARKS
      ensures xa.failures == old(xa.failures) <==> !node.Error?
      ensures xa.failures >= old(xa.failures)
      ensures node.Error? ==>
        && Made(old(xa.nodes), old(spare)) && node == Error(NoMem) && spare == null
        && xa.contents == old(xa.contents) && xa.tags == old(xa.tags)
        && xa.Raw(index) == old(xa.Raw(index)) && (xa.Bare() ==> old(xa.Bare()))
      ensures !node.Error? && curr == x == Empty ==> xa.contents == old(xa.contents) && xa.tags == old(xa.tags)
      ensures !node.Error? && !(curr == x == Empty) ==>
        && xa.contents == Update(old(xa.contents), index, x)
        && xa.tags == TagsExchanged(old(xa.tags), index, curr, x, xa.trackFree)
      ensures !node.Error? && x == Stored(Zero) && curr == Empty ==> xa.head.Child?
      ensures x != Empty && x != Stored(Zero) && old(xa.Halfway(index)) ==>
        if node.Error? then xa.Halfway(index) else xa.Canonical()
      ensures x == Empty ==> !node.Error? && (old(xa.Canonical()) ==> xa.Canonical())
    {
      hide XArray.Raw, XArray.ZeroSafe, XArray.Valid, XArray.Canonical, XArray.Halfway, Made, SpareOk, NoLeak;
      xa.TagCount();
      LiveNode();
      if x == Empty {
        var first := StoreNull();
      } else {
        var first := StoreEntry(x);
        LiveNode();
        if curr == Empty {
          TakeFree();
        }
      }
    }

    /** The conditional store of __xa_cmpxchg_raw(). */
    method Exchange(want: Slot, x: Slot) returns (curr: Slot)
      requires xa.Valid() && Cursor() && (x == Empty || x.Stored?) && SpareOk() && NoLeak() && !node.Error?
      requires x != Empty && xa.Raw(index) == want ==> xa.ZeroSafe(index, x == Stored(Zero))
      modifies this`node, this`offset, this`spare, if spare != null then {spare} else {}
      modifies xa`head, xa`flags, xa`nodes, xa`height, xa`live, xa`failures, xa`contents, xa`tags, xa.nodes.Values
      ensures xa.Valid() && SpareOk() && NoLeak() && fresh(xa.live - old(xa.live)) && |old(xa.tags)| == MAX_MARKS
      ensures xa.failures == old(xa.failures) <==> !node.Error?
      ensures xa.failures >= old(xa.failures)
      ensures node.Error? ==>
        && Made(old(xa.nodes), old(spare)) && node == Error(NoMem) && spare == null
        && xa.contents == old(xa.contents) && xa.tags == old(xa.tags)
        && xa.Raw(index) == old(xa.Raw(index)) && (xa.Bare() ==> old(xa.Bare()))
      ensures !node.Error? ==> curr == old(xa.Raw(index))
      ensures !node.Error? && (curr != want || curr == x == Empty) ==>
        xa.contents == old(xa.contents) && xa.tags == old(xa.tags)
      ensures !node.Error? && curr == want && !(curr == x == Empty) ==>
        && xa.contents == Update(old(xa.contents), index, x)
        && xa.tags == TagsExchanged(old(xa.tags), index, curr, x, xa.trackFree)
      ensures !node.Error? && x == Stored(Zero) && curr == want == Empty ==> xa.head.Child?
      ensures node.Error? ==> old(xa.Raw(index)) == want && x.Stored?
      ensures old(xa.Halfway(index)) && node.Error? && x != Stored(Zero) ==> xa.Halfway(index)
      ensures old(xa.Halfway(index)) && !node.Error? && x.Stored? && x != Stored(Zero) && curr == want ==>
        xa.Canonical()
      ensures !node.Error? && x != Stored(Zero) && old(xa.Canonical()) ==> xa.Canonical()
    {
      hide XArray.Raw, XArray.ZeroSafe, XArray.Valid, XArray.Canonical, XArray.Halfway, Made, TagsExchanged;
      xa.TagCount();
      LiveNode();
      if xa.Canonical() {
        xa.CanonicalHalfway(index);
      }
      curr := Load();
      if curr == want {
        Replace(curr, x);
      }
    }

    /** One round of the loop in __xa_cmpxchg_raw(). */
    method ExchangeRound(want: Slot, x: Slot) returns (curr: Slot, again: bool)
      requires xa.Valid() && Cursor() && (x == Empty || x.Stored?) && SpareOk() && NoLeak() && !node.Error?
      requires x != Empty && xa.Raw(index) == want ==> xa.ZeroSafe(index, x == Stored(Zero))
      modifies this`node, this`offset, this`spare, if spare != null then {spare} else {}
      modifies xa`head, xa`flags, xa`nodes, xa`height, xa`live, xa`failures, xa`contents, xa`tags, xa.nodes.Values
      ensures xa.Valid() && SpareOk() && NoLeak() && fresh(xa.live - old(xa.live)) && |old(xa.tags)| == MAX_MARKS
      ensures xa.failures == old(xa.failures) <==> !again && !node.Error?
      ensures xa.failures >= old(xa.failures)
      ensures again ==>
        && node == Restart && spare != null && fresh(spare)
        && xa.contents == old(xa.contents) && xa.tags == old(xa.tags)
        && xa.Raw(index) == old(xa.Raw(index)) && (xa.Bare() ==> old(xa.Bare()))
        && (if xa.nodes == old(xa.nodes) then old(spare) == null
            else Missing(xa.nodes, index) < Missing(old(xa.nodes), index))
      ensures !again ==> spare == null
      ensures !again && node.Error? ==>
        node == Error(NoMem) && xa.contents == old(xa.contents) && xa.tags == old(xa.tags)
      ensures !again && !node.Error? ==> curr == old(xa.Raw(index))
      ensures !again && !node.Error? && (curr != want || curr == x == Empty) ==>
        xa.contents == old(xa.contents) && xa.tags == old(xa.tags)
      ensures !again && !node.Error? && curr == want && !(curr == x == Empty) ==>
        && xa.contents == Update(old(xa.contents), index, x)
        && xa.tags == TagsExchanged(old(xa.tags), index, curr, x, xa.trackFree)
      ensures !again && !node.Error? && x == Stored(Zero) && curr == want == Empty ==> xa.head.Child?
      ensures again || node.Error? ==> old(xa.Raw(index)) == want && x.Stored?
      ensures old(xa.Halfway(index)) && (again || node.Error?) && x != Stored(Zero) ==> xa.Halfway(index)
      ensures old(xa.Halfway(index)) && !again && !node.Error? && x.Stored? && x != Stored(Zero) && curr == want ==>
        xa.Canonical()
      ensures !again && !node.Error? && x != Stored(Zero) && old(xa.Canonical()) ==> xa.Canonical()
    {
      hide XArray.Valid, XArray.Canonical, XArray.Halfway, Missing, Grown, SpareOk, NoLeak, TagsExchanged;
      ghost var before, spare0 := xa.nodes, spare;
      LiveNode();
      curr := Exchange(want, x);
      if node.Error? {
        MissingShrinks(before, xa.nodes, index);
      }
      again := Nomem();
    }
  }
}
