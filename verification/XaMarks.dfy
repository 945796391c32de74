/**
 Loads and marks, against the plain map and the sets of marked indices.
 */
module XaMarks {
  import opened Chunks
  import opened Numbers
  import opened XaNodes
  import opened XaTree
  import opened XArrays
  import opened XaStates
  import opened XaApi

  /** xa_load() */
  method Load(xa: XArray, index: nat) returns (entry: Slot)
    requires xa.Valid() && index < WORD
    ensures entry ==
            if index in xa.contents && xa.contents[index] != Zero then Stored(xa.contents[index]) else Empty
  {
    hide XArray.Valid;
    var xas := new XaState(xa, index);
    xa.RawFacts(index);
    entry := xas.Load();
    entry := ZeroToNull(entry);
  }

  /** __xa_set_mark(): the mark is set on this index, if it shows something, and no other mark changes. */
  method SetMark(xa: XArray, index: nat, m: nat)
    requires Ready(xa) && index < WORD && m < MAX_MARKS && !(xa.trackFree && m == FREE_MARK)
    modifies xa`flags, xa`tags, xa.nodes.Values`marks
    ensures Ready(xa) && |old(xa.tags)| == MAX_MARKS
    ensures xa.tags == if xa.Raw(index) != Empty then old(Insert(xa.tags, m, index)) else old(xa.tags)
    ensures |xa.tags| == 3 && forall n, j: nat :: 0 <= n < 3 ==>
      (j in xa.tags[n] <==> j in old(xa.tags)[n] || (n == m && j == index && xa.Raw(index) != Empty))
  {
    hide XArray.Valid;
    xa.TagCount();
    xa.RawFacts(index);
    var xas := new XaState(xa, index);
    var entry := xas.Load();
    if entry != Empty {
      xas.SetMark(m);
    }
  }

  /** __xa_clear_mark(): the mark is taken off this index, and no other mark changes. */
  method ClearMark(xa: XArray, index: nat, m: nat)
    requires Ready(xa) && index < WORD && m < MAX_MARKS && !(xa.trackFree && m == FREE_MARK)
    modifies xa`flags, xa`tags, xa.nodes.Values`marks
    ensures Ready(xa) && |old(xa.tags)| == MAX_MARKS
    ensures xa.tags == if index == 0 && xa.Implied() then old(xa.tags) else old(Remove(xa.tags, m, index))
    ensures |xa.tags| == 3 && forall n, j: nat :: 0 <= n < 3 ==>
      (j in xa.tags[n] <==> j in old(xa.tags)[n] && !(n == m && j == index && !(index == 0 && xa.Implied())))
  {
    hide XArray.Valid;
    xa.TagCount();
    xa.RawFacts(index);
    var xas := new XaState(xa, index);
    var entry := xas.Load();
    if entry != Empty {
      xas.ClearMark(m);
    } else if index !in xa.contents {
      xa.RestMark(index, m);
      assert Remove(xa.tags, m, index)[m] == xa.tags[m];
    }
  }

  /** xas_get_mark() */
  predicate Marked(xas: XaState, m: nat)
    requires m < MAX_MARKS
    reads xas`node, xas`offset, xas.xa`flags, if xas.node.At? then {xas.node.n} else {}
  {
    match xas.node
    case Top => m < |xas.xa.flags| && xas.xa.flags[m]
    case At(n) => m < |n.marks| && xas.offset < |n.marks[m]| && n.marks[m][xas.offset]
    case _ => false
  }

  /** The bit under the cursor speaks for all the indices below its slot. */
  lemma MarkedMeans(xas: XaState, entry: Slot, m: nat)
    requires xas.xa.Valid() && xas.index < WORD && m < MAX_MARKS && xas.Walked(entry)
    ensures |xas.xa.tags| == MAX_MARKS
    ensures var l := if xas.node.At? then xas.node.n.level else xas.xa.height;
      Marked(xas, m) <==> (xas.node != Bounds && Any(xas.xa.tags[m], l, Up(xas.index, l)))
  {
    hide XArray.Valid, Any;
    xas.xa.HeadFlag(m);
    if xas.node.At? {
      var q := Pos(xas.node.n.level, Up(xas.index, xas.node.n.level + 1));
      xas.xa.ValidMarks(q);
      BitOnPath(xas.node.n.marks, q, xas.xa.tags, m, xas.index);
    }
  }

  /** Where the walk ends on a set bit, the index itself is marked. */
  lemma MarkedEnd(xas: XaState, entry: Slot, m: nat)
    requires xas.xa.Valid() && xas.index < WORD && m < MAX_MARKS && xas.Walked(entry) && !entry.Child? && Marked(xas, m)
    ensures |xas.xa.tags| == MAX_MARKS && xas.index in xas.xa.tags[m] && Up(xas.index, xas.xa.height) == 0
  {
    hide XArray.Valid;
    var xa := xas.xa;
    MarkedMeans(xas, entry, m);
    UpStart(xas.index);
    if xas.node.At? {
      xa.OnPathReach(xas.node.n, xas.index);
      if xas.node.n.level == 0 {
        AnyBottom(xa.tags[m], xas.index);
      } else {
        var n, i := xas.node.n, xas.index;
        xa.OnPathLink(n, i);
        UpStep(i, n.level);
        xa.PathParts(n, i);
        xa.ValidSlot(Pos(n.level, n.chunk), Lo(Up(i, n.level)));
        MarkedSlotFree(xa, Pos(n.level, n.chunk), Lo(Up(i, n.level)), m, i);
      }
    } else {
      xa.HeadParts();
    }
  }

  lemma MarkedSlotFree(xa: XArray, q: Pos, o: nat, m: nat, i: nat)
    requires xa.Valid() && q in xa.nodes && o < CHUNK_SIZE && |xa.nodes[q].slots| == CHUNK_SIZE && m < MAX_MARKS
    requires xa.nodes[q].slots[o] == Empty && Up(i, q.level) == Cat(q.chunk, o)
    requires |xa.tags| == MAX_MARKS && Any(xa.tags[m], q.level, Cat(q.chunk, o))
    ensures i in xa.tags[m]
  {
    hide XArray.Valid;
    var j :| j in xa.tags[m] && Up(j, q.level) == Cat(q.chunk, o);
    xa.EmptyBelow(q, o, j);
    xa.RestMark(j, m);
    xa.EmptyBelow(q, o, i);
    xa.RestMark(i, m);
  }

  lemma NotMarked(xas: XaState, entry: Slot, m: nat)
    requires xas.xa.Valid() && xas.index < WORD && m < MAX_MARKS && xas.Walked(entry)
    ensures !Marked(xas, m) ==>
      |xas.xa.tags| == MAX_MARKS && !(xas.index in xas.xa.tags[m] && Up(xas.index, xas.xa.height) == 0)
  {
    hide XArray.Valid, Any;
    MarkedMeans(xas, entry, m);
    if !Marked(xas, m) && xas.node != Bounds {
      AnyNot(xas.xa.tags[m], xas.index, if xas.node.At? then xas.node.n.level else xas.xa.height);
    }
  }

  lemma MarkReached(xa: XArray, i: nat, m: nat)
    requires xa.Valid() && m < MAX_MARKS
    ensures |xa.tags| == MAX_MARKS
    ensures i in xa.tags[m] && !(xa.trackFree && m == FREE_MARK) ==> Up(i, xa.height) == 0
  {
    hide XArray.Valid;
    xa.TagCount();
    if i in xa.contents {
      xa.InWord(i);
    } else {
      xa.RestMark(i, m);
    }
  }

  /** One level down. */
  method Down(xas: XaState, entry: Slot) returns (next: Slot)
    requires xas.xa.Valid() && xas.Walked(entry) && entry.Child?
    modifies xas`node, xas`offset
    ensures xas.Walked(next) && (next.Child? ==> next.node.level < entry.node.level)
  {
    hide XArray.Valid, XaState.Walked;
    xas.xa.TreeParts();
    xas.ChildFacts(entry);
    next := xas.Descend(entry.node);
    if next.Child? {
      xas.LeafFacts(next);
    }
  }

  /** xa_get_mark() */
  method GetMark(xa: XArray, index: nat, m: nat) returns (b: bool)
    requires xa.Valid() && index < WORD && m < MAX_MARKS
    ensures |xa.tags| == MAX_MARKS
    ensures b <==> index in xa.tags[m] && Up(index, xa.height) == 0
    ensures !(xa.trackFree && m == FREE_MARK) ==> (b <==> index in xa.tags[m])
  {
    hide XArray.Valid, Any, XaState.Walked, Marked, Up;
    MarkReached(xa, index, m);
    var xas := new XaState(xa, index);
    var entry := xas.Start();
    NotMarked(xas, entry, m);
    while Marked(xas, m)
      invariant xas.Walked(entry) && xas.xa == xa && xas.index == index
      invariant !Marked(xas, m) ==> !(index in xa.tags[m] && Up(index, xa.height) == 0)
      decreases if entry.Child? then entry.node.level + 1 else 0
    {
      if !entry.Child? {
        MarkedEnd(xas, entry, m);
        return true;
      }
      entry := Down(xas, entry);
      NotMarked(xas, entry, m);
    }
    return false;
  }
}
