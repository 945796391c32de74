/**
 History independence: the tree of an array in canonical shape is a function of what it holds.
 */
module XaShape {
  import opened Chunks
  import opened XaNodes
  import opened XaTree
  import opened XArrays

  /** Some stored index lies below the node at `q`. */
  ghost predicate Inhabited(contents: map<nat, Entry>, q: Pos)
  {
    exists i :: i in contents && Up(i, q.level + 1) == q.chunk
  }

  /** Every node of a tree without empty nodes is above some stored index. */
  lemma {:induction false} NodeInhabited(xa: XArray, q: Pos)
    requires xa.Valid() && NoEmpty(xa.nodes, null) && q in xa.nodes
    ensures Inhabited(xa.contents, q)
    decreases q.level
  {
    hide XArray.Valid, Used;
    var n := xa.nodes[q];
    var o := UsedSlot(xa, q);
    SlotInhabited(xa, q, o);
  }

  /** A node that is not empty has a used slot. */
  lemma UsedSlot(xa: XArray, q: Pos) returns (o: nat)
    requires xa.Valid() && NoEmpty(xa.nodes, null) && q in xa.nodes
    ensures o < CHUNK_SIZE && |xa.nodes[q].slots| == CHUNK_SIZE && xa.nodes[q].slots[o] != Empty
  {
    CountFacts(xa.nodes, q);
    UsedZero(xa.nodes[q].slots);
    xa.ValidLink(q);
    o :| o < |xa.nodes[q].slots| && xa.nodes[q].slots[o] != Empty;
  }

  /** A used slot leads to a stored index. */
  lemma {:induction false} SlotInhabited(xa: XArray, q: Pos, o: nat)
    requires xa.Valid() && NoEmpty(xa.nodes, null) && q in xa.nodes && o < CHUNK_SIZE
    requires |xa.nodes[q].slots| == CHUNK_SIZE && xa.nodes[q].slots[o] != Empty
    ensures Inhabited(xa.contents, q)
    ensures exists i :: i in xa.contents && Up(i, q.level) == Cat(q.chunk, o)
    decreases q.level, 0
  {
    hide XArray.Valid;
    xa.ValidSlot(q, o);
    HiLoCat(q.chunk, o);
    var k := Cat(q.chunk, o);
    var i: nat;
    if q.level == 0 {
      i := k;
      UpStart(i);
    } else {
      NodeInhabited(xa, Pos(q.level - 1, k));
      i :| i in xa.contents && Up(i, q.level) == k;
    }
    assert i in xa.contents && Up(i, q.level) == k;
    assert Up(i, q.level + 1) == Hi(k);
  }

  /** The nodes of a tree without empty nodes are those above the stored indices, and no more. */
  lemma NodesFromContents(xa: XArray, q: Pos)
    requires xa.Valid() && NoEmpty(xa.nodes, null)
    ensures q in xa.nodes <==> q.level < xa.height && Inhabited(xa.contents, q)
  {
    hide XArray.Valid, NoEmpty;
    if q in xa.nodes {
      xa.ValidLink(q);
      NodeInhabited(xa, q);
    }
    if q.level < xa.height && Inhabited(xa.contents, q) {
      var i :| i in xa.contents && Up(i, q.level + 1) == q.chunk;
      xa.StoredPath(i, q.level);
    }
  }

  /** A canonical tree is just as tall as the largest stored index needs. */
  lemma HeightNeeded(xa: XArray)
    requires xa.Valid() && xa.Canonical() && xa.height > 0
    ensures exists i :: i in xa.contents && Up(i, xa.height - 1) != 0
  {
    hide XArray.Valid;
    var root := Pos(xa.height - 1, 0);
    xa.RootIn();
    var o := UsedPast(xa, root);
    SlotInhabited(xa, root, o);
    assert Cat(0, o) != 0;
  }

  /** A root that is not empty and not loose uses a slot past slot 0. */
  lemma UsedPast(xa: XArray, q: Pos) returns (o: nat)
    requires xa.Valid() && NoEmpty(xa.nodes, null) && q in xa.nodes
    requires !Loose(xa.nodes[q].count, xa.nodes[q].slots)
    ensures 0 < o < CHUNK_SIZE && |xa.nodes[q].slots| == CHUNK_SIZE && xa.nodes[q].slots[o] != Empty
  {
    o := UsedSlot(xa, q);
    CountFacts(xa.nodes, q);
    var slots := xa.nodes[q].slots;
    if o == 0 {
      UsedOne(slots);
      o :| 1 <= o < |slots| && slots[o] != Empty;
    }
  }

  /** Two slots agree up to the identity of the nodes they lead to. */
  predicate Alike(a: Slot, b: Slot)
  {
    (a.Child? && b.Child?) || a == b
  }

  /** The same tree, up to the identity of its nodes. */
  ghost predicate SameShape(a: XArray, b: XArray)
    reads a`height, a`nodes, a`head, a.nodes.Values, b`height, b`nodes, b`head, b.nodes.Values
  {
    && a.height == b.height && a.nodes.Keys == b.nodes.Keys && Alike(a.head, b.head)
    && forall q :: q in a.nodes ==>
         && a.nodes[q].count == b.nodes[q].count && a.nodes[q].nrValues == b.nodes[q].nrValues
         && |a.nodes[q].slots| == CHUNK_SIZE == |b.nodes[q].slots|
         && forall o :: 0 <= o < CHUNK_SIZE ==> Alike(a.nodes[q].slots[o], b.nodes[q].slots[o])
  }

  lemma SameHeight(a: XArray, b: XArray)
    requires a.Valid() && a.Canonical() && b.Valid() && b.Canonical() && a.contents == b.contents
    ensures a.height <= b.height
  {
    hide XArray.Valid, XArray.Canonical;
    if a.height > b.height {
      HeightNeeded(a);
      var i :| i in a.contents && Up(i, a.height - 1) != 0;
      b.InWord(i);
      UpZero(i, b.height, a.height - 1);
      assert false;
    }
  }

  lemma {:induction false} AlikeCounts(s: seq<Slot>, t: seq<Slot>)
    requires |s| == |t| && forall o :: 0 <= o < |s| ==> Alike(s[o], t[o])
    ensures Used(s) == Used(t) && Values(s) == Values(t)
  {
    if s != [] {
      assert Alike(s[0], t[0]);
      forall o | 0 <= o < |s[1..]|
        ensures Alike(s[1..][o], t[1..][o])
      {
        assert Alike(s[o + 1], t[o + 1]);
      }
      AlikeCounts(s[1..], t[1..]);
    }
  }

  lemma SameNode(a: XArray, b: XArray, q: Pos)
    requires a.Valid() && b.Valid() && a.contents == b.contents && a.nodes.Keys == b.nodes.Keys && q in a.nodes
    ensures a.nodes[q].count == b.nodes[q].count && a.nodes[q].nrValues == b.nodes[q].nrValues
    ensures |a.nodes[q].slots| == CHUNK_SIZE == |b.nodes[q].slots|
    ensures forall o :: 0 <= o < CHUNK_SIZE ==> Alike(a.nodes[q].slots[o], b.nodes[q].slots[o])
  {
    hide XArray.Valid, Used, Values;
    a.ValidLink(q);
    b.ValidLink(q);
    forall o | 0 <= o < CHUNK_SIZE
      ensures Alike(a.nodes[q].slots[o], b.nodes[q].slots[o])
    {
      a.ValidSlot(q, o);
      b.ValidSlot(q, o);
    }
    AlikeCounts(a.nodes[q].slots, b.nodes[q].slots);
    a.ValidCounts(q);
    b.ValidCounts(q);
  }

  /** Two canonical arrays that hold the same entries have the same tree, whatever happened to them before.  Only a
      reservation of index 0 may be shown by the head of one and implied by the other, if both keep index 0 busy. */
  lemma SameContentsSameShape(a: XArray, b: XArray)
    requires a.Valid() && a.Canonical() && b.Valid() && b.Canonical()
    requires a.contents == b.contents
    ensures SameShape(a, b) <==> (a.Implied() <==> b.Implied())
    ensures !a.zeroBusy && !b.zeroBusy ==> SameShape(a, b)
  {
    hide XArray.Valid, Inhabited, NoEmpty, Tight;
    SameHeight(a, b);
    SameHeight(b, a);
    forall q: Pos
      ensures q in a.nodes <==> q in b.nodes
    {
      NodesFromContents(a, q);
      NodesFromContents(b, q);
    }
    assert a.nodes.Keys == b.nodes.Keys;
    forall q | q in a.nodes
      ensures a.nodes[q].count == b.nodes[q].count && a.nodes[q].nrValues == b.nodes[q].nrValues
      ensures |a.nodes[q].slots| == CHUNK_SIZE == |b.nodes[q].slots|
      ensures forall o :: 0 <= o < CHUNK_SIZE ==> Alike(a.nodes[q].slots[o], b.nodes[q].slots[o])
    {
      SameNode(a, b, q);
    }
    a.HeadParts();
    b.HeadParts();
  }

  /** And if the same indices are marked, they have the same mark bits. */
  lemma SameMarks(a: XArray, b: XArray, q: Pos)
    requires a.Valid() && b.Valid() && a.tags == b.tags && a.height == b.height
    ensures a.flags == b.flags
    ensures q in a.nodes && q in b.nodes ==> a.nodes[q].marks == b.nodes[q].marks
  {
    hide XArray.Valid;
    a.TagCount();
    b.TagCount();
    forall m: nat | m < MAX_MARKS
      ensures a.flags[m] == b.flags[m]
    {
      a.HeadFlag(m);
      b.HeadFlag(m);
    }
    if q in a.nodes && q in b.nodes {
      a.ValidMarks(q);
      b.ValidMarks(q);
      forall m: nat | m < MAX_MARKS
        ensures a.nodes[q].marks[m] == b.nodes[q].marks[m]
      {
        forall o: nat | o < CHUNK_SIZE
          ensures a.nodes[q].marks[m][o] == b.nodes[q].marks[m][o]
        {
          assert a.nodes[q].marks[m][o] <==> Any(a.tags[m], q.level, Cat(q.chunk, o));
        }
      }
    }
  }

  /** The head of an array that needs no node is what is documented exactly if the array is canonical. */
  lemma HeadExact(xa: XArray)
    requires xa.Valid() && !xa.zeroBusy
    ensures xa.contents == map[] ==> (xa.head == Empty <==> xa.Canonical())
    ensures xa.contents.Keys == {0} ==> (xa.head == Stored(xa.contents[0]) <==> xa.Canonical())
    ensures (exists i :: i in xa.contents && i != 0) ==> xa.head.Child?
  {
    hide XArray.Valid, NoEmpty, Tight, Up;
    xa.HeadParts();
    if xa.height == 0 {
      xa.NoNodesLeft();
      forall i | i in xa.contents
        ensures i == 0
      {
        xa.InWord(i);
        UpStart(i);
      }
    } else if xa.Canonical() {
      HeadShape(xa);
    }
  }

  /** What the head of a canonical array can be: nothing, the only entry if that is at index 0, or a node. */
  lemma HeadShape(xa: XArray)
    requires xa.Valid() && xa.Canonical() && !xa.zeroBusy
    ensures xa.head == Empty <==> xa.contents == map[]
    ensures xa.head.Stored? <==> xa.contents.Keys == {0}
    ensures xa.head.Stored? ==> xa.head == Stored(xa.contents[0])
    ensures xa.head.Child? <==> exists i :: i in xa.contents && i != 0
  {
    hide XArray.Valid, XArray.Canonical, Up;
    xa.HeadParts();
    if xa.height == 0 {
      forall i | i in xa.contents
        ensures i == 0
      {
        xa.InWord(i);
        UpStart(i);
      }
      if 0 in xa.contents {
        assert xa.contents.Keys == {0};
      } else {
        assert xa.contents == map[];
      }
    } else {
      HeightNeeded(xa);
      var i :| i in xa.contents && Up(i, xa.height - 1) != 0;
      if i == 0 {
        UpStart(0);
        UpZero(0, 0, xa.height - 1);
      }
      assert i in xa.contents.Keys;
    }
  }
}
