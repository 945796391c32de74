/**
 Teardown: xa_destroy() and the loop of xas_free_nodes(), which climbs back through parents and frees every node once.
 */
module XaDestroy {
  import opened Chunks
  import opened XaNodes
  import opened XaTree
  import opened XArrays
  import opened XaStates
  import opened XaApi

  /** The first index below the node at `p`. */
  ghost function Begin(p: Pos): nat { Base(p.level + 1, p.chunk) }

  /** The node at `p` is on the way from the node at `q` to the root, both included. */
  ghost predicate Above(p: Pos, q: Pos)
  {
    p.level >= q.level && Up(Begin(q), p.level + 1) == p.chunk
  }

  /** With slot `o` of the node at `q` next to visit, the node at `p` has not been freed yet. */
  ghost predicate Standing(p: Pos, q: Pos, o: nat)
  {
    Begin(p) >= Base(q.level, Cat(q.chunk, o)) || Above(p, q)
  }

  /** Exactly the nodes still standing are out. */
  ghost predicate Alive(live: set<Node>, tree: map<Pos, Node>, q: Pos, o: nat)
  {
    live <= tree.Values && forall p :: p in tree ==> (tree[p] in live <==> Standing(p, q, o))
  }

  /** The slots above the leaves are as they were; those of a leaf may hold retry entries by now. */
  ghost predicate InnerSlots(tree: map<Pos, Node>)
    reads tree.Values`slots
  {
    forall q :: q in tree ==>
      && |tree[q].slots| == CHUNK_SIZE
      && (q.level > 0 ==> forall o :: 0 <= o < CHUNK_SIZE ==>
            tree[q].slots[o] == if Pos(q.level - 1, Cat(q.chunk, o)) in tree
                                then Child(tree[Pos(q.level - 1, Cat(q.chunk, o))]) else Empty)
  }

  lemma InnerStart(nodes: map<Pos, Node>, contents: map<nat, Entry>)
    requires SlotsIn(nodes, contents)
    ensures InnerSlots(nodes)
  {
    forall q | q in nodes
      ensures SlotVals(nodes[q].slots, q, nodes, contents)
    {
    }
  }

  lemma InnerAt(tree: map<Pos, Node>, q: Pos, o: nat)
    requires InnerSlots(tree) && q in tree && o < CHUNK_SIZE
    ensures |tree[q].slots| == CHUNK_SIZE
    ensures q.level > 0 ==> tree[q].slots[o] == if Pos(q.level - 1, Cat(q.chunk, o)) in tree
                                                then Child(tree[Pos(q.level - 1, Cat(q.chunk, o))]) else Empty
  {
  }

  /** A node that begins inside the range of `q` and is at least as high is above it. */
  lemma BeginsInside(p: Pos, q: Pos)
    requires p.level >= q.level && Begin(q) <= Begin(p) < Base(q.level + 1, q.chunk + 1)
    ensures Above(p, q)
  {
    Covers(Begin(p), q.level + 1, q.chunk);
    UpBase(q.level + 1, q.chunk);
    SameHigh(Begin(q), Begin(p), q.level + 1, p.level + 1);
    UpBase(p.level + 1, p.chunk);
  }

  lemma StandsDown(p: Pos, q: Pos, o: nat)
    requires q.level > 0 && o < CHUNK_SIZE
    ensures Standing(p, Pos(q.level - 1, Cat(q.chunk, o)), 0) <==> Standing(p, q, o)
  {
    var c := Pos(q.level - 1, Cat(q.chunk, o));
    assert Begin(c) == Base(q.level, Cat(q.chunk, o));
    FirstPlace(q.level, c.chunk);
    HiLoCat(q.chunk, o);
    UpBase(q.level, c.chunk);
    UpBase(q.level + 1, q.chunk);
    assert Up(Begin(c), q.level + 1) == Hi(Up(Begin(c), q.level)) == q.chunk;
    if p.level >= q.level {
      SameHigh(Begin(c), Begin(q), q.level + 1, p.level + 1);
    } else if p.level == c.level && Up(Begin(c), p.level + 1) == p.chunk {
      assert p == c;
    }
  }

  /** Passing a slot with no node below it loses nothing. */
  lemma StandsSkip(p: Pos, q: Pos, o: nat)
    requires o < CHUNK_SIZE && (p.level < q.level ==> Up(Begin(p), q.level) != Cat(q.chunk, o))
    ensures Standing(p, q, o + 1) <==> Standing(p, q, o)
  {
    NextPlace(q.level, q.chunk, o);
    SlotRange(Begin(p), q.level, Cat(q.chunk, o));
    BaseStep(q.level, q.chunk);
    BaseMonotone(q.level, Cat(q.chunk, 0), Cat(q.chunk, o));
    if p.level >= q.level && Base(q.level, Cat(q.chunk, o)) <= Begin(p) < Base(q.level, Cat(q.chunk, o + 1)) {
      BeginsInside(p, q);
    }
  }

  /** Leaving a finished node for its parent, which frees that node and no other. */
  lemma StandsPop(p: Pos, q: Pos)
    ensures var up := Pos(q.level + 1, Hi(q.chunk));
      Standing(p, up, Lo(q.chunk) + 1) <==> Standing(p, q, CHUNK_SIZE) && p != q
  {
    hide Base;
    var up := Pos(q.level + 1, Hi(q.chunk));
    ClimbPlace(q.level, q.chunk);
    UpBase(q.level + 1, q.chunk);
    UpBase(up.level + 1, up.chunk);
    assert Up(Begin(q), up.level + 1) == up.chunk;
    NextPlace(q.level + 1, Hi(q.chunk), Lo(q.chunk));
    CatHiLo(q.chunk);
    if p.level >= up.level {
      SameHigh(Begin(q), Begin(up), up.level + 1, p.level + 1);
    }
  }

  /** At the end of the root only the root is left. */
  lemma StandsLast(tree: map<Pos, Node>, h: nat, p: Pos)
    requires LinksIn(tree, h) && h > 0 && p in tree && Standing(p, Pos(h - 1, 0), CHUNK_SIZE)
    ensures p == Pos(h - 1, 0)
  {
    hide Base, Up;
    BelowHeight(tree, h, p);
    UpBase(p.level + 1, p.chunk);
    PathTop(tree, h, Begin(p), p.level);
    Covers(Begin(p), h, 1);
    BaseStep(h - 1, 0);
  }

  lemma StandsAll(p: Pos, h: nat)
    requires h > 0
    ensures Standing(p, Pos(h - 1, 0), 0)
  {
    BaseStep(h - 1, 0);
    BaseMonotone(h, 0, 0);
    ZeroBase(h - 1);
  }

  lemma {:induction false} ZeroBase(l: nat)
    ensures Base(l, 0) == 0
  {
    if l > 0 {
      ZeroBase(l - 1);
    }
  }

  /** No node hangs below an empty slot, and none below a leaf. */
  lemma NoneBelow(tree: map<Pos, Node>, h: nat, q: Pos, o: nat, p: Pos)
    requires LinksIn(tree, h) && q in tree && p in tree && o < CHUNK_SIZE
    requires q.level > 0 ==> Pos(q.level - 1, Cat(q.chunk, o)) !in tree
    ensures p.level < q.level ==> Up(Begin(p), q.level) != Cat(q.chunk, o)
  {
    if p.level < q.level {
      BelowHeight(tree, h, q);
      UpBase(p.level + 1, p.chunk);
      PathUp(tree, h, Begin(p), p.level, q.level - 1);
    }
  }

  lemma AliveDown(live: set<Node>, tree: map<Pos, Node>, q: Pos, o: nat)
    requires Alive(live, tree, q, o) && q.level > 0 && o < CHUNK_SIZE
    ensures Alive(live, tree, Pos(q.level - 1, Cat(q.chunk, o)), 0)
  {
    hide Standing;
    forall p | p in tree
      ensures tree[p] in live <==> Standing(p, Pos(q.level - 1, Cat(q.chunk, o)), 0)
    {
      StandsDown(p, q, o);
    }
  }

  lemma AliveSkip(live: set<Node>, tree: map<Pos, Node>, h: nat, q: Pos, o: nat)
    requires Alive(live, tree, q, o) && LinksIn(tree, h) && q in tree && o < CHUNK_SIZE
    requires q.level > 0 ==> Pos(q.level - 1, Cat(q.chunk, o)) !in tree
    ensures Alive(live, tree, q, o + 1)
  {
    hide Standing, LinksIn;
    forall p | p in tree
      ensures tree[p] in live <==> Standing(p, q, o + 1)
    {
      NoneBelow(tree, h, q, o, p);
      StandsSkip(p, q, o);
    }
  }

  lemma AlivePop(live: set<Node>, tree: map<Pos, Node>, h: nat, q: Pos)
    requires Alive(live, tree, q, CHUNK_SIZE) && LinksIn(tree, h) && q in tree
    ensures Alive(live - {tree[q]}, tree, Pos(q.level + 1, Hi(q.chunk)), Lo(q.chunk) + 1)
  {
    hide Standing, LinksIn;
    Distinct(tree, h, q);
    forall p | p in tree
      ensures tree[p] in live - {tree[q]} <==> Standing(p, Pos(q.level + 1, Hi(q.chunk)), Lo(q.chunk) + 1)
    {
      StandsPop(p, q);
    }
  }

  lemma AliveLast(live: set<Node>, tree: map<Pos, Node>, h: nat)
    requires h > 0 && Alive(live, tree, Pos(h - 1, 0), CHUNK_SIZE) && LinksIn(tree, h) && Pos(h - 1, 0) in tree
    ensures live - {tree[Pos(h - 1, 0)]} == {}
  {
    hide Standing, LinksIn;
    forall n | n in live
      ensures n == tree[Pos(h - 1, 0)]
    {
      var p :| p in tree && tree[p] == n;
      StandsLast(tree, h, p);
    }
  }

  lemma AliveStart(tree: map<Pos, Node>, h: nat)
    requires h > 0
    ensures Alive(tree.Values, tree, Pos(h - 1, 0), 0)
  {
    hide Standing;
    forall p | p in tree
      ensures tree[p] in tree.Values && Standing(p, Pos(h - 1, 0), 0)
    {
      StandsAll(p, h);
    }
  }

  /** The node being visited is itself still out. */
  lemma AliveHere(live: set<Node>, tree: map<Pos, Node>, q: Pos, o: nat)
    requires Alive(live, tree, q, o) && q in tree
    ensures tree[q] in live
  {
    UpBase(q.level + 1, q.chunk);
    assert Above(q, q);
  }

  /** Replace an entry of a leaf with the retry entry, for readers that are still inside. */
  method Strip(n: Node, offset: nat, ghost tree: map<Pos, Node>, ghost h: nat, ghost q: Pos)
    requires LinksIn(tree, h) && InnerSlots(tree) && q in tree && tree[q] == n && offset < CHUNK_SIZE
    requires |n.slots| == CHUNK_SIZE && (q.level > 0 ==> n.slots[offset] == Empty)
    modifies n`slots
    ensures InnerSlots(tree)
  {
    hide LinksIn;
    Distinct(tree, h, q);
    if n.slots[offset] != Empty {
      n.slots := n.slots[offset := Retry];
    }
  }

  /** The end of a node: free it and climb, and climb on from a parent that is finished too. */
  method Finish(xa: XArray, last: Node, top: Node, ghost tree: map<Pos, Node>, ghost h: nat, ghost start: Pos)
      returns (node: Node, offset: nat, done: bool, ghost q: Pos)
    requires LinksIn(tree, h) && InnerSlots(tree) && h > 0 && Pos(h - 1, 0) in tree && tree[Pos(h - 1, 0)] == top
    requires start in tree && tree[start] == last && Alive(xa.live, tree, start, CHUNK_SIZE)
    modifies xa`live, tree.Values`count, tree.Values`nrValues
    ensures done ==> xa.live == {}
    ensures !done ==>
      && q in tree && tree[q] == node && offset < CHUNK_SIZE && Alive(xa.live, tree, q, offset)
      && Base(q.level, Cat(q.chunk, offset)) == Base(start.level, Cat(start.chunk, CHUNK_SIZE))
  {
    hide LinksIn, InnerSlots, Alive, Base;
    node, offset, q, done := last, CHUNK_SIZE, start, false;
    LinkFacts(tree, h, q);
    while offset == CHUNK_SIZE
      invariant q in tree && tree[q] == node && offset <= CHUNK_SIZE && Alive(xa.live, tree, q, offset)
      invariant Base(q.level, Cat(q.chunk, offset)) == Base(start.level, Cat(start.chunk, CHUNK_SIZE))
      invariant q.level < h
      decreases h - q.level
    {
      LinkFacts(tree, h, q);
      AliveHere(xa.live, tree, q, offset);
      ClimbPlace(q.level, q.chunk);
      var parent := node.parent;
      offset := node.offset + 1;
      node.count := 0;
      node.nrValues := 0;
      ghost var live := xa.live;
      xa.Free(node);
      if node == top {
        TopOnly(tree, h, q);
        AliveLast(live, tree, h);
        return node, offset, true, q;
      }
      AlivePop(live, tree, h, q);
      node := parent;
      q := Pos(q.level + 1, Hi(q.chunk));
      LinkFacts(tree, h, q);
    }
  }

  lemma TopOnly(tree: map<Pos, Node>, h: nat, q: Pos)
    requires LinksIn(tree, h) && h > 0 && Pos(h - 1, 0) in tree && q in tree && tree[q] == tree[Pos(h - 1, 0)]
    ensures q == Pos(h - 1, 0)
  {
    Distinct(tree, h, q);
  }

  /** xas_free_nodes(): every node of the tree is freed once, and only while it is out. */
  method FreeNodes(xa: XArray, top: Node, ghost tree: map<Pos, Node>, ghost h: nat)
    requires LinksIn(tree, h) && InnerSlots(tree) && h > 0 && Pos(h - 1, 0) in tree && tree[Pos(h - 1, 0)] == top
    requires xa.live == tree.Values
    modifies xa`live, tree.Values`slots, tree.Values`count, tree.Values`nrValues
    ensures xa.live == {}
  {
    hide LinksIn, InnerSlots, Alive, Base;
    var offset: nat, node := 0, top;
    ghost var q := Pos(h - 1, 0);
    AliveStart(tree, h);
    while true
      invariant LinksIn(tree, h) && InnerSlots(tree) && q in tree && tree[q] == node && offset < CHUNK_SIZE
      invariant Alive(xa.live, tree, q, offset)
      decreases Base(h, 1) - Base(q.level, Cat(q.chunk, offset)), q.level
    {
      LinkFacts(tree, h, q);
      InnerAt(tree, q, offset);
      PlaceWithin(tree, h, q, offset);
      var entry := node.slots[offset];
      if node.shift != 0 && entry.Child? {
        AliveDown(xa.live, tree, q, offset);
        FirstPlace(q.level, Cat(q.chunk, offset));
        q := Pos(q.level - 1, Cat(q.chunk, offset));
        node := entry.node;
        offset := 0;
      } else {
        AliveSkip(xa.live, tree, h, q, offset);
        NextPlace(q.level, q.chunk, offset);
        Strip(node, offset, tree, h, q);
        offset := offset + 1;
        if offset == CHUNK_SIZE {
          var done: bool;
          node, offset, done, q := Finish(xa, node, top, tree, h, q);
          if done {
            return;
          }
        }
      }
    }
  }

  /** xas_init_marks() on the head, with the free flag dropped again if index 0 is kept busy. */
  method ResetFlags(xa: XArray)
    requires |xa.flags| == MAX_MARKS && (xa.zeroBusy ==> xa.trackFree)
    modifies xa`flags
    ensures FlagVals(xa.flags, 0, Clean(xa.trackFree, xa.zeroBusy))
  {
    for m := 0 to MAX_MARKS
      invariant |xa.flags| == MAX_MARKS
      invariant forall k :: 0 <= k < m ==> xa.flags[k] == (xa.trackFree && k == FREE_MARK)
    {
      xa.flags := xa.flags[m := xa.trackFree && m == FREE_MARK];
    }
    if xa.zeroBusy {
      xa.flags := xa.flags[FREE_MARK := false];
    }
    CleanFlags(xa.flags, xa.trackFree, xa.zeroBusy);
  }

  /** The array without its nodes, before they are freed. */
  method Detach(xa: XArray)
    requires xa.Valid()
    modifies xa`head, xa`flags, xa`height, xa`nodes, xa`contents, xa`tags
    ensures xa.Valid() && xa.nodes == map[] && xa.head == Empty && xa.height == 0
    ensures xa.contents == Nothing(xa.zeroBusy) && xa.tags == Clean(xa.trackFree, xa.zeroBusy)
  {
    hide FlagVals, CoveredBy, Rested, HeadVals, LinksIn, SlotsIn, CountsIn, MarksIn, Clean, Nothing;
    xa.TagCount();
    xa.FlagRule();
    CleanParts(xa.trackFree, xa.zeroBusy);
    NoNodes(Clean(xa.trackFree, xa.zeroBusy), Nothing(xa.zeroBusy));
    xa.head := Empty;
    ResetFlags(xa);
    xa.nodes, xa.height, xa.contents, xa.tags := map[], 0, Nothing(xa.zeroBusy), Clean(xa.trackFree, xa.zeroBusy);
  }

  /** xa_destroy(): nothing is stored any more, and as many nodes have been freed as were allocated. */
  method Destroy(xa: XArray)
    requires Ready(xa)
    modifies xa`head, xa`flags, xa`height, xa`nodes, xa`contents, xa`tags, xa`live, xa.nodes.Values
    ensures Ready(xa) && xa.live == {} && xa.head == Empty && xa.height == 0 && xa.Canonical()
    ensures xa.contents == Nothing(xa.zeroBusy) && xa.tags == Clean(xa.trackFree, xa.zeroBusy)
    ensures xa.contents == (if xa.zeroBusy then map[0 := Zero] else map[]) && |xa.tags| == 3
    ensures forall m, i: nat :: 0 <= m < 3 ==>
      (i in xa.tags[m] <==> xa.trackFree && m == 0 && !(xa.zeroBusy && i == 0))
  {
    hide XArray.Valid, InnerSlots, LinksIn, Clean;
    CleanMeans(xa.trackFree, xa.zeroBusy);
    ghost var tree, h := xa.nodes, xa.height;
    xa.HeadParts();
    xa.TreeParts();
    InnerStart(tree, xa.contents);
    var entry := xa.head;
    NoneAtAll(tree, h);
    Detach(xa);
    if entry.Child? {
      FreeNodes(xa, entry.node, tree, h);
    }
  }

  lemma NoneAtAll(tree: map<Pos, Node>, h: nat)
    requires LinksIn(tree, h)
    ensures h == 0 ==> tree == map[]
  {
    TopLinks(tree, h);
    if h == 0 {
      assert tree.Keys == {};
    }
  }
}
