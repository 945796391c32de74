/**
  Index 0 of arrays that keep it busy (XA_FLAGS_ALLOC1).  While such an array has no head, two kinds of store go
  wrong, and no other: a reservation of index 0 that is implied cannot be made explicit, and a store elsewhere brings
  back a reservation that has been erased.  What an insertion at index 0 answers depends on the shape of the tree.
 */
module XaZero {
  import opened Chunks
  import opened Numbers
  import opened XaNodes
  import opened XaTree
  import opened XArrays
  import opened XaStates
  import opened XaApi
  import opened XaAlloc
  import opened XaRuns
  import opened XaShape

  /** The head is a node with a free slot, and the array flag says that nothing is free. */
  ghost predicate Broken(xa: XArray)
    reads xa`head, xa`flags, if xa.head.Child? then {xa.head.node} else {}
  {
    && xa.head.Child? && |xa.flags| == MAX_MARKS == |xa.head.node.marks|
    && !xa.flags[FREE_MARK] && true in xa.head.node.marks[FREE_MARK]
  }

  /** No contents, no marked indices and no tree make sense of a broken array. */
  lemma NothingFits(xa: XArray, height: nat, nodes: map<Pos, Node>, contents: map<nat, Entry>, t: Tags)
    requires Broken(xa) && HeadVals(xa.head, height, nodes, contents, xa.zeroBusy)
    requires LinksIn(nodes, height) && MarksIn(nodes, t)
    ensures !FlagVals(xa.flags, height, t)
  {
    hide LinksIn, MarksIn, MarkBits, Any;
    HeadFacts(xa.head, height, nodes, contents, xa.zeroBusy);
    var q := Pos(height - 1, 0);
    RootMarks(nodes, t, q);
    AnyBitMeaning(nodes[q].marks, q, t, FREE_MARK);
  }

  lemma BrokenInvalid(xa: XArray)
    requires Broken(xa)
    ensures !xa.Valid()
  {
    if xa.Valid() {
      NothingFits(xa, xa.height, xa.nodes, xa.contents, xa.tags);
    }
  }

  /** What is left of __xa_store() of a zero entry once xas_create() has a node for an array without a head. */
  method Settle(xas: XaState, n: Node)
    requires n.slots == Blank() && n.marks == Unmarked() && n.shift == 0 && xas.index == 0
    requires |xas.xa.flags| == MAX_MARKS && !xas.xa.flags[FREE_MARK] && xas.xa.trackFree
    modifies xas`node, xas`offset, xas.xa`head, n`slots, n`marks, n`count
    ensures Broken(xas.xa)
  {
    if xas.xa.trackFree {
      n.marks := n.marks[FREE_MARK := seq(CHUNK_SIZE, _ => true)];
    }
    xas.xa.head := Child(n);
    xas.offset := GetOffset(xas.index, n);
    xas.node := At(n);
    n.slots := n.slots[xas.offset := Stored(Zero)];
    n.count := n.count + 1;
    n.marks := n.marks[FREE_MARK := n.marks[FREE_MARK][xas.offset := false]];
    assert exists o :: 0 <= o < CHUNK_SIZE && o != xas.offset && n.marks[FREE_MARK][o] by {
      assert n.marks[FREE_MARK][if xas.offset == 0 then 1 else 0];
    }
  }

  /** xas_create() without allow_root on an array without a head, up to its xas_alloc(). */
  method FirstNode(xas: XaState) returns (n: Node?)
    requires xas.xa.Valid() && xas.xa.Implied() && xas.index == 0 && (xas.node == Restart || xas.node == Top)
    requires xas.SpareOk() && xas.NoLeak()
    modifies xas`node, xas`spare, xas.xa`live, xas.xa`failures, xas.xa`nodes, xas.xa`head, xas.xa`flags, xas.xa`height
    modifies if xas.spare != null then {xas.spare} else {}
    ensures xas.xa.Valid() && xas.SpareOk() && xas.spare == null
    ensures xas.xa.Implied() && xas.xa.nodes == old(xas.xa.nodes)
    ensures fresh(xas.xa.live - old(xas.xa.live))
    ensures n == null ==>
      xas.NoLeak() && xas.node == Error(NoMem) && old(xas.spare) == null && xas.xa.failures > old(xas.xa.failures)
    ensures n != null ==>
      && n.slots == Blank() && n.marks == Unmarked() && n.shift == 0 && (fresh(n) || n == old(xas.spare))
      && xas.xa.failures == old(xas.xa.failures)
  {
    hide XArray.Valid, XaState.NoLeak, XaState.SpareOk, Blank, Unmarked, Grown, Up;
    var shift, h := xas.ExpandHead();
    if shift < 0 {
      return null;
    }
    if shift == 0 {
      shift := CHUNK_SHIFT;
    }
    n := xas.AllocTop(shift - CHUNK_SHIFT);
  }

  /** xas_load() of an index 0 whose reservation is implied */
  method LoadImplied(xas: XaState) returns (curr: Slot)
    requires xas.xa.Valid() && xas.xa.Implied() && xas.index == 0 && xas.node == Restart
    modifies xas`node, xas`offset
    ensures curr == Empty && xas.node == Top
  {
    hide XArray.Valid;
    curr := xas.Load();
    if xas.node.At? {
      xas.xa.PathParts(xas.node.n, 0);
    }
    UpStart(0);
  }

  lemma ImpliedFlag(xa: XArray)
    requires xa.Valid() && FreeExact(xa.contents, xa.tags) && xa.Implied()
    ensures |xa.flags| == MAX_MARKS && !xa.flags[FREE_MARK] && xa.trackFree
  {
    hide XArray.Valid;
    FlagTells(xa);
    ModelFacts(xa, 0);
  }

  /** One round of the loop in __xa_store() or, with `loading`, __xa_cmpxchg_raw(). */
  method ReserveRound(xas: XaState, loading: bool) returns (again: bool, stored: bool)
    requires xas.xa.Valid() && xas.xa.Implied() && xas.index == 0 && xas.node == Restart
    requires xas.SpareOk() && xas.NoLeak() && FreeExact(xas.xa.contents, xas.xa.tags)
    modifies xas`node, xas`offset, xas`spare, if xas.spare != null then {xas.spare} else {}
    modifies xas.xa`live, xas.xa`failures, xas.xa`nodes, xas.xa`head, xas.xa`flags, xas.xa`height
    ensures xas.xa.failures >= old(xas.xa.failures) && !(again && stored)
    ensures stored ==> Broken(xas.xa)
    ensures !stored ==>
      && xas.xa.Valid() && xas.xa.Implied() && xas.xa.nodes == old(xas.xa.nodes) && xas.SpareOk() && xas.NoLeak()
      && xas.xa.failures > old(xas.xa.failures) && old(xas.spare) == null
    ensures again ==> xas.node == Restart && xas.spare != null && fresh(xas.spare)
    ensures !again && !stored ==> xas.spare == null
  {
    hide XArray.Valid, XaState.NoLeak, XaState.SpareOk, FreeExact, Blank, Unmarked, Grown, Broken, XArray.Implied;
    if loading {
      var curr := LoadImplied(xas);
    }
    var n := FirstNode(xas);
    if n != null {
      ImpliedFlag(xas.xa);
      Settle(xas, n);
      return false, true;
    }
    again := xas.Nomem();
    stored := false;
  }

  /** __xa_store() of a zero entry at index 0, while its reservation is implied: the array ends up broken.  With
      `loading` this is __xa_cmpxchg_raw(), which looks first and finds nothing. */
  method ReserveImplied(xa: XArray, loading: bool) returns (r: Outcome)
    requires Allocating(xa) && xa.Implied()
    modifies xa, xa.nodes.Values
    ensures xa.failures >= old(xa.failures)
    ensures r.Failed? ==>
      && r.e == NoMem && xa.failures > old(xa.failures)
      && Allocating(xa) && Untouched(xa, old(xa.contents), old(xa.tags))
    ensures r.Old? ==> r.slot == Empty && Broken(xa)
  {
    hide XArray.Valid, XArray.Implied, XaState.NoLeak, XaState.SpareOk, FreeExact, Broken;
    ModelFacts(xa, 0);
    var xas := new XaState(xa, 0);
    xas.ReadyNoLeak();
    while true
      invariant xa.Valid() && xas.SpareOk() && xas.NoLeak() && xas.node == Restart && xas.index == 0
      invariant xa.Implied() && xa.nodes == old(xa.nodes) && Untouched(xa, old(xa.contents), old(xa.tags))
      invariant xa.failures >= old(xa.failures) && (xas.spare != null ==> fresh(xas.spare))
      decreases if xas.spare == null then 1 else 0
    {
      var again, stored := ReserveRound(xas, loading);
      if stored {
        return Old(Empty);
      }
      if !again {
        xas.ReadyNoLeak();
        return Failed(NoMem);
      }
    }
  }

  /** A new root above the head of a broken array: the free marks below its slot 0 can no longer be found from it. */
  method GrowBroken(xa: XArray) returns (root: Node)
    requires Broken(xa)
    modifies xa`flags
    ensures |root.marks| == MAX_MARKS && |root.marks[FREE_MARK]| == CHUNK_SIZE && !root.marks[FREE_MARK][0]
    ensures xa.head == old(xa.head) && true in xa.head.node.marks[FREE_MARK]
  {
    root := new Node();
    xa.SpreadFlags(root);
  }

  /** Index 0 is reserved and marked free at once; all other free marks are right. */
  ghost predicate Doubled(xa: XArray)
    reads xa, xa.nodes.Values
  {
    && Ready(xa) && xa.trackFree && 0 in xa.contents && FreeFrom(xa.contents, xa.tags, 1) && 0 in xa.tags[FREE_MARK]
    && (xa.head == Empty ==> RestedAt(xa.tags, 0, true))
  }

  lemma DoubledNot(xa: XArray)
    requires Doubled(xa)
    ensures !Allocating(xa) && |xa.tags| == MAX_MARKS
  {
  }

  /** An index 0 that has been erased is kept busy again as soon as the array gets a node. */
  ghost method Reimply(xa: XArray)
    requires Allocating(xa) && xa.Bare()
    modifies xa`contents
    ensures Doubled(xa) && xa.contents == map[0 := Zero] && xa.Implied() && old(xa.contents) == map[]
  {
    hide LinksIn, CountsIn, MarksIn, FlagVals;
    xa.HeadParts();
    UpStart(0);
    ModelFacts(xa, 0);
    xa.AboveHead();
    TopLinks(xa.nodes, xa.height);
    xa.contents := xa.contents[0 := Zero];
  }

  /** As long as it has not got one, nothing has happened. */
  ghost method Forget(xa: XArray)
    requires Doubled(xa) && xa.head == Empty
    modifies xa`contents
    ensures Allocating(xa) && xa.contents == map[] && old(xa.contents) == map[0 := Zero]
  {
    hide LinksIn, CountsIn, MarksIn, FlagVals;
    xa.HeadParts();
    UpStart(0);
    ModelFacts(xa, 0);
    xa.AboveHead();
    TopLinks(xa.nodes, xa.height);
    assert xa.contents == map[0 := Zero];
    assert RestedAt(xa.tags, 0, xa.trackFree);
    RestedPut(xa.contents, xa.tags, xa.trackFree, 0, Empty);
    xa.contents := map[];
    assert Rested(xa.contents, xa.tags, xa.trackFree);
  }

  /** A store elsewhere than at index 0 leaves index 0 as it is. */
  lemma DoubledWritten(xa: XArray, contents: map<nat, Entry>, t: Tags, i: nat, x: Slot)
    requires Ready(xa) && xa.trackFree && xa.head != Empty && i > 0 && x.Stored?
    requires 0 in contents && FreeFrom(contents, t, 1) && 0 in t[FREE_MARK]
    requires xa.contents == Update(contents, i, x) && xa.tags == TagsAfter(t, i, x, true)
    ensures Doubled(xa)
  {
    hide XArray.Valid;
  }

  /** An entry that shows shows that there is a head. */
  lemma ShowsHead(xa: XArray, i: nat)
    requires xa.Valid() && xa.Raw(i) != Empty
    ensures xa.head != Empty
  {
    hide XArray.Valid;
    ModelFacts(xa, i);
  }

  /** What a store that does not succeed leaves of an array whose index 0 has been erased. */
  ghost method Recede(xa: XArray)
    requires Doubled(xa)
    modifies xa`contents
    ensures if old(xa.head) == Empty then Allocating(xa) && xa.contents == map[]
            else Doubled(xa) && xa.contents == old(xa.contents)
  {
    hide XArray.Valid, FreeExact, FreeFrom;
    if xa.head == Empty {
      Forget(xa);
    }
  }

  /** __xa_store() elsewhere, while index 0 has been erased: index 0 comes back, reserved and free at the same time. */
  method StoreErased(xa: XArray, i: nat, x: Slot) returns (r: Outcome)
    requires Allocating(xa) && xa.Bare() && 0 < i < WORD && !x.Child? && x != Retry
    modifies xa, xa.nodes.Values
    ensures xa.failures >= old(xa.failures) && (xa.failures == old(xa.failures) ==> r.Old?)
    ensures Ready(xa) && fresh(xa.live - old(xa.live))
    ensures r.Old? ==>
      && Doubled(xa) && old(xa.Raw(0)) == Empty && xa.Raw(0) == Stored(Zero) && xa.head != Empty
      && xa.contents == map[0 := Zero, i := (if x == Empty then Zero else x.entry)]
    ensures r.Failed? ==>
      if xa.head == Empty then Allocating(xa) && Untouched(xa, old(xa.contents), old(xa.tags))
      else Doubled(xa) && Untouched(xa, map[0 := Zero], old(xa.tags))
  {
    hide XArray.Valid, XArray.Canonical, FreeExact, FreeFrom, TagsAfter, RestedAt;
    ModelFacts(xa, 0);
    Reimply(xa);
    ghost var contents, tags := xa.contents, xa.tags;
    DoubledParts(xa);
    r := Store(xa, i, x);
    if r.Old? {
      ShowsHead(xa, i);
      DoubledWritten(xa, contents, tags, i, Effective(x, true));
      ModelFacts(xa, 0);
    } else {
      DoubledStill(xa);
      Recede(xa);
    }
  }

  lemma DoubledParts(xa: XArray)
    requires Doubled(xa)
    ensures Ready(xa) && xa.trackFree && |xa.tags| == MAX_MARKS && 0 in xa.contents
    ensures FreeFrom(xa.contents, xa.tags, 1) && 0 in xa.tags[FREE_MARK]
    ensures (xa.head == Empty ==> RestedAt(xa.tags, 0, true))
  {
  }

  lemma DoubledStill(xa: XArray)
    requires Ready(xa) && xa.trackFree && |xa.tags| == MAX_MARKS && 0 in xa.contents
    requires FreeFrom(xa.contents, xa.tags, 1) && 0 in xa.tags[FREE_MARK]
    requires (xa.head == Empty ==> RestedAt(xa.tags, 0, true))
    ensures Doubled(xa)
  {
  }

  /** A store goes right on exactly the arrays and indices that `Allowed` names, unless it fails. */
  method StoreAnywhere(xa: XArray, i: nat, x: Slot) returns (r: Outcome)
    requires Allocating(xa) && i < WORD && !x.Child?
    modifies xa, xa.nodes.Values
    ensures xa.failures >= old(xa.failures) && (xa.failures == old(xa.failures) && x != Retry ==> r.Old?)
    ensures r.Old? ==>
      (Allocating(xa) <==> old(Allowed(StoreAt(i, x), xa.zeroBusy, xa.head == Empty, 0 !in xa.contents)))
    ensures r.Failed? ==>
      || Allocating(xa)
      || (Doubled(xa) && !old(Allowed(StoreAt(i, x), xa.zeroBusy, xa.head == Empty, 0 !in xa.contents)))
  {
    hide XArray.Valid, XArray.Canonical, TagsAfter, Doubled, Broken;
    ModelFacts(xa, i);
    ReadyTags(xa);
    if xa.zeroBusy && xa.head == Empty && x != Retry {
      FlagTells(xa);
      if !Fits(i, x, xa.flags[FREE_MARK]) {
        if i == 0 {
          r := ReserveImplied(xa, false);
          if r.Old? {
            BrokenInvalid(xa);
          }
        } else {
          r := StoreErased(xa, i, x);
          if r.Old? {
            DoubledNot(xa);
          }
        }
        return;
      }
    }
    r := Store(xa, i, x);
    if r.Old? && xa.trackFree {
      FreeWritten(old(xa.contents), old(xa.tags), i, Effective(x, xa.trackFree));
    }
  }

  /** __xa_cmpxchg_raw() of NULL elsewhere, while index 0 has been erased. */
  method ExchangeErased(xa: XArray, i: nat, x: Slot) returns (r: Outcome)
    requires Allocating(xa) && xa.Bare() && 0 < i < WORD && x.Stored?
    modifies xa, xa.nodes.Values
    ensures xa.failures >= old(xa.failures) && (xa.failures == old(xa.failures) ==> r.Old?)
    ensures if r.Old? then Doubled(xa) else r.e == NoMem && (Allocating(xa) || Doubled(xa))
  {
    hide XArray.Valid, XArray.Canonical, FreeExact, FreeFrom, TagsAfter, RestedAt;
    ModelFacts(xa, i);
    Reimply(xa);
    ghost var contents, tags := xa.contents, xa.tags;
    DoubledParts(xa);
    ModelFacts(xa, i);
    r := CmpxchgRaw(xa, i, Empty, x);
    if r.Old? {
      ExchangedIs(tags, i, x);
      ModelFacts(xa, i);
      DoubledWritten(xa, contents, tags, i, x);
    } else {
      DoubledStill(xa);
    }
  }

  lemma ExchangedIs(t: Tags, i: nat, x: Slot)
    requires |t| == MAX_MARKS && x.Stored?
    ensures TagsExchanged(t, i, Empty, x, true) == TagsAfter(t, i, x, true)
  {
  }

  /** __xa_cmpxchg_raw() goes right on exactly the arrays, indices and entries that `Allowed` names, unless it fails. */
  method ExchangeAnywhere(xa: XArray, i: nat, want: Slot, x: Slot) returns (r: Outcome)
    requires Allocating(xa) && i < WORD && !x.Child?
    modifies xa, xa.nodes.Values
    ensures xa.failures >= old(xa.failures) && (xa.failures == old(xa.failures) && x != Retry ==> r.Old?)
    ensures r.Failed? ==> r.e == if x == Retry then Invalid else NoMem
    ensures r.Old? ==>
      (Allocating(xa) <==> old(Allowed(ExchangeAt(i, want, x), xa.zeroBusy, xa.head == Empty, 0 !in xa.contents)))
    ensures r.Failed? ==>
      || Allocating(xa)
      || (Doubled(xa) && !old(Allowed(ExchangeAt(i, want, x), xa.zeroBusy, xa.head == Empty, 0 !in xa.contents)))
  {
    hide XArray.Valid, XArray.Canonical, TagsExchanged, Doubled, Broken;
    ModelFacts(xa, i);
    ReadyTags(xa);
    if xa.zeroBusy && xa.head == Empty && x != Retry && x != Empty && want == Empty {
      FlagTells(xa);
      if !Fits(i, x, xa.flags[FREE_MARK]) {
        if i == 0 {
          r := ReserveImplied(xa, true);
          if r.Old? {
            BrokenInvalid(xa);
          }
        } else {
          r := ExchangeErased(xa, i, x);
          if r.Old? {
            DoubledNot(xa);
          }
        }
        return;
      }
    }
    r := CmpxchgRaw(xa, i, want, x);
    if r.Old? && xa.trackFree {
      FreeExchanged(old(xa.contents), old(xa.tags), i, r.slot, x);
    }
  }

  /** __xa_insert() goes right on exactly the arrays, indices and entries that `Allowed` names, unless it fails. */
  method InsertAnywhere(xa: XArray, i: nat, x: Slot) returns (r: Status)
    requires Allocating(xa) && i < WORD && !x.Child?
    modifies xa, xa.nodes.Values
    ensures xa.failures >= old(xa.failures) && (r == Refused(NoMem) ==> xa.failures > old(xa.failures))
    ensures r != Refused(NoMem) ==>
      (Allocating(xa) <==> old(Allowed(InsertAt(i, x), xa.zeroBusy, xa.head == Empty, 0 !in xa.contents)))
    ensures r == Refused(NoMem) ==>
      || Allocating(xa)
      || (Doubled(xa) && !old(Allowed(InsertAt(i, x), xa.zeroBusy, xa.head == Empty, 0 !in xa.contents)))
  {
    hide Doubled;
    var y := if x == Empty then Stored(Zero) else x;
    var got := ExchangeAnywhere(xa, i, Empty, y);
    match got
    case Failed(e) => return Refused(e);
    case Old(curr) => return if curr != Empty then Refused(Busy) else Done;
  }

  /** How an allocation is to be seen: what is busy for it, and whether index 0 has come back by then. */
  ghost method Prepare(xa: XArray, min: nat, max: nat) returns (busy: map<nat, Entry>)
    requires (Allocating(xa) || Doubled(xa)) && xa.trackFree
    modifies xa`contents
    ensures Seekable(xa, busy, min, max)
    ensures if Allocating(xa) then busy == xa.contents else Doubled(xa) && busy == xa.contents - {0}
    ensures old(Allocating(xa)) && !old(xa.Bare() && 0 < min <= max) ==>
      Allocating(xa) && xa.contents == old(xa.contents)
    ensures old(Allocating(xa)) && old(xa.Bare() && 0 < min <= max) ==> Doubled(xa) && xa.contents == map[0 := Zero]
    ensures old(Doubled(xa)) && min == 0 ==> 0 !in busy
  {
    hide XArray.Valid, RestedAt;
    if Allocating(xa) {
      if xa.Bare() && 0 < min <= max {
        Reimply(xa);
      }
    } else if xa.head == Empty && min == 0 {
      Forget(xa);
    }
    busy := if Allocating(xa) then xa.contents else xa.contents - {0};
  }

  /** The free marks after an id has been handed out. */
  lemma Handed(xa: XArray, contents: map<nat, Entry>, t: Tags, busy: map<nat, Entry>, min: nat, id: nat, x: Slot)
    requires Ready(xa) && xa.trackFree && xa.head != Empty && x.Stored? && LeastFree(busy, min, id)
    requires |t| == MAX_MARKS && xa.contents == Update(contents, id, x) && xa.tags == TagsAfter(t, id, x, true)
    ensures busy == contents && FreeExact(contents, t) ==> Allocating(xa)
    ensures busy == contents - {0} && 0 in contents && FreeFrom(contents, t, 1) && 0 in t[FREE_MARK] ==>
      if id == 0 then Allocating(xa) else Doubled(xa)
  {
    hide XArray.Valid;
  }

  /** What a decided allocation says of its range. */
  lemma DecidedFacts(busy: map<nat, Entry>, min: nat, max: nat, r: Grant)
    requires Decided(busy, min, max, r)
    ensures r.Granted? ==> LeastFree(busy, min, r.id) && min <= r.id <= max && (min !in busy ==> r.id == min)
    ensures r == Denied(Busy) ==> AllTaken(busy, min, max) && (min <= max ==> min in busy)
    ensures min > max ==> forall contents: map<nat, Entry> :: AllTaken(contents, min, max)
  {
  }

  /** An allocation on an array that has been prepared. */
  method AllocPrepared(xa: XArray, x: Slot, min: nat, max: nat, ghost busy: map<nat, Entry>) returns (r: Grant)
    requires (Allocating(xa) && busy == xa.contents) || (Doubled(xa) && busy == xa.contents - {0})
    requires !x.Child? && min < WORD32 && max < WORD32 && (x != Retry && xa.trackFree ==> Seekable(xa, busy, min, max))
    modifies xa, xa.nodes.Values
    ensures xa.failures >= old(xa.failures) && xa.allocWrapped == old(xa.allocWrapped)
    ensures Ready(xa) && fresh(xa.live - old(xa.live)) && (r == Denied(NoMem) ==> xa.failures > old(xa.failures))
    ensures if old(Allocating(xa)) || r == Granted(0) then Allocating(xa) else Doubled(xa)
    ensures r == Denied(Invalid) <==> x == Retry || !xa.trackFree
    ensures Decided(busy, min, max, r)
    ensures r.Denied? ==> Untouched(xa, old(xa.contents), old(xa.tags)) && (xa.head == Empty ==> old(xa.head) == Empty)
    ensures r.Denied? && r.e != NoMem && old(xa.Canonical()) ==> xa.Canonical()
  {
    hide XArray.Valid, XArray.Canonical, FreeExact, FreeFrom, LeastFree, AllTaken, RestedAt, TagsAfter, Seekable;
    ghost var contents, tags := xa.contents, xa.tags;
    if Doubled(xa) {
      DoubledNot(xa);
    }
    r := AllocFrom(xa, x, min, max, busy);
    if r.Granted? {
      ShowsHead(xa, r.id);
      Handed(xa, contents, tags, busy, min, r.id, if x == Empty then Stored(Zero) else x);
    }
  }

  /** __xa_alloc() goes right on exactly the arrays and ranges that `Allowed` names, unless it fails.  With index 0
      reserved and free at once it hands out index 0. */
  method AllocAnywhere(xa: XArray, x: Slot, min: nat, max: nat) returns (r: Grant)
    requires (Allocating(xa) || Doubled(xa)) && !x.Child? && min < WORD32 && max < WORD32
    modifies xa, xa.nodes.Values
    ensures xa.failures >= old(xa.failures) && xa.allocWrapped == old(xa.allocWrapped)
    ensures (Allocating(xa) || Doubled(xa))
    ensures Ready(xa) && fresh(xa.live - old(xa.live)) && (r == Denied(NoMem) ==> xa.failures > old(xa.failures))
    ensures old(Allocating(xa)) && r != Denied(NoMem) ==>
      (Allocating(xa) <==> old(Allowed(AllocIn(x, min, max), xa.zeroBusy, xa.head == Empty, 0 !in xa.contents)))
    ensures old(Allocating(xa)) && r.Denied? && r.e != NoMem ==>
      && Untouched(xa, old(xa.contents), old(xa.tags)) && (xa.head == Empty ==> old(xa.head) == Empty)
      && (old(xa.Canonical()) ==> xa.Canonical())
    ensures (r == Denied(Invalid) <==> x == Retry || !xa.trackFree) && (r.Granted? ==> min <= r.id <= max)
    ensures old(Allocating(xa)) && r == Denied(Busy) ==> AllTaken(old(xa.contents), min, max)
    ensures old(Doubled(xa)) && min == 0 && x != Retry && r != Denied(NoMem) ==> r == Granted(0) && Allocating(xa)
  {
    hide XArray.Valid, XArray.Canonical, FreeExact, FreeFrom, LeastFree, AllTaken, RestedAt, Seekable;
    ModelFacts(xa, 0);
    if Doubled(xa) {
      DoubledNot(xa);
    }
    ghost var busy := if Allocating(xa) then xa.contents else xa.contents - {0};
    if x != Retry && xa.trackFree {
      busy := Prepare(xa, min, max);
      if Doubled(xa) {
        DoubledNot(xa);
      }
    }
    r := AllocPrepared(xa, x, min, max, busy);
    DecidedFacts(busy, min, max, r);
    if Doubled(xa) {
      DoubledNot(xa);
    }
  }

  /** An array that has lost its head has lost it for good reason, and one that is bare stays so. */
  lemma BareStill(xa: XArray, was: bool, contents: map<nat, Entry>)
    requires xa.Valid() && xa.contents == contents && (xa.head == Empty ==> was)
    requires xa.zeroBusy && was && 0 !in contents ==> xa.Canonical() && contents == map[]
    ensures xa.Bare() <==> xa.zeroBusy && was && 0 !in contents
  {
    hide XArray.Valid, XArray.Canonical;
    if xa.zeroBusy && was && 0 !in contents {
      NothingShape(xa);
    }
  }

  /** An array without a head has no node that could be empty. */
  lemma BareShape(xa: XArray)
    requires xa.Valid() && xa.head == Empty
    ensures xa.Canonical() && (xa.Bare() ==> xa.contents == map[])
  {
    hide XArray.Valid;
    xa.HeadParts();
    xa.NoNodesLeft();
    ModelFacts(xa, 0);
  }

  /** Which of its two attempts decides whether a cyclic allocation goes right. */
  lemma CycleAllowed(x: Slot, min: nat, max: nat, next: nat, zeroBusy: bool, bare: bool, erased: bool)
    ensures var from := Max(min, next);
      && Allowed(CycleIn(x, min, max, next), zeroBusy, bare, erased)
         == Allowed(AllocIn(x, if from > max then min else from, max), zeroBusy, bare, erased)
      && (from > max ==> Allowed(AllocIn(x, from, max), zeroBusy, bare, erased))
      && (!(zeroBusy && bare && erased) || x == Retry ==> Allowed(CycleIn(x, min, max, next), zeroBusy, bare, erased))
      && (!(zeroBusy && bare && erased) || x == Retry ==> Allowed(AllocIn(x, min, max), zeroBusy, bare, erased))
  {
  }

  /** XA_FLAGS_ALLOC_WRAPPED has no part in any of this. */
  method SetWrapped(xa: XArray, wrapped: bool)
    modifies xa`allocWrapped
    ensures xa.allocWrapped == wrapped
    ensures (Allocating(xa) <==> old(Allocating(xa))) && (Doubled(xa) <==> old(Doubled(xa)))
  {
    hide XArray.Valid;
    xa.allocWrapped := wrapped;
  }

  /** __xa_alloc_cyclic() goes right on exactly the arrays and ranges that `Allowed` names, unless memory runs short. */
  method CyclicAnywhere(xa: XArray, x: Slot, min: nat, max: nat, next: nat) returns (r: Turn, next': nat)
    requires Allocating(xa) && !x.Child? && min < WORD32 && max < WORD32 && next < WORD32
    modifies xa, xa.nodes.Values
    ensures xa.failures >= old(xa.failures) && (Allocating(xa) || Doubled(xa))
    ensures xa.failures == old(xa.failures) ==>
      && r != Failure(NoMem)
      && (Allocating(xa) <==>
          old(Allowed(CycleIn(x, min, max, next), xa.zeroBusy, xa.head == Empty, 0 !in xa.contents)))
  {
    hide XArray.Valid, XArray.Canonical, FreeExact, Doubled;
    CycleAllowed(x, min, max, next, xa.zeroBusy, xa.head == Empty, 0 !in xa.contents);
    ModelFacts(xa, 0);
    if xa.head == Empty {
      BareShape(xa);
    }
    next' := next;
    var from := Max(min, next);
    var got := AllocAnywhere(xa, x, from, max);
    var ret := 0;
    if xa.allocWrapped && got.Granted? {
      SetWrapped(xa, false);
      ret := 1;
    }
    if got.Denied? && from > min {
      if got.e != NoMem {
        BareStill(xa, old(xa.head) == Empty, old(xa.contents));
        CycleAllowed(x, min, max, next, xa.zeroBusy, xa.head == Empty, 0 !in xa.contents);
      }
      got := AllocAnywhere(xa, x, min, max);
      if got.Granted? {
        ret := 1;
      }
    }
    match got
    case Denied(e) =>
      r := Failure(e);
    case Granted(id) =>
      next' := (id + 1) % WORD32;
      if next' == 0 {
        SetWrapped(xa, true);
      }
      r := Issued(id, ret == 1);
  }

  lemma CleanFree()
    ensures FreeExact(Nothing(true), Clean(true, true))
  {
  }

  /** From a new array: storing NULL at the reserved index 0 breaks it. */
  method ReserveNew() returns (xa: XArray, r: Outcome)
    ensures xa.failures == 0 ==> r == Old(Empty) && Broken(xa) && !xa.Valid()
  {
    hide XArray.Valid, Broken;
    CleanFree();
    xa := new XArray(true, true);
    r := ReserveImplied(xa, false);
    if r.Old? {
      BrokenInvalid(xa);
    }
  }

  lemma NothingShape(xa: XArray)
    requires xa.Valid() && xa.Canonical() && xa.contents == map[]
    ensures xa.head == Empty
  {
    hide XArray.Valid, XArray.Canonical;
    xa.HeadParts();
    if xa.height > 0 {
      HeightNeeded(xa);
    }
  }

  /** A new array whose index 0 has been used and erased. */
  method UsedAndErased(p: Entry) returns (xa: XArray, r: Outcome)
    requires p != Zero
    ensures fresh(xa) && fresh(xa.live) && Ready(xa) && xa.trackFree && (xa.failures == 0 ==> r.Old?)
    ensures r.Old? ==> Allocating(xa) && xa.Bare()
  {
    hide XArray.Valid, XArray.Canonical, TagsAfter;
    CleanFree();
    xa := new XArray(true, true);
    r := Store(xa, 0, Stored(p));
    if r.Old? {
      FreeWritten(Nothing(true), Clean(true, true), 0, Stored(p));
      ghost var contents, tags := xa.contents, xa.tags;
      ModelFacts(xa, 0);
      r := Erase(xa, 0);
      FreeWritten(contents, tags, 0, Empty);
      NothingShape(xa);
    }
  }

  /** From a new array: once index 0 has been used and erased, a store elsewhere reserves it again without taking its
      free mark, and the next allocation hands it out. */
  method EraseNew(p: Entry, x: Entry, y: Entry) returns (xa: XArray, r: Outcome, g: Grant, ghost between: Model)
    requires p != Zero && x != Zero && y != Zero
    ensures xa.failures == 0 ==>
      && between.contents == map[0 := Zero, 1 := x] && |between.tags| == MAX_MARKS && 0 in between.tags[FREE_MARK]
      && g == Granted(0)
  {
    hide XArray.Valid, XArray.Canonical, Allocating;
    xa, r := UsedAndErased(p);
    g, between := Denied(NoMem), ModelOf(xa);
    if r.Old? {
      r := StoreErased(xa, 1, Stored(x));
      between := ModelOf(xa);
      if r.Old? {
        DoubledParts(xa);
        g := AllocAnywhere(xa, Stored(y), 0, 1);
      }
    }
  }

  /** Index 0 of a new array carries no free mark, so storing there takes none away. */
  lemma CleanTaken(x: Entry)
    ensures |Clean(true, true)| == MAX_MARKS && TagsAfter(Clean(true, true), 0, Stored(x), true) == Clean(true, true)
  {
    var t := Clean(true, true);
    assert t[FREE_MARK] - iset{0} == t[FREE_MARK];
  }

  /** A new array whose index 0 has been used and reserved again: as before, but for the head. */
  method ReserveAgain(p: Entry) returns (xa: XArray, r: Outcome)
    requires p != Zero
    ensures Ready(xa) && xa.zeroBusy && fresh(xa) && fresh(xa.live) && (xa.failures == 0 ==> r.Old?)
    ensures r.Old? ==>
      xa.contents == Nothing(true) && xa.tags == Clean(true, true) && xa.Raw(0) == Stored(Zero) && xa.head != Empty
  {
    hide XArray.Valid, XArray.Canonical, Clean, TagsAfter;
    CleanTaken(p);
    CleanTaken(Zero);
    xa := new XArray(true, true);
    r := Store(xa, 0, Stored(p));
    if r.Old? {
      ModelFacts(xa, 0);
      r := Store(xa, 0, Empty);
      ModelFacts(xa, 0);
    }
  }

  /** Two arrays with the same contents and marks that answer an insertion at index 0 differently. */
  method InsertByShape(p: Entry, q: Entry)
      returns (a: XArray, b: XArray, r: Outcome, ra: Status, rb: Status, ghost sa: Model, ghost sb: Model)
    requires p != Zero && q != Zero
    ensures a.failures == b.failures == 0 ==>
      sa.contents == sb.contents && sa.tags == sb.tags && ra == Done && rb == Refused(Busy)
  {
    hide XArray.Valid, XArray.Canonical, Clean, Nothing, TagsAfter;
    a := new XArray(true, true);
    sa := ModelOf(a);
    ra := InsertEntry(a, 0, Stored(q));
    b, r := ReserveAgain(p);
    sb := ModelOf(b);
    ModelFacts(b, 0);
    rb := InsertEntry(b, 0, Stored(q));
  }

  /** Reserving index 0 of a new array makes a node, although nothing else is stored. */
  method ReserveFirst() returns (xa: XArray, r: Status)
    ensures xa.failures == 0 ==>
      r == Done && xa.Valid() && xa.contents == map[0 := Zero] && xa.head.Child? && !xa.Canonical()
  {
    hide XArray.Valid, XArray.Canonical;
    xa := new XArray(false, false);
    r := InsertEntry(xa, 0, Empty);
    if r == Done {
      HeadExact(xa);
    }
  }

  /** Over an entry in the head a reservation makes no node: it stays in the head. */
  method ReserveUsed(p: Entry) returns (xa: XArray, r: Outcome)
    requires p != Zero
    ensures xa.failures == 0 ==>
      r == Old(Stored(p)) && xa.Valid() && xa.contents == map[0 := Zero] && xa.head == Stored(Zero) && xa.Canonical()
  {
    hide XArray.Valid, XArray.Canonical;
    xa := new XArray(true, false);
    r := Store(xa, 0, Stored(p));
    if r.Old? {
      HeadExact(xa);
      r := Store(xa, 0, Empty);
      HeadExact(xa);
    }
  }

  /** A store for which memory runs short may leave nodes without entries: an empty array whose head is a node. */
  method StoreShort(i: nat, x: Slot) returns (xa: XArray, r: Outcome)
    requires i < WORD && !x.Child?
    ensures r.Failed? && xa.head != Empty ==>
      xa.Valid() && xa.contents == map[] && xa.head.Child? && !xa.Canonical() && xa.failures > 0
  {
    hide XArray.Valid, XArray.Canonical;
    xa := new XArray(false, false);
    r := Store(xa, i, x);
    if r.Failed? {
      xa.HeadParts();
      HeadExact(xa);
    }
  }
}
