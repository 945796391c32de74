/**
 The id allocator: an array that tracks its free indices with a mark hands out the smallest free one in a range.
 */
module XaAlloc {
  import opened Chunks
  import opened Numbers
  import opened XaNodes
  import opened XaTree
  import opened XArrays
  import opened XaStates
  import opened XaFind
  import opened XaFindMarked
  import opened XaApi

  /** One more than the largest u32. */
  const WORD32: nat := 0x1_0000_0000

  /** The free mark is on exactly the indices that hold nothing. */
  ghost predicate FreeExact(contents: map<nat, Entry>, t: Tags)
  {
    |t| == MAX_MARKS && forall i: nat :: i in t[FREE_MARK] <==> i !in contents
  }

  /** The same from index `min` on, which is all that an allocation from there looks at. */
  ghost predicate FreeFrom(contents: map<nat, Entry>, t: Tags, min: nat)
  {
    |t| == MAX_MARKS && forall i :: min <= i ==> (i in t[FREE_MARK] <==> i !in contents)
  }

  /** An array set up with XA_FLAGS_ALLOC or XA_FLAGS_ALLOC1, between calls. */
  ghost predicate Allocating(xa: XArray)
    reads xa, xa.nodes.Values
  {
    Ready(xa) && (xa.trackFree ==> FreeExact(xa.contents, xa.tags))
  }

  lemma FreeWritten(contents: map<nat, Entry>, t: Tags, i: nat, x: Slot)
    requires FreeExact(contents, t) && (x == Empty || x.Stored?)
    ensures FreeExact(Update(contents, i, x), TagsAfter(t, i, x, true))
  {
  }

  lemma FreeExchanged(contents: map<nat, Entry>, t: Tags, i: nat, curr: Slot, x: Slot)
    requires FreeExact(contents, t) && (x == Empty || x.Stored?) && (curr != Empty ==> i in contents)
    ensures FreeExact(Update(contents, i, x), TagsExchanged(t, i, curr, x, true))
  {
  }

  /** Everything from `min` up to, but not including, `id` is taken, and `id` is free. */
  ghost predicate LeastFree(contents: map<nat, Entry>, min: nat, id: nat)
  {
    min <= id && id !in contents && forall i :: min <= i < id ==> i in contents
  }

  ghost predicate AllTaken(contents: map<nat, Entry>, min: nat, max: nat)
  {
    forall i :: min <= i <= max ==> i in contents
  }

  lemma LeastUnique(contents: map<nat, Entry>, min: nat, a: nat, b: nat)
    requires LeastFree(contents, min, a) && LeastFree(contents, min, b)
    ensures a == b
  {
  }

  /** A range from which an id can be given out without bringing back a reservation of index 0 that has been erased. */
  ghost predicate Startable(xa: XArray, min: nat, max: nat)
    reads xa`head, xa`contents
  {
    xa.Bare() ==> min == 0 || min > max
  }

  /** What the search for an id relies on: from `min` on the free marks are on what is not `busy`, and index 0 does not
      get in the way of an array that is `bare` of a head. */
  ghost predicate Seeking(contents: map<nat, Entry>, t: Tags, zeroBusy: bool, bare: bool, busy: map<nat, Entry>,
                          min: nat, max: nat)
  {
    && FreeFrom(busy, t, min)
    && (bare && zeroBusy && 0 !in contents ==> min == 0 || min > max)
    && (bare && min == 0 && 0 in contents ==> 0 in busy)
  }

  ghost predicate Seekable(xa: XArray, busy: map<nat, Entry>, min: nat, max: nat)
    reads xa`head, xa`contents, xa`tags
  {
    xa.trackFree && Seeking(xa.contents, xa.tags, xa.zeroBusy, xa.head == Empty, busy, min, max)
  }

  /** A head that has not gone does not get in the way. */
  lemma SeekingStill(contents: map<nat, Entry>, t: Tags, zeroBusy: bool, was: bool, bare: bool, busy: map<nat, Entry>,
                     min: nat, max: nat)
    requires Seeking(contents, t, zeroBusy, was, busy, min, max) && (bare ==> was)
    ensures Seeking(contents, t, zeroBusy, bare, busy, min, max)
  {
  }

  /** The free mark leads to the smallest free index. */
  lemma HuntedFree(xas: XaState, busy: map<nat, Entry>, min: nat, max: nat, entry: Slot)
    requires xas.xa.Valid() && Seekable(xas.xa, busy, min, max)
    requires Hunted(xas, min, max, FREE_MARK, entry) && max < WORD
    ensures xas.node == Restart ==> AllTaken(busy, min, max) && xas.index < WORD
    ensures xas.node != Restart ==>
      && LeastFree(busy, min, xas.index) && xas.index <= max && xas.Cursor() && !xas.node.Error?
      && xas.xa.ZeroSafe(xas.index, true)
  {
    hide XArray.Valid;
    if xas.node != Restart {
      if xas.index in xas.xa.contents {
        xas.xa.InWord(xas.index);
        xas.xa.HeadParts();
        UpStart(xas.index);
      } else {
        xas.xa.RestMark(xas.index, FREE_MARK);
        if 0 !in xas.xa.contents {
          xas.xa.RestMark(0, FREE_MARK);
        }
      }
    }
  }

  /** The search of one round of __xa_alloc(). */
  method Pick(xas: XaState, min: nat, max: nat, ghost busy: map<nat, Entry>) returns (id: nat)
    requires xas.xa.Valid() && Seekable(xas.xa, busy, min, max)
    requires xas.node == Restart && min < WORD && max < WORD
    modifies xas`index, xas`offset, xas`node
    ensures xas.Cursor() && (xas.node.Error? ==> xas.node == Error(Busy) && AllTaken(busy, min, max))
    ensures !xas.node.Error? ==>
      && id == xas.index && LeastFree(busy, min, id) && id <= max && xas.xa.ZeroSafe(id, true)
  {
    hide XArray.Valid, Seekable;
    id := 0;
    xas.index := min;
    var entry := FindMarked(xas, max, FREE_MARK);
    HuntedFree(xas, busy, min, max, entry);
    if xas.node == Restart {
      xas.node := Error(Busy);
    } else {
      id := xas.index;
    }
  }

  /** The search, the store and the clearing of the mark in one round of __xa_alloc(). */
  method Attempt(xas: XaState, x: Slot, min: nat, max: nat, ghost busy: map<nat, Entry>) returns (id: nat)
    requires xas.xa.Valid() && Seekable(xas.xa, busy, min, max) && x.Stored?
    requires xas.node == Restart && min < WORD && max < WORD && xas.SpareOk() && xas.NoLeak()
    modifies xas`index, xas`node, xas`offset, xas`spare, if xas.spare != null then {xas.spare} else {}
    modifies xas.xa`head, xas.xa`flags, xas.xa`nodes, xas.xa`height, xas.xa`live, xas.xa`failures, xas.xa`contents
    modifies xas.xa`tags, xas.xa.nodes.Values
    ensures xas.xa.Valid() && xas.SpareOk() && xas.NoLeak() && fresh(xas.xa.live - old(xas.xa.live))
    ensures Grown(old(xas.xa.nodes), xas.xa.nodes, xas.index)
    ensures if xas.xa.nodes == old(xas.xa.nodes) then xas.spare == old(xas.spare) else xas.spare == null
    ensures xas.xa.failures >= old(xas.xa.failures)
    ensures xas.xa.failures == old(xas.xa.failures) <==> xas.node != Error(NoMem)
    ensures xas.node.Error? ==>
      Untouched(xas.xa, old(xas.xa.contents), old(xas.xa.tags)) && (xas.xa.head == Empty ==> old(xas.xa.head) == Empty)
    ensures xas.node.Error? ==>
      if xas.node == Error(Busy) then AllTaken(busy, min, max)
      else xas.node == Error(NoMem) && LeastFree(busy, min, id) && id <= max && id == xas.index && xas.spare == null
    ensures !xas.node.Error? ==>
      && LeastFree(busy, min, id) && id <= max && xas.xa.Raw(id) == x
      && |old(xas.xa.tags)| == MAX_MARKS && Written(xas.xa, old(xas.xa.contents), old(xas.xa.tags), id, x)
    ensures xas.node == Error(Busy) && old(xas.xa.Canonical()) ==> xas.xa.Canonical()
    ensures x != Stored(Zero) && xas.node != Error(Busy) && old(xas.xa.Canonical() || xas.xa.Halfway(id)) ==>
      if xas.node.Error? then xas.xa.Halfway(id) else xas.xa.Canonical()
  {
    hide XArray.Valid, XArray.Canonical, XArray.Halfway, Grown, XaState.SpareOk, XaState.NoLeak, Seekable, LeastFree;
    hide AllTaken;
    xas.LiveNode();
    id := Pick(xas, min, max, busy);
    if xas.xa.Canonical() {
      xas.xa.CanonicalHalfway(id);
    }
    var first := xas.StoreAndClear(x);
  }

  lemma SeekParts(xa: XArray, busy: map<nat, Entry>, min: nat, max: nat)
    requires Seekable(xa, busy, min, max)
    ensures xa.trackFree && Seeking(xa.contents, xa.tags, xa.zeroBusy, xa.head == Empty, busy, min, max)
  {
  }

  lemma SeekWhole(xa: XArray, busy: map<nat, Entry>, min: nat, max: nat)
    requires xa.trackFree && Seeking(xa.contents, xa.tags, xa.zeroBusy, xa.head == Empty, busy, min, max)
    ensures Seekable(xa, busy, min, max)
  {
  }

  /** One round of the loop in __xa_alloc(). */
  method AllocRound(xas: XaState, x: Slot, min: nat, max: nat, ghost busy: map<nat, Entry>)
      returns (id: nat, again: bool)
    requires xas.xa.Valid() && Seekable(xas.xa, busy, min, max) && x.Stored?
    requires xas.node == Restart && min < WORD && max < WORD && xas.SpareOk() && xas.NoLeak()
    modifies xas`index, xas`node, xas`offset, xas`spare, if xas.spare != null then {xas.spare} else {}
    modifies xas.xa`head, xas.xa`flags, xas.xa`nodes, xas.xa`height, xas.xa`live, xas.xa`failures, xas.xa`contents
    modifies xas.xa`tags, xas.xa.nodes.Values
    ensures xas.xa.Valid() && xas.SpareOk() && xas.NoLeak() && fresh(xas.xa.live - old(xas.xa.live))
    ensures xas.xa.failures >= old(xas.xa.failures)
    ensures xas.xa.failures == old(xas.xa.failures) <==> !again && xas.node != Error(NoMem)
    ensures again ==>
      && xas.node == Restart && xas.spare != null && fresh(xas.spare)
      && Untouched(xas.xa, old(xas.xa.contents), old(xas.xa.tags))
      && (xas.xa.head == Empty ==> old(xas.xa.head) == Empty)
      && Seekable(xas.xa, busy, min, max) && LeastFree(busy, min, id) && id <= max
      && (if xas.xa.nodes == old(xas.xa.nodes) then old(xas.spare) == null
          else Missing(xas.xa.nodes, id) < Missing(old(xas.xa.nodes), id))
    ensures !again ==> xas.spare == null
    ensures !again && xas.node.Error? ==>
      && Untouched(xas.xa, old(xas.xa.contents), old(xas.xa.tags))
      && (xas.xa.head == Empty ==> old(xas.xa.head) == Empty)
      && xas.node.e != Invalid
      && (xas.node.e == Busy ==> AllTaken(busy, min, max))
    ensures !again && xas.node == Error(NoMem) ==> LeastFree(busy, min, id)
    ensures !again && !xas.node.Error? ==>
      && LeastFree(busy, min, id) && id <= max && xas.xa.Raw(id) == x
      && |old(xas.xa.tags)| == MAX_MARKS && Written(xas.xa, old(xas.xa.contents), old(xas.xa.tags), id, x)
    ensures xas.node == Error(Busy) && old(xas.xa.Canonical()) ==> xas.xa.Canonical()
    ensures x != Stored(Zero) && xas.node != Error(Busy) && old(xas.xa.Canonical() || xas.xa.Halfway(id)) ==>
      if again || xas.node.Error? then xas.xa.Halfway(id) else xas.xa.Canonical()
  {
    hide XArray.Valid, XArray.Canonical, XArray.Halfway, Missing, Grown, XaState.SpareOk, XaState.NoLeak, Seekable;
    hide Seeking, LeastFree, AllTaken;
    ghost var before, was := xas.xa.nodes, xas.xa.head == Empty;
    SeekParts(xas.xa, busy, min, max);
    xas.LiveNode();
    id := Attempt(xas, x, min, max, busy);
    MissingShrinks(before, xas.xa.nodes, xas.index);
    again := xas.Nomem();
    if again {
      SeekingStill(xas.xa.contents, xas.xa.tags, xas.xa.zeroBusy, was, xas.xa.head == Empty, busy, min, max);
      SeekWhole(xas.xa, busy, min, max);
    }
  }

  /** The loop of __xa_alloc(). */
  method AllocLoop(xas: XaState, x: Slot, min: nat, max: nat, ghost busy: map<nat, Entry>) returns (id: nat)
    requires Ready(xas.xa) && Seekable(xas.xa, busy, min, max) && x.Stored?
    requires xas.node == Restart && xas.spare == null && min < WORD && max < WORD
    modifies xas, xas.xa, xas.xa.nodes.Values
    ensures Ready(xas.xa) && |old(xas.xa.tags)| == MAX_MARKS && fresh(xas.xa.live - old(xas.xa.live))
    ensures xas.node.Error? ==>
      && Untouched(xas.xa, old(xas.xa.contents), old(xas.xa.tags))
      && (xas.xa.head == Empty ==> old(xas.xa.head) == Empty)
      && xas.node.e != Invalid
      && (xas.node.e == Busy ==> AllTaken(busy, min, max))
    ensures !xas.node.Error? ==>
      && LeastFree(busy, min, id) && id <= max && xas.xa.Raw(id) == x
      && Written(xas.xa, old(xas.xa.contents), old(xas.xa.tags), id, x)
    ensures xas.xa.allocWrapped == old(xas.xa.allocWrapped) && xas.xa.failures >= old(xas.xa.failures)
    ensures xas.xa.failures == old(xas.xa.failures) ==> xas.node != Error(NoMem)
    ensures xas.node != Error(NoMem) && (xas.node.Error? || x != Stored(Zero)) && old(xas.xa.Canonical()) ==>
      xas.xa.Canonical()
  {
    hide XArray.Valid, XaState.NoLeak, XaState.SpareOk, Missing, XArray.Canonical, XArray.Halfway, Seekable, LeastFree;
    hide AllTaken;
    ReadyTags(xas.xa);
    xas.ReadyNoLeak();
    ghost var contents, tags := xas.xa.contents, xas.xa.tags;
    ghost var first, goal: nat := true, 0;
    while true
      invariant xas.xa.Valid() && xas.SpareOk() && xas.NoLeak() && fresh(xas.xa.live - old(xas.xa.live))
      invariant xas.node == Restart && Untouched(xas.xa, contents, tags) && (xas.spare != null ==> fresh(xas.spare))
      invariant xas.xa.failures >= old(xas.xa.failures) && Seekable(xas.xa, busy, min, max)
      invariant !first ==> LeastFree(busy, min, goal) && goal <= max
      invariant first && old(xas.xa.Canonical()) ==> xas.xa.Canonical()
      invariant !first && x != Stored(Zero) && old(xas.xa.Canonical()) ==> xas.xa.Halfway(goal)
      invariant xas.xa.head == Empty ==> old(xas.xa.head) == Empty
      invariant xas.xa.allocWrapped == old(xas.xa.allocWrapped)
      decreases first, Missing(xas.xa.nodes, goal), if xas.spare == null then 1 else 0
    {
      xas.LiveNode();
      var again: bool;
      id, again := AllocRound(xas, x, min, max, busy);
      if !first {
        TakenFrom(busy, min, max, goal);
        if xas.node != Error(Busy) {
          LeastUnique(busy, min, id, goal);
        }
      }
      if !again {
        xas.ReadyNoLeak();
        return;
      }
      first, goal := false, id;
    }
  }

  /** What __xa_alloc() returns, with the id it stores through its pointer. */
  datatype Grant = Granted(id: nat) | Denied(e: Errno)

  /** The outcome of an allocation in [min, max] when no node allocation fails for good. */
  ghost predicate Decided(contents: map<nat, Entry>, min: nat, max: nat, r: Grant)
  {
    match r
    case Granted(id) => LeastFree(contents, min, id) && id <= max
    case Denied(e) => e == Busy ==> AllTaken(contents, min, max)
  }

  /** __xa_alloc(), on an array whose free marks are on what is not `busy`. */
  method AllocFrom(xa: XArray, entry: Slot, min: nat, max: nat, ghost busy: map<nat, Entry>) returns (r: Grant)
    requires Ready(xa) && !entry.Child? && min < WORD32 && max < WORD32
    requires entry != Retry && xa.trackFree ==> Seekable(xa, busy, min, max)
    modifies xa, xa.nodes.Values
    ensures Ready(xa) && |old(xa.tags)| == MAX_MARKS && fresh(xa.live - old(xa.live))
    ensures r == Denied(Invalid) <==> entry == Retry || !xa.trackFree
    ensures Decided(busy, min, max, r)
    ensures r.Denied? ==>
      Untouched(xa, old(xa.contents), old(xa.tags)) && (xa.head == Empty ==> old(xa.head) == Empty)
    ensures r.Granted? ==>
      && Written(xa, old(xa.contents), old(xa.tags), r.id, if entry == Empty then Stored(Zero) else entry)
      && xa.Raw(r.id) == if entry == Empty then Stored(Zero) else entry
    ensures xa.allocWrapped == old(xa.allocWrapped) && xa.failures >= old(xa.failures)
    ensures xa.failures == old(xa.failures) ==> r != Denied(NoMem)
    ensures r != Denied(NoMem) && (r.Denied? || (entry != Empty && entry != Stored(Zero))) && old(xa.Canonical()) ==>
      xa.Canonical()
  {
    hide XArray.Valid, XArray.Canonical, Seekable, LeastFree, AllTaken;
    ReadyTags(xa);
    if entry == Retry {
      return Denied(Invalid);
    }
    if !xa.trackFree {
      return Denied(Invalid);
    }
    var x := entry;
    if x == Empty {
      x := Stored(Zero);
    }
    var xas := new XaState(xa, 0);
    var id := AllocLoop(xas, x, min, max, busy);
    if xas.node.Error? {
      return Denied(xas.node.e);
    }
    return Granted(id);
  }

  /** What a decided allocation says, in full. */
  lemma DecidedMeans(contents: map<nat, Entry>, min: nat, max: nat, r: Grant)
    requires Decided(contents, min, max, r)
    ensures r.Granted? ==> min <= r.id <= max && r.id !in contents && forall i :: min <= i < r.id ==> i in contents
    ensures r == Denied(Busy) ==> forall i :: min <= i <= max ==> i in contents
  {
  }

  /** __xa_alloc(): the smallest id of the range that is not in use now holds the entry (NULL reserves it), and is not
      free any more; or the range is all in use.  Nothing else changes. */
  method Alloc(xa: XArray, entry: Slot, min: nat, max: nat) returns (r: Grant)
    requires Allocating(xa) && !entry.Child? && min < WORD32 && max < WORD32
    requires entry != Retry ==> Startable(xa, min, max)
    modifies xa, xa.nodes.Values
    ensures Allocating(xa) && |old(xa.tags)| == MAX_MARKS && fresh(xa.live - old(xa.live))
    ensures r == Denied(Invalid) <==> entry == Retry || !xa.trackFree
    ensures Decided(old(xa.contents), min, max, r)
    ensures r.Granted? ==>
      && min <= r.id <= max && r.id !in old(xa.contents) && (forall i :: min <= i < r.id ==> i in old(xa.contents))
      && xa.contents == old(xa.contents)[r.id := if entry.Stored? then entry.entry else Zero] && |xa.tags| == 3
      && forall m, j: nat :: 0 <= m < 3 ==>
           (j in xa.tags[m] <==> j in old(xa.tags)[m] && !(m == 0 && j == r.id))
    ensures r == Denied(Busy) ==> forall i :: min <= i <= max ==> i in old(xa.contents)
    ensures r.Denied? ==>
      Untouched(xa, old(xa.contents), old(xa.tags)) && (xa.head == Empty ==> old(xa.head) == Empty)
    ensures r.Granted? ==>
      Written(xa, old(xa.contents), old(xa.tags), r.id, if entry == Empty then Stored(Zero) else entry)
    ensures xa.allocWrapped == old(xa.allocWrapped) && xa.failures >= old(xa.failures)
    ensures xa.failures == old(xa.failures) ==> r != Denied(NoMem)
    ensures r != Denied(NoMem) && (r.Denied? || (entry != Empty && entry != Stored(Zero))) && old(xa.Canonical()) ==>
      xa.Canonical()
  {
    hide XArray.Valid, XArray.Canonical, FreeExact, LeastFree, AllTaken, TagsAfter, Decided;
    r := AllocFree(xa, entry, min, max);
    DecidedMeans(old(xa.contents), min, max, r);
    if r.Granted? {
      TagsAfterMeans(old(xa.tags), r.id, if entry == Empty then Stored(Zero) else entry, true);
    }
  }

  /** The same on the terms of the free marks. */
  method AllocFree(xa: XArray, entry: Slot, min: nat, max: nat) returns (r: Grant)
    requires Allocating(xa) && !entry.Child? && min < WORD32 && max < WORD32
    requires entry != Retry ==> Startable(xa, min, max)
    modifies xa, xa.nodes.Values
    ensures Allocating(xa) && |old(xa.tags)| == MAX_MARKS && fresh(xa.live - old(xa.live))
    ensures r == Denied(Invalid) <==> entry == Retry || !xa.trackFree
    ensures Decided(old(xa.contents), min, max, r)
    ensures r.Denied? ==>
      Untouched(xa, old(xa.contents), old(xa.tags)) && (xa.head == Empty ==> old(xa.head) == Empty)
    ensures r.Granted? ==>
      Written(xa, old(xa.contents), old(xa.tags), r.id, if entry == Empty then Stored(Zero) else entry)
    ensures xa.allocWrapped == old(xa.allocWrapped) && xa.failures >= old(xa.failures)
    ensures xa.failures == old(xa.failures) ==> r != Denied(NoMem)
    ensures r != Denied(NoMem) && (r.Denied? || (entry != Empty && entry != Stored(Zero))) && old(xa.Canonical()) ==>
      xa.Canonical()
  {
    hide XArray.Valid, XArray.Canonical, LeastFree, AllTaken, TagsAfter;
    r := AllocFrom(xa, entry, min, max, xa.contents);
    if r.Granted? {
      FreeWritten(old(xa.contents), old(xa.tags), r.id, if entry == Empty then Stored(Zero) else entry);
    }
  }

  /** What __xa_alloc_cyclic() returns: 0 or 1 with an id, 1 when the ids have wrapped; or an error. */
  datatype Turn = Issued(id: nat, wrapped: bool) | Failure(e: Errno)

  /** What the cyclic form hands out: the first free id from where the last search ended, or, when there is none or
      memory has run short, the first from the bottom.  `was` and `now` are the flag that says the ids have wrapped. */
  ghost predicate Cyclic(contents: map<nat, Entry>, min: nat, max: nat, from: nat, failed: bool, was: bool, now: bool,
                         id: nat, wrapped: bool)
  {
    && id <= max
    && (|| (LeastFree(contents, from, id) && wrapped == was && now == (id + 1 == WORD32))
        || (from > min && LeastFree(contents, min, id) && (failed || AllTaken(contents, from, max))
            && wrapped && now == (was || id + 1 == WORD32)))
  }

  lemma TakenFrom(contents: map<nat, Entry>, min: nat, max: nat, id: nat)
    requires LeastFree(contents, min, id) && id <= max
    ensures !AllTaken(contents, min, max)
  {
  }

  /** What the cyclic form hands out, in full. */
  lemma CyclicMeans(contents: map<nat, Entry>, min: nat, max: nat, from: nat, failed: bool, was: bool, now: bool,
                    id: nat, wrapped: bool)
    requires Cyclic(contents, min, max, from, failed, was, now, id, wrapped)
    ensures id <= max && id !in contents
    ensures
      || (from <= id && (forall i :: from <= i < id ==> i in contents) && wrapped == was && now == (id == 0xFFFF_FFFF))
      || (min <= id && min < from && (forall i :: min <= i < id ==> i in contents)
          && (failed || forall i :: from <= i <= max ==> i in contents)
          && wrapped && now == (was || id == 0xFFFF_FFFF))
  {
  }

  /** __xa_alloc_cyclic(): the first free id from `next` on, or from `min` if that is greater; failing that, or when
      memory has run short, the first from `min` on.  `wrapped` says that the ids have started over since the last
      call, and the next call is to begin after the id, modulo 2^32. */
  method AllocCyclic(xa: XArray, entry: Slot, min: nat, max: nat, next: nat) returns (r: Turn, next': nat)
    requires Allocating(xa) && !entry.Child? && min < WORD32 && max < WORD32 && next < WORD32
    requires entry != Retry ==>
      Startable(xa, Max(min, next), max) && (Max(min, next) > max ==> Startable(xa, min, max))
    modifies xa, xa.nodes.Values
    ensures Allocating(xa) && |old(xa.tags)| == MAX_MARKS && fresh(xa.live - old(xa.live))
    ensures r == Failure(Invalid) <==> entry == Retry || !xa.trackFree
    ensures r.Failure? ==>
      && Untouched(xa, old(xa.contents), old(xa.tags)) && next' == next
      && xa.allocWrapped == old(xa.allocWrapped)
    ensures r.Issued? ==>
      Written(xa, old(xa.contents), old(xa.tags), r.id, if entry == Empty then Stored(Zero) else entry)
    ensures r.Issued? ==>
      var from := if min < next then next else min;
      && r.id <= max && r.id !in old(xa.contents) && next' == (r.id + 1) % 0x1_0000_0000
      && (|| (from <= r.id && (forall i :: from <= i < r.id ==> i in old(xa.contents))
              && r.wrapped == old(xa.allocWrapped) && xa.allocWrapped == (r.id == 0xFFFF_FFFF))
          || (min <= r.id && min < from && (forall i :: min <= i < r.id ==> i in old(xa.contents))
              && (xa.failures > old(xa.failures) || forall i :: from <= i <= max ==> i in old(xa.contents))
              && r.wrapped && xa.allocWrapped == (old(xa.allocWrapped) || r.id == 0xFFFF_FFFF)))
      && xa.contents == old(xa.contents)[r.id := if entry.Stored? then entry.entry else Zero] && |xa.tags| == 3
      && forall m, j: nat :: 0 <= m < 3 ==>
           (j in xa.tags[m] <==> j in old(xa.tags)[m] && !(m == 0 && j == r.id))
    ensures r == Failure(Busy) ==> forall i :: min <= i <= max ==> i in old(xa.contents)
    ensures xa.failures >= old(xa.failures)
    ensures xa.failures == old(xa.failures) ==> r != Failure(NoMem)
    ensures old(xa.Canonical()) && (xa.failures == old(xa.failures) || r == Failure(Invalid)) ==>
      r.Failure? || (entry != Empty && entry != Stored(Zero)) ==> xa.Canonical()
  {
    hide XArray.Valid, XArray.Canonical, FreeExact, LeastFree, TagsAfter, Cyclic;
    r, next' := AllocTwice(xa, entry, min, max, next);
    if r.Issued? {
      CyclicMeans(old(xa.contents), min, max, Max(min, next), xa.failures > old(xa.failures),
                  old(xa.allocWrapped), xa.allocWrapped, r.id, r.wrapped);
      TagsAfterMeans(old(xa.tags), r.id, if entry == Empty then Stored(Zero) else entry, true);
    }
  }

  /** The two attempts of __xa_alloc_cyclic() */
  method AllocTwice(xa: XArray, entry: Slot, min: nat, max: nat, next: nat) returns (r: Turn, next': nat)
    requires Allocating(xa) && !entry.Child? && min < WORD32 && max < WORD32 && next < WORD32
    requires entry != Retry ==>
      Startable(xa, Max(min, next), max) && (Max(min, next) > max ==> Startable(xa, min, max))
    modifies xa, xa.nodes.Values
    ensures Allocating(xa) && |old(xa.tags)| == MAX_MARKS && fresh(xa.live - old(xa.live))
    ensures r == Failure(Invalid) <==> entry == Retry || !xa.trackFree
    ensures r.Failure? ==>
      Untouched(xa, old(xa.contents), old(xa.tags)) && next' == next && xa.allocWrapped == old(xa.allocWrapped)
    ensures r.Issued? ==>
      && next' == (r.id + 1) % WORD32
      && Cyclic(old(xa.contents), min, max, Max(min, next), xa.failures > old(xa.failures),
                old(xa.allocWrapped), xa.allocWrapped, r.id, r.wrapped)
      && Written(xa, old(xa.contents), old(xa.tags), r.id, if entry == Empty then Stored(Zero) else entry)
    ensures r == Failure(Busy) ==> AllTaken(old(xa.contents), min, max)
    ensures xa.failures >= old(xa.failures)
    ensures xa.failures == old(xa.failures) ==> r != Failure(NoMem)
    ensures old(xa.Canonical()) && (xa.failures == old(xa.failures) || r == Failure(Invalid)) ==>
      r.Failure? || (entry != Empty && entry != Stored(Zero)) ==> xa.Canonical()
  {
    hide XArray.Valid, XArray.Canonical, FreeExact, LeastFree, AllTaken, TagsAfter, Written;
    ReadyTags(xa);
    next' := next;
    var from := Max(min, next);
    var got := AllocFree(xa, entry, from, max);
    var ret := 0;
    if got.Granted? {
      TakenFrom(old(xa.contents), from, max, got.id);
    }
    if xa.allocWrapped && got.Granted? {
      xa.allocWrapped := false;
      ret := 1;
    }
    if got.Denied? && from > min {
      got := AllocFree(xa, entry, min, max);
      if got.Granted? {
        ret := 1;
      }
    }
    match got
    case Denied(e) =>
      r := Failure(e);
    case Granted(id) =>
      next' := (id + 1) % WORD32;
      if next' == 0 {
        xa.allocWrapped := true;
      }
      r := Issued(id, ret == 1);
  }
}
