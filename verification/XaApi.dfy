/**
 The normal interface of the XArray, proved against a plain map from index to entry (`contents`) and one set of
 indices per mark (`tags`).
 */
module XaApi {
  import opened Chunks
  import opened Numbers
  import opened XaNodes
  import opened XaTree
  import opened XArrays
  import opened XaStates

  /** What an XArray call returns: the entry that was there, or an error. */
  datatype Outcome = Old(slot: Slot) | Failed(e: Errno)

  /** xa_zero_to_null() */
  function ZeroToNull(x: Slot): Slot
  {
    if x == Stored(Zero) then Empty else x
  }

  /** What a user of the array sees at an index. */
  ghost function View(xa: XArray, i: nat): Slot
    reads xa`contents
  {
    if i in xa.contents then ZeroToNull(Stored(xa.contents[i])) else Empty
  }

  /** Between calls the tree is right and every node that is out is in it. */
  ghost predicate Ready(xa: XArray)
    reads xa, xa.nodes.Values
  {
    xa.Valid() && xa.live == xa.nodes.Values
  }

  /** xas_result() with xa_zero_to_null() */
  method Result(xas: XaState, curr: Slot) returns (r: Outcome)
    ensures r == if xas.node.Error? then Failed(xas.node.e) else Old(ZeroToNull(curr))
  {
    if xas.node.Error? {
      return Failed(xas.node.e);
    }
    return Old(ZeroToNull(curr));
  }

  /** What __xa_store() puts into the array: an array that tracks free indices reserves instead of erasing. */
  function Effective(entry: Slot, trackFree: bool): Slot
  {
    if trackFree && entry == Empty then Stored(Zero) else entry
  }

  lemma ReadyTags(xa: XArray)
    requires Ready(xa)
    ensures |xa.tags| == MAX_MARKS == |xa.flags|
  {
    xa.TagCount();
  }

  ghost predicate Untouched(xa: XArray, contents: map<nat, Entry>, tags: Tags)
    reads xa`contents, xa`tags
  {
    xa.contents == contents && xa.tags == tags
  }

  /** The array after a store of `x` at index `i`. */
  ghost predicate Written(xa: XArray, contents: map<nat, Entry>, tags: Tags, i: nat, x: Slot)
    requires |tags| == MAX_MARKS && (x == Empty || x.Stored?)
    reads xa`contents, xa`tags
  {
    xa.contents == Update(contents, i, x) && xa.tags == TagsAfter(tags, i, x, xa.trackFree)
  }

  lemma Shown(xa: XArray, i: nat)
    requires xa.Valid()
    ensures View(xa, i) == ZeroToNull(xa.Raw(i))
    ensures View(xa, i) ==
            if i in xa.contents && xa.contents[i] != Zero then Stored(xa.contents[i]) else Empty
    ensures xa.Implied() ==> xa.trackFree
  {
    hide XArray.Valid;
    xa.RawFacts(i);
    xa.FlagRule();
    xa.HeadParts();
  }

  /** The loop of __xa_store(): store, and set a node aside and start over while memory is short. */
  method StoreLoop(xas: XaState, x: Slot) returns (curr: Slot)
    requires Ready(xas.xa) && xas.index < WORD && xas.node == Restart && xas.spare == null && x.Stored?
    requires xas.xa.ZeroSafe(xas.index, x == Stored(Zero))
    modifies xas`node, xas`offset, xas`spare, xas.xa, xas.xa.nodes.Values
    ensures Ready(xas.xa) && |old(xas.xa.tags)| == MAX_MARKS && fresh(xas.xa.live - old(xas.xa.live))
    ensures xas.node.Error? ==>
      && xas.node == Error(NoMem) && Untouched(xas.xa, old(xas.xa.contents), old(xas.xa.tags))
    ensures !xas.node.Error? ==>
      && curr == old(xas.xa.Raw(xas.index)) && xas.xa.Raw(xas.index) == x
      && Written(xas.xa, old(xas.xa.contents), old(xas.xa.tags), xas.index, x)
    ensures !xas.node.Error? && x == Stored(Zero) && curr == Empty ==> xas.xa.head.Child?
    ensures xas.xa.allocWrapped == old(xas.xa.allocWrapped) && xas.xa.failures >= old(xas.xa.failures)
    ensures xas.xa.failures == old(xas.xa.failures) ==> !xas.node.Error?
    ensures !xas.node.Error? && x != Stored(Zero) && old(xas.xa.Canonical()) ==> xas.xa.Canonical()
    ensures xas.index == 0 && old(xas.xa.head).Stored? ==> !xas.node.Error? && xas.xa.head == x
  {
    hide XArray.Valid, XaState.NoLeak, XaState.SpareOk, Missing, XArray.Canonical, XArray.Halfway, TagsAfter;
    hide TagsExchanged;
    ReadyTags(xas.xa);
    if xas.xa.Canonical() {
      xas.xa.CanonicalHalfway(xas.index);
    }
    xas.ReadyNoLeak();
    ghost var contents, tags := xas.xa.contents, xas.xa.tags;
    curr := Empty;
    while true
      invariant xas.xa.Valid() && xas.SpareOk() && xas.NoLeak() && fresh(xas.xa.live - old(xas.xa.live))
      invariant xas.node == Restart && Untouched(xas.xa, contents, tags) && (xas.spare != null ==> fresh(xas.spare))
      invariant xas.xa.ZeroSafe(xas.index, x == Stored(Zero))
      invariant xas.xa.Raw(xas.index) == old(xas.xa.Raw(xas.index))
      invariant xas.xa.failures >= old(xas.xa.failures)
      invariant x != Stored(Zero) && old(xas.xa.Canonical()) ==> xas.xa.Halfway(xas.index)
      invariant xas.index == 0 && old(xas.xa.head).Stored? ==> xas.xa.head == old(xas.xa.head)
      invariant xas.xa.allocWrapped == old(xas.xa.allocWrapped)
      decreases Missing(xas.xa.nodes, xas.index), if xas.spare == null then 1 else 0
    {
      xas.LiveNode();
      var again: bool;
      curr, again := xas.StoreRound(x);
      if !again {
        xas.ReadyNoLeak();
        return;
      }
    }
  }

  /** xas_store() of NULL by the normal interface. */
  method NullOut(xas: XaState) returns (curr: Slot)
    requires Ready(xas.xa) && xas.index < WORD && xas.node == Restart && xas.spare == null
    modifies xas`node, xas`offset, xas.xa`head, xas.xa`flags, xas.xa`nodes, xas.xa`height, xas.xa`live
    modifies xas.xa`contents, xas.xa`tags, xas.xa.nodes.Values
    ensures Ready(xas.xa) && |old(xas.xa.tags)| == MAX_MARKS && xas.xa.live <= old(xas.xa.live) && !xas.node.Error?
    ensures curr == old(xas.xa.Raw(xas.index))
    ensures if xas.index == 0 && old(xas.xa.Implied()) then Untouched(xas.xa, old(xas.xa.contents), old(xas.xa.tags))
            else Written(xas.xa, old(xas.xa.contents), old(xas.xa.tags), xas.index, Empty)
    ensures old(xas.xa.Canonical()) ==> xas.xa.Canonical()
  {
    hide XArray.Valid, XArray.Canonical, XaState.NoLeak, XaState.SpareOk;
    ReadyTags(xas.xa);
    xas.ReadyNoLeak();
    xas.xa.RawFacts(xas.index);
    if xas.index !in xas.xa.contents {
      xas.xa.RestNothing(xas.index);
    }
    curr := xas.StoreNull();
    xas.ReadyNoLeak();
  }

  /** __xa_store(): the entry that was there comes back, reserved entries hidden.  NULL reserves the index in an array
      that tracks free indices and removes it in any other.  The index keeps its marks, except that a stored entry
      takes the free mark and removal takes them all; no other index is touched. */
  method Store(xa: XArray, index: nat, entry: Slot) returns (r: Outcome)
    requires Ready(xa) && index < WORD && !entry.Child?
    requires entry != Retry ==> xa.ZeroSafe(index, Effective(entry, xa.trackFree) == Stored(Zero))
    modifies xa, xa.nodes.Values
    ensures Ready(xa) && |old(xa.tags)| == MAX_MARKS && fresh(xa.live - old(xa.live))
    ensures r.Failed? ==>
      Untouched(xa, old(xa.contents), old(xa.tags)) && r.e == if entry == Retry then Invalid else NoMem
    ensures r.Old? ==>
      && entry != Retry && r.slot == old(View(xa, index))
      && Written(xa, old(xa.contents), old(xa.tags), index, Effective(entry, xa.trackFree))
      && (Effective(entry, xa.trackFree) != Empty ==> xa.Raw(index) == Effective(entry, xa.trackFree))
    ensures r.Old? ==>
      && (entry.Stored? || entry == Empty)
      && r.slot == (if index in old(xa.contents) && old(xa.contents)[index] != Zero
                    then Stored(old(xa.contents)[index]) else Empty)
      && (entry.Stored? ==> xa.contents == old(xa.contents)[index := entry.entry])
      && (entry == Empty ==>
            xa.contents == if xa.trackFree then old(xa.contents)[index := Zero] else old(xa.contents) - {index})
    ensures r.Old? ==> |xa.tags| == 3 && forall m, j: nat :: 0 <= m < 3 ==>
      (j in xa.tags[m] <==>
         j in old(xa.tags)[m] && (j == index ==> (entry == Empty ==> xa.trackFree) && !(xa.trackFree && m == 0)))
    ensures r.Old? && Effective(entry, xa.trackFree) == Stored(Zero) && old(xa.Raw(index)) == Empty ==> xa.head.Child?
    ensures xa.allocWrapped == old(xa.allocWrapped) && xa.failures >= old(xa.failures)
    ensures xa.failures == old(xa.failures) ==> (entry == Retry <==> r.Failed?)
    ensures (if r.Failed? then entry == Retry else Effective(entry, xa.trackFree) != Stored(Zero)) ==>
      old(xa.Canonical()) ==> xa.Canonical()
    ensures entry != Retry && Effective(entry, xa.trackFree) != Empty && index == 0 && old(xa.head).Stored? ==>
      r.Old? && xa.head == Effective(entry, xa.trackFree)
  {
    hide XArray.Valid, XArray.Canonical, XArray.Implied, XArray.Raw, XArray.ZeroSafe, TagsAfter, TagsExchanged, View;
    ReadyTags(xa);
    if entry == Retry {
      return Failed(Invalid);
    }
    Shown(xa, index);
    var x := entry;
    if xa.trackFree && x == Empty {
      x := Stored(Zero);
    }
    var xas := new XaState(xa, index);
    var curr: Slot;
    if x == Empty {
      curr := NullOut(xas);
    } else {
      curr := StoreLoop(xas, x);
    }
    r := Result(xas, curr);
    TagsAfterMeans(old(xa.tags), index, x, xa.trackFree);
  }

  /** __xa_erase(): the entry comes back, the index is gone and at rest, and nothing else changes; an index 0 whose
      reservation is implied stays reserved. */
  method Erase(xa: XArray, index: nat) returns (r: Outcome)
    requires Ready(xa) && index < WORD
    modifies xa, xa.nodes.Values
    ensures Ready(xa) && |old(xa.tags)| == MAX_MARKS && xa.live <= old(xa.live)
    ensures r == Old(if index in old(xa.contents) && old(xa.contents)[index] != Zero
                     then Stored(old(xa.contents)[index]) else Empty)
    ensures !(index == 0 && old(xa.Implied())) ==>
      && xa.contents == old(xa.contents) - {index} && |xa.tags| == 3
      && forall m, j: nat :: 0 <= m < 3 ==>
           (j in xa.tags[m] <==> if j == index then xa.trackFree && m == 0 else j in old(xa.tags)[m])
    ensures if index == 0 && old(xa.Implied()) then Untouched(xa, old(xa.contents), old(xa.tags))
            else Written(xa, old(xa.contents), old(xa.tags), index, Empty)
    ensures xa.allocWrapped == old(xa.allocWrapped) && xa.failures == old(xa.failures)
    ensures old(xa.Canonical()) ==> xa.Canonical()
  {
    hide XArray.Valid, XArray.Canonical, TagsAfter, TagsExchanged;
    ReadyTags(xa);
    xa.RawFacts(index);
    var xas := new XaState(xa, index);
    var curr := NullOut(xas);
    r := Result(xas, curr);
    TagsAfterMeans(old(xa.tags), index, Empty, xa.trackFree);
  }

  /** The array after an exchange that found `curr` and wanted `want`. */
  ghost predicate Exchanged(xa: XArray, contents: map<nat, Entry>, tags: Tags, i: nat, curr: Slot, want: Slot, x: Slot)
    requires |tags| == MAX_MARKS && (x == Empty || x.Stored?)
    reads xa`contents, xa`tags
  {
    if curr == want && (curr != Empty || x != Empty) then
      xa.contents == Update(contents, i, x) && xa.tags == TagsExchanged(tags, i, curr, x, xa.trackFree)
    else
      Untouched(xa, contents, tags)
  }

  /** One round of the loop in __xa_cmpxchg_raw(), as it looks from outside. */
  method ExchangeTurn(xas: XaState, want: Slot, x: Slot) returns (curr: Slot, again: bool)
    requires xas.xa.Valid() && xas.Cursor() && (x == Empty || x.Stored?)
    requires xas.SpareOk() && xas.NoLeak() && !xas.node.Error?
    requires x != Empty && xas.xa.Raw(xas.index) == want ==> xas.xa.ZeroSafe(xas.index, x == Stored(Zero))
    modifies xas`node, xas`offset, xas`spare, if xas.spare != null then {xas.spare} else {}
    modifies xas.xa`head, xas.xa`flags, xas.xa`nodes, xas.xa`height, xas.xa`live, xas.xa`failures, xas.xa`contents
    modifies xas.xa`tags, xas.xa.nodes.Values
    ensures xas.xa.Valid() && xas.SpareOk() && xas.NoLeak() && fresh(xas.xa.live - old(xas.xa.live))
    ensures xas.xa.failures == old(xas.xa.failures) <==> !again && !xas.node.Error?
    ensures xas.xa.failures >= old(xas.xa.failures) && |old(xas.xa.tags)| == MAX_MARKS
    ensures again || xas.node.Error? ==>
      && Untouched(xas.xa, old(xas.xa.contents), old(xas.xa.tags)) && old(xas.xa.Raw(xas.index)) == want && x.Stored?
      && (x != Stored(Zero) && old(xas.xa.Halfway(xas.index)) ==> xas.xa.Halfway(xas.index))
    ensures again ==>
      && xas.node == Restart && xas.spare != null && fresh(xas.spare)
      && xas.xa.Raw(xas.index) == old(xas.xa.Raw(xas.index)) && xas.xa.ZeroSafe(xas.index, x == Stored(Zero))
      && (if xas.xa.nodes == old(xas.xa.nodes) then old(xas.spare) == null
          else Missing(xas.xa.nodes, xas.index) < Missing(old(xas.xa.nodes), xas.index))
    ensures !again ==> xas.spare == null && (xas.node.Error? ==> xas.node == Error(NoMem))
    ensures !again && !xas.node.Error? ==>
      && curr == old(xas.xa.Raw(xas.index))
      && Exchanged(xas.xa, old(xas.xa.contents), old(xas.xa.tags), xas.index, curr, want, x)
      && (x == Stored(Zero) && curr == want == Empty ==> xas.xa.head.Child?)
      && (x != Stored(Zero) && old(xas.xa.Canonical()) ==> xas.xa.Canonical())
      && (x.Stored? && x != Stored(Zero) && curr == want && old(xas.xa.Halfway(xas.index)) ==> xas.xa.Canonical())
  {
    hide XArray.Valid, XaState.NoLeak, XaState.SpareOk, Missing, XArray.Canonical, XArray.Halfway, TagsExchanged;
    xas.LiveNode();
    curr, again := xas.ExchangeRound(want, x);
  }

  /** The loop of __xa_cmpxchg_raw() */
  method ExchangeLoop(xas: XaState, want: Slot, x: Slot) returns (curr: Slot)
    requires Ready(xas.xa) && xas.index < WORD && xas.node == Restart && xas.spare == null && (x == Empty || x.Stored?)
    requires x != Empty && xas.xa.Raw(xas.index) == want ==> xas.xa.ZeroSafe(xas.index, x == Stored(Zero))
    modifies xas`node, xas`offset, xas`spare, xas.xa, xas.xa.nodes.Values
    ensures Ready(xas.xa) && |old(xas.xa.tags)| == MAX_MARKS && fresh(xas.xa.live - old(xas.xa.live))
    ensures xas.node.Error? ==> xas.node == Error(NoMem) && Untouched(xas.xa, old(xas.xa.contents), old(xas.xa.tags))
    ensures !xas.node.Error? ==>
      && curr == old(xas.xa.Raw(xas.index))
      && Exchanged(xas.xa, old(xas.xa.contents), old(xas.xa.tags), xas.index, curr, want, x)
    ensures !xas.node.Error? && x == Stored(Zero) && curr == want == Empty ==> xas.xa.head.Child?
    ensures xas.xa.allocWrapped == old(xas.xa.allocWrapped) && xas.xa.failures >= old(xas.xa.failures)
    ensures xas.xa.failures == old(xas.xa.failures) ==> !xas.node.Error?
    ensures !xas.node.Error? && x != Stored(Zero) && old(xas.xa.Canonical()) ==> xas.xa.Canonical()
  {
    hide XArray.Valid, XaState.NoLeak, XaState.SpareOk, Missing, XArray.Canonical, XArray.Halfway, Exchanged;
    hide XArray.Raw, XArray.ZeroSafe;
    ReadyTags(xas.xa);
    xas.ReadyNoLeak();
    ghost var contents, tags := xas.xa.contents, xas.xa.tags;
    curr := Empty;
    while true
      invariant xas.xa.Valid() && xas.SpareOk() && xas.NoLeak() && fresh(xas.xa.live - old(xas.xa.live))
      invariant xas.node == Restart && Untouched(xas.xa, contents, tags) && (xas.spare != null ==> fresh(xas.spare))
      invariant xas.xa.Raw(xas.index) == old(xas.xa.Raw(xas.index))
      invariant x != Empty && xas.xa.Raw(xas.index) == want ==> xas.xa.ZeroSafe(xas.index, x == Stored(Zero))
      invariant xas.xa.failures >= old(xas.xa.failures)
      invariant x != Stored(Zero) && old(xas.xa.Canonical()) ==>
                  xas.xa.Canonical() || (xas.xa.Halfway(xas.index) && xas.xa.Raw(xas.index) == want && x.Stored?)
      invariant xas.xa.allocWrapped == old(xas.xa.allocWrapped)
      decreases Missing(xas.xa.nodes, xas.index), if xas.spare == null then 1 else 0
    {
      xas.LiveNode();
      var again: bool;
      if xas.xa.Canonical() {
        xas.xa.CanonicalHalfway(xas.index);
      }
      curr, again := ExchangeTurn(xas, want, x);
      if !again {
        xas.ReadyNoLeak();
        return;
      }
    }
  }

  /** __xa_cmpxchg_raw(): the result is the entry found, reserved entries included; if it is the one wanted, the new
      entry takes its place.  An entry over another one keeps every mark of the index; over nothing it takes the free
      mark. */
  method CmpxchgRaw(xa: XArray, index: nat, want: Slot, entry: Slot) returns (r: Outcome)
    requires Ready(xa) && index < WORD && !entry.Child?
    requires entry != Empty && entry != Retry && xa.Raw(index) == want ==> xa.ZeroSafe(index, entry == Stored(Zero))
    modifies xa, xa.nodes.Values
    ensures Ready(xa) && |old(xa.tags)| == MAX_MARKS && fresh(xa.live - old(xa.live))
    ensures r.Failed? ==>
      Untouched(xa, old(xa.contents), old(xa.tags)) && r.e == if entry == Retry then Invalid else NoMem
    ensures r.Old? ==>
      && entry != Retry && r.slot == old(xa.Raw(index))
      && Exchanged(xa, old(xa.contents), old(xa.tags), index, r.slot, want, entry)
    ensures r.Old? && r.slot == want && (want != Empty || entry != Empty) ==>
      && (entry.Stored? || entry == Empty)
      && (entry.Stored? ==> xa.contents == old(xa.contents)[index := entry.entry])
      && (entry == Empty ==> xa.contents == old(xa.contents) - {index})
      && |xa.tags| == 3
      && forall m, j: nat :: 0 <= m < 3 ==>
           (j in xa.tags[m] <==>
              if j != index then j in old(xa.tags)[m]
              else if entry == Empty then xa.trackFree && m == 0
              else j in old(xa.tags)[m] && !(xa.trackFree && m == 0 && want == Empty))
    ensures r.Old? && !(r.slot == want && (want != Empty || entry != Empty)) ==>
      xa.contents == old(xa.contents) && xa.tags == old(xa.tags)
    ensures r.Old? && entry == Stored(Zero) && r.slot == want == Empty ==> xa.head.Child?
    ensures xa.allocWrapped == old(xa.allocWrapped) && xa.failures >= old(xa.failures)
    ensures xa.failures == old(xa.failures) ==> (entry == Retry <==> r.Failed?)
    ensures (if r.Failed? then entry == Retry else entry != Stored(Zero)) && old(xa.Canonical()) ==> xa.Canonical()
  {
    hide XArray.Valid, XArray.Canonical, TagsAfter, TagsExchanged;
    ReadyTags(xa);
    if entry == Retry {
      return Failed(Invalid);
    }
    var xas := new XaState(xa, index);
    var curr := ExchangeLoop(xas, want, entry);
    TagsExchangedMeans(old(xa.tags), index, curr, entry, xa.trackFree);
    if xas.node.Error? {
      return Failed(xas.node.e);
    }
    return Old(curr);
  }

  datatype Status = Done | Refused(e: Errno)

  /** __xa_insert(): store only where nothing shows; an implied reservation of index 0 is overwritten.  NULL reserves
      the index.  Of all marks only the free mark of the index may go. */
  method InsertEntry(xa: XArray, index: nat, entry: Slot) returns (r: Status)
    requires Ready(xa) && index < WORD && !entry.Child?
    requires entry != Retry && xa.Raw(index) == Empty ==> xa.ZeroSafe(index, entry == Empty || entry == Stored(Zero))
    modifies xa, xa.nodes.Values
    ensures Ready(xa) && |old(xa.tags)| == MAX_MARKS && fresh(xa.live - old(xa.live))
    ensures r.Refused? ==> Untouched(xa, old(xa.contents), old(xa.tags))
    ensures r == Refused(Busy) ==> old(xa.Raw(index)) != Empty
    ensures r == Done ==>
      && old(xa.Raw(index)) == Empty && entry != Retry
      && Written(xa, old(xa.contents), old(xa.tags), index, if entry == Empty then Stored(Zero) else entry)
      && xa.contents == old(xa.contents)[index := if entry.Stored? then entry.entry else Zero] && |xa.tags| == 3
      && forall m, j: nat :: 0 <= m < 3 ==>
           (j in xa.tags[m] <==> j in old(xa.tags)[m] && !(xa.trackFree && m == 0 && j == index))
    ensures r == Done && (entry == Empty || entry == Stored(Zero)) ==> xa.head.Child?
    ensures xa.allocWrapped == old(xa.allocWrapped) && xa.failures >= old(xa.failures)
    ensures entry == Retry <==> r == Refused(Invalid)
    ensures r != Refused(NoMem) && entry != Empty && entry != Stored(Zero) && old(xa.Canonical()) ==> xa.Canonical()
    ensures xa.failures == old(xa.failures) && entry != Retry ==>
      r == if old(xa.Raw(index)) != Empty then Refused(Busy) else Done
  {
    hide XArray.Valid, XArray.Canonical;
    ReadyTags(xa);
    var x := entry;
    if x == Empty {
      x := Stored(Zero);
    }
    var got := CmpxchgRaw(xa, index, Empty, x);
    match got
    case Failed(e) => return Refused(e);
    case Old(curr) =>
      return if curr != Empty then Refused(Busy) else Done;
  }
}
