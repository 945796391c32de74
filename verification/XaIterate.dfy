/**
 Iteration: xa_find(), xa_find_after() and the xa_for_each loop visit the present entries in order.
 */
module XaIterate {
  import opened Chunks
  import opened Numbers
  import opened XaNodes
  import opened XaTree
  import opened XArrays
  import opened XaStates
  import opened XaFind
  import opened XaFindMarked

  /** The selection criterion of a search: every present entry, or those with a mark. */
  datatype Filter = Present | WithMark(m: nat)

  ghost predicate Searchable(xa: XArray, f: Filter)
  {
    f.WithMark? ==> f.m < MAX_MARKS && !(xa.trackFree && f.m == FREE_MARK)
  }

  /** A user sees an entry at `i` that meets the criterion; a reserved index shows nothing. */
  ghost predicate Matches(contents: map<nat, Entry>, t: Tags, f: Filter, i: nat)
  {
    i in contents && contents[i] != Zero && (f.WithMark? ==> f.m < |t| && i in t[f.m])
  }

  ghost predicate NoMatch(contents: map<nat, Entry>, t: Tags, f: Filter, s: nat, e: nat)
  {
    forall i :: s <= i < e ==> !Matches(contents, t, f, i)
  }

  /** Where the next round of the search starts. */
  ghost function From(xas: XaState): nat
    reads xas`index, xas`node
  {
    if xas.node == Restart then xas.index else xas.index + 1
  }

  /** What a round of the search by mark has settled. */
  lemma HuntedMatch(xas: XaState, start: nat, max: nat, m: nat, entry: Slot)
    requires xas.xa.Valid() && max < WORD && Hunted(xas, start, max, m, entry)
    requires m < MAX_MARKS && !(xas.xa.trackFree && m == FREE_MARK)
    ensures entry == Empty ==> NoMatch(xas.xa.contents, xas.xa.tags, WithMark(m), start, max + 1)
    ensures entry != Empty ==>
      && xas.Cursor() && xas.OnEntry() && start <= xas.index <= max
      && xas.index in xas.xa.contents && entry == Stored(xas.xa.contents[xas.index])
      && xas.index in xas.xa.tags[m] && NoMatch(xas.xa.contents, xas.xa.tags, WithMark(m), start, xas.index)
  {
    hide XArray.Valid, Up;
    var xa := xas.xa;
    xa.RawFacts(xas.index);
    if entry == Empty && xas.node == Bounds {
      forall i | xas.index <= i <= max
        ensures i !in xa.contents
      {
        UpMonotone(xas.index, i, xa.height);
        if i in xa.contents {
          xa.InWord(i);
        }
      }
    } else if entry == Empty && xas.node != Restart {
      EmptyHit(xa, xas.index, m);
    }
  }

  /** A marked index that shows nothing in the array is the reserved index 0 of an array without nodes. */
  lemma EmptyHit(xa: XArray, i: nat, m: nat)
    requires xa.Valid() && m < |xa.tags| && i in xa.tags[m] && xa.Raw(i) == Empty && m < MAX_MARKS
    requires !(xa.trackFree && m == FREE_MARK)
    ensures forall j :: j in xa.contents ==> xa.contents[j] == Zero
  {
    hide XArray.Valid, Up;
    if i !in xa.contents {
      xa.RestMark(i, m);
    }
    forall j | j in xa.contents
      ensures xa.contents[j] == Zero
    {
      xa.InWord(j);
      UpStart(j);
      xa.HiddenZero(i);
    }
  }

  lemma FoundMatch(xas: XaState, start: nat, max: nat, entry: Slot)
    requires xas.xa.Valid()
    requires if entry == Empty then NoneIn(Stock(xas.xa), start, max + 1) else Found(xas, start, entry)
    ensures NoMatch(xas.xa.contents, xas.xa.tags, Present, start, if entry == Empty then max + 1 else xas.index)
    ensures entry != Empty ==> xas.index in xas.xa.contents && entry == Stored(xas.xa.contents[xas.index])
  {
    hide XArray.Valid;
    var xa := xas.xa;
    forall i | i in xa.contents && xa.contents[i] != Zero
      ensures i in Stock(xa)
    {
      xa.InWord(i);
      UpStart(i);
      if xa.Implied() {
        xa.HiddenZero(i);
      }
    }
  }

  /** The call at the heart of xa_find(): one step of the search, reserved entries included. */
  method Next(xas: XaState, max: nat, f: Filter) returns (entry: Slot)
    requires xas.xa.Valid() && xas.Cursor() && max < WORD && Searchable(xas.xa, f)
    requires xas.node == Restart || xas.OnEntry()
    modifies xas`offset, xas`index, xas`node
    ensures entry == Empty || entry.Stored?
    ensures entry == Empty ==> NoMatch(xas.xa.contents, xas.xa.tags, f, old(From(xas)), max + 1)
    ensures entry != Empty ==>
      && xas.Cursor() && xas.OnEntry() && old(From(xas)) <= xas.index <= max
      && xas.index in xas.xa.contents && entry == Stored(xas.xa.contents[xas.index])
      && (f.WithMark? ==> f.m < |xas.xa.tags| && xas.index in xas.xa.tags[f.m])
      && NoMatch(xas.xa.contents, xas.xa.tags, f, old(From(xas)), xas.index)
  {
    hide XArray.Valid, NoMatch, NoneIn, NoMark, Up;
    ghost var start := From(xas);
    if f.WithMark? {
      xas.xa.TagCount();
      entry := FindMarked(xas, max, f.m);
      HuntedMatch(xas, start, max, f.m, entry);
    } else {
      entry := Find(xas, max);
      FoundMatch(xas, start, max, entry);
    }
  }

  /** xas_retry() on a reserved entry: skip it. */
  predicate Skips(entry: Slot)
  {
    entry == Stored(Zero)
  }

  /** What xa_find() and xa_find_after() return: the first match from `start` to `max`, or nothing. */
  ghost predicate FirstMatch(contents: map<nat, Entry>, t: Tags, f: Filter, start: nat, max: nat, i: nat, entry: Slot)
  {
    if entry == Empty then NoMatch(contents, t, f, start, max + 1)
    else
      && start <= i <= max && Matches(contents, t, f, i) && entry == Stored(contents[i])
      && NoMatch(contents, t, f, start, i)
  }

  /** The same in full: no entry that a user can see, and that carries the mark if one is asked for, comes before it. */
  lemma FirstMeans(contents: map<nat, Entry>, t: Tags, f: Filter, start: nat, max: nat, i: nat, entry: Slot)
    requires FirstMatch(contents, t, f, start, max, i, entry) && (f.WithMark? ==> f.m < |t|)
    ensures entry != Empty ==>
      && start <= i <= max && i in contents && contents[i] != Zero && entry == Stored(contents[i])
      && (f.WithMark? ==> i in t[f.m])
    ensures forall j :: j in contents && start <= j <= max && (entry != Empty ==> j < i) ==>
      contents[j] == Zero || (f.WithMark? && j !in t[f.m])
  {
    assert entry == Empty ==> NoMatch(contents, t, f, start, max + 1);
    forall j | j in contents && start <= j <= max && (entry != Empty ==> j < i)
      ensures contents[j] == Zero || (f.WithMark? && j !in t[f.m])
    {
      assert !Matches(contents, t, f, j);
    }
  }

  /** One round of the search loop adds what it has passed to what was passed before. */
  lemma Passed(xas: XaState, f: Filter, start: nat, from: nat, max: nat, entry: Slot)
    requires start <= from && NoMatch(xas.xa.contents, xas.xa.tags, f, start, from)
    requires entry == Empty ==> NoMatch(xas.xa.contents, xas.xa.tags, f, from, max + 1)
    requires entry != Empty ==>
      && from <= xas.index <= max && xas.index in xas.xa.contents && entry == Stored(xas.xa.contents[xas.index])
      && (f.WithMark? ==> f.m < |xas.xa.tags| && xas.index in xas.xa.tags[f.m])
      && NoMatch(xas.xa.contents, xas.xa.tags, f, from, xas.index)
    ensures !Skips(entry) ==> FirstMatch(xas.xa.contents, xas.xa.tags, f, start, max, xas.index, entry)
    ensures Skips(entry) ==> NoMatch(xas.xa.contents, xas.xa.tags, f, start, xas.index + 1)
  {
  }

  /** xa_find(): the first entry in the range that a user can see and that carries the mark, if one is asked for. */
  method FindEntry(xa: XArray, index: nat, max: nat, f: Filter) returns (entry: Slot, id: nat)
    requires xa.Valid() && index < WORD && max < WORD && Searchable(xa, f)
    ensures FirstMatch(xa.contents, xa.tags, f, index, max, id, entry)
    ensures |xa.tags| == 3 && (entry == Empty ==> id == index) && (entry == Empty || entry.Stored?)
    ensures entry != Empty ==>
      && index <= id <= max && id in xa.contents && xa.contents[id] != Zero && entry == Stored(xa.contents[id])
      && (f.WithMark? ==> id in xa.tags[f.m])
    ensures forall j :: j in xa.contents && index <= j <= max && (entry != Empty ==> j < id) ==>
      xa.contents[j] == Zero || (f.WithMark? && j !in xa.tags[f.m])
  {
    hide XArray.Valid, NoMatch, Matches;
    var xas := new XaState(xa, index);
    NothingPassed(xa, f, index);
    entry := Next(xas, max, f);
    Passed(xas, f, index, index, max, entry);
    while Skips(entry)
      invariant xas.xa == xa && (entry == Empty || entry.Stored?)
      invariant entry != Empty ==> xas.Cursor() && xas.OnEntry() && index <= xas.index <= max
      invariant if Skips(entry) then NoMatch(xa.contents, xa.tags, f, index, xas.index + 1)
                else FirstMatch(xa.contents, xa.tags, f, index, max, xas.index, entry)
      decreases if entry == Empty then 0 else max + 1 - xas.index
    {
      ghost var from := From(xas);
      entry := Next(xas, max, f);
      Passed(xas, f, index, from, max, entry);
    }
    id := if entry == Empty then index else xas.index;
    xa.TagCount();
    FirstMeans(xa.contents, xa.tags, f, index, max, id, entry);
  }

  lemma NothingPassed(xa: XArray, f: Filter, i: nat)
    ensures NoMatch(xa.contents, xa.tags, f, i, i)
  {
  }

  /** xas_invalid() */
  predicate Invalid(w: Walk)
  {
    w == Restart || w == Bounds || w.Error?
  }

  /** xa_find_after(): the same for the indices after the one given. */
  method FindAfter(xa: XArray, index: nat, max: nat, f: Filter) returns (entry: Slot, id: nat)
    requires xa.Valid() && index < WORD && max < WORD && Searchable(xa, f)
    ensures FirstMatch(xa.contents, xa.tags, f, index + 1, max, id, entry)
    ensures |xa.tags| == 3 && (entry == Empty ==> id == index) && (entry == Empty || entry.Stored?)
    ensures entry != Empty ==>
      && index + 1 <= id <= max && id in xa.contents && xa.contents[id] != Zero && entry == Stored(xa.contents[id])
      && (f.WithMark? ==> id in xa.tags[f.m])
    ensures forall j :: j in xa.contents && index + 1 <= j <= max && (entry != Empty ==> j < id) ==>
      xa.contents[j] == Zero || (f.WithMark? && j !in xa.tags[f.m])
  {
    hide XArray.Valid, NoMatch, Matches;
    NothingPassed(xa, f, index + 1);
    if Trunc(index + 1) == 0 {
      NothingPast(xa, f, index + 1, max);
      xa.TagCount();
      return Empty, index;
    }
    var xas := new XaState(xa, index + 1);
    while true
      invariant xas.xa == xa && index < From(xas) && xas.Cursor()
      invariant xas.node == Restart || (xas.OnEntry() && xas.index <= max)
      invariant NoMatch(xa.contents, xa.tags, f, index + 1, From(xas))
      decreases if xas.node == Restart then max + 2 else max + 1 - xas.index
    {
      ghost var from := From(xas);
      entry := Next(xas, max, f);
      Passed(xas, f, index + 1, from, max, entry);
      if Invalid(xas.node) {
        break;
      }
      if !Skips(entry) {
        break;
      }
    }
    id := if entry == Empty then index else xas.index;
    xa.TagCount();
    FirstMeans(xa.contents, xa.tags, f, index + 1, max, id, entry);
  }

  lemma NothingPast(xa: XArray, f: Filter, s: nat, max: nat)
    requires s > max
    ensures NoMatch(xa.contents, xa.tags, f, s, max + 1)
  {
  }

  /** The visits of a loop over [s, e): every matching index once, in increasing order, with its entry. */
  ghost predicate Listing(contents: map<nat, Entry>, t: Tags, f: Filter, visited: seq<(nat, Entry)>, s: nat, e: nat)
  {
    && (forall k :: 0 <= k < |visited| ==>
          s <= visited[k].0 < e && Matches(contents, t, f, visited[k].0) && visited[k].1 == contents[visited[k].0])
    && (forall j, k :: 0 <= j < k < |visited| ==> visited[j].0 < visited[k].0)
    && (forall i :: s <= i < e && Matches(contents, t, f, i) ==> exists k :: 0 <= k < |visited| && visited[k].0 == i)
  }

  lemma ListingStep(contents: map<nat, Entry>, t: Tags, f: Filter, visited: seq<(nat, Entry)>, s: nat, from: nat,
                    i: nat)
    requires Listing(contents, t, f, visited, s, from) && s <= from <= i && NoMatch(contents, t, f, from, i)
    requires Matches(contents, t, f, i)
    ensures Listing(contents, t, f, visited + [(i, contents[i])], s, i + 1)
  {
    var after := visited + [(i, contents[i])];
    forall j | s <= j < i + 1 && Matches(contents, t, f, j)
      ensures exists k :: 0 <= k < |after| && after[k].0 == j
    {
      if j == i {
        assert after[|visited|].0 == j;
      } else {
        var k :| 0 <= k < |visited| && visited[k].0 == j;
        assert after[k].0 == j;
      }
    }
  }

  lemma ListingEnd(contents: map<nat, Entry>, t: Tags, f: Filter, visited: seq<(nat, Entry)>, s: nat, from: nat, e: nat)
    requires Listing(contents, t, f, visited, s, from) && s <= from && NoMatch(contents, t, f, from, e)
    requires from <= e || visited == []
    ensures Listing(contents, t, f, visited, s, e)
  {
    forall j | s <= j < e && Matches(contents, t, f, j)
      ensures exists k :: 0 <= k < |visited| && visited[k].0 == j
    {
      assert j < from;
    }
  }

  /** xa_for_each_range(), and xa_for_each() with the whole index space; the body of the loop notes what it is given:
      every entry of the range that a user can see, once, in increasing order. */
  method ForEach(xa: XArray, start: nat, last: nat) returns (visited: seq<(nat, Entry)>)
    requires xa.Valid() && start < WORD && last < WORD
    ensures forall k :: 0 <= k < |visited| ==>
      && start <= visited[k].0 <= last && visited[k].0 in xa.contents
      && visited[k].1 == xa.contents[visited[k].0] && visited[k].1 != Zero
    ensures forall j, k :: 0 <= j < k < |visited| ==> visited[j].0 < visited[k].0
    ensures forall i :: i in xa.contents && start <= i <= last && xa.contents[i] != Zero ==>
      (i, xa.contents[i]) in visited
  {
    hide XArray.Valid, Listing, Matches;
    visited := Loop(xa, start, last);
    ListingMeans(xa.contents, xa.tags, visited, start, last + 1);
  }

  lemma ListingMeans(contents: map<nat, Entry>, t: Tags, visited: seq<(nat, Entry)>, s: nat, e: nat)
    requires Listing(contents, t, Present, visited, s, e)
    ensures forall k :: 0 <= k < |visited| ==>
      && s <= visited[k].0 < e && visited[k].0 in contents
      && visited[k].1 == contents[visited[k].0] && visited[k].1 != Zero
    ensures forall j, k :: 0 <= j < k < |visited| ==> visited[j].0 < visited[k].0
    ensures forall i :: i in contents && s <= i < e && contents[i] != Zero ==> (i, contents[i]) in visited
  {
    forall i | i in contents && s <= i < e && contents[i] != Zero
      ensures (i, contents[i]) in visited
    {
      assert Matches(contents, t, Present, i);
      var k :| 0 <= k < |visited| && visited[k].0 == i;
      assert visited[k] == (i, contents[i]);
    }
  }

  /** The loop itself. */
  method Loop(xa: XArray, start: nat, last: nat) returns (visited: seq<(nat, Entry)>)
    requires xa.Valid() && start < WORD && last < WORD
    ensures Listing(xa.contents, xa.tags, Present, visited, start, last + 1)
  {
    hide XArray.Valid, NoMatch, Matches, Listing;
    visited := [];
    ListingStart(xa, start);
    var index: nat := start;
    ghost var from: nat := start;
    var entry: Slot;
    entry, index := FindEntry(xa, index, last, Present);
    while entry != Empty
      invariant entry == Empty || entry.Stored?
      invariant start <= from && (from <= last + 1 || visited == [])
      invariant Listing(xa.contents, xa.tags, Present, visited, start, from)
      invariant FirstMatch(xa.contents, xa.tags, Present, from, last, index, entry) && index < WORD
      decreases last + 1 - from, if entry == Empty then 0 else 1
    {
      FirstKnown(xa, from, last, index, entry);
      ListingStep(xa.contents, xa.tags, Present, visited, start, from, index);
      visited := visited + [(index, entry.entry)];
      from := index + 1;
      entry, index := FindAfter(xa, index, last, Present);
    }
    LastKnown(xa, from, last, index);
    ListingEnd(xa.contents, xa.tags, Present, visited, start, from, last + 1);
  }

  lemma ListingStart(xa: XArray, start: nat)
    ensures Listing(xa.contents, xa.tags, Present, [], start, start)
  {
  }

  lemma FirstKnown(xa: XArray, from: nat, last: nat, i: nat, entry: Slot)
    requires FirstMatch(xa.contents, xa.tags, Present, from, last, i, entry) && entry != Empty
    ensures from <= i <= last && Matches(xa.contents, xa.tags, Present, i) && i in xa.contents
    ensures entry == Stored(xa.contents[i]) && NoMatch(xa.contents, xa.tags, Present, from, i)
  {
  }

  lemma LastKnown(xa: XArray, from: nat, last: nat, i: nat)
    requires FirstMatch(xa.contents, xa.tags, Present, from, last, i, Empty)
    ensures NoMatch(xa.contents, xa.tags, Present, from, last + 1)
  {
  }
}
