/**
 Whole runs of the normal interface: whatever sequence of calls is made and whichever allocations fail, every reply is
 that of a plain map with a set of marked indices per mark.  The runs include index 0 of arrays that keep it busy, and
 stop only before the calls that XaZero shows to go wrong there.
 */
module XaRuns {
  import opened Chunks
  import opened Numbers
  import opened XaNodes
  import opened XaTree
  import opened XArrays
  import opened XaStates
  import opened XaApi
  import opened XaAlloc
  import opened XaMarks
  import opened XaIterate
  import opened XaShape

  datatype Op =
    | StoreAt(i: nat, x: Slot)
    | EraseAt(i: nat)
    | ExchangeAt(i: nat, want: Slot, x: Slot)
    | InsertAt(i: nat, x: Slot)
    | AllocIn(x: Slot, min: nat, max: nat)
    | CycleIn(x: Slot, min: nat, max: nat, next: nat)
    | SetMarkAt(i: nat, m: nat)
    | ClearMarkAt(i: nat, m: nat)
    | LoadAt(i: nat)
    | GetMarkAt(i: nat, m: nat)
    | FindFrom(i: nat, max: nat, f: Filter)
    | FindPast(i: nat, max: nat, f: Filter)

  datatype Reply =
    | Entry(slot: Slot)
    | Finished
    | Id(id: nat)
    | Cycled(turn: nat, next: nat, again: bool)
    | Flag(b: bool)
    | Hit(slot: Slot, at: nat)
    | Err(e: Errno)

  /** XA_FLAGS_TRACK_FREE and XA_FLAGS_ZERO_BUSY */
  datatype Setup = Setup(trackFree: bool, zeroBusy: bool)

  /** The plain state an array stands for; `bare` says that its head is NULL, `wrapped` is XA_FLAGS_ALLOC_WRAPPED. */
  datatype Model = Model(contents: map<nat, Entry>, tags: Tags, bare: bool, wrapped: bool)

  /** Index 0 is reserved, and nothing shows it. */
  ghost predicate Hidden(s: Model)
  {
    s.bare && 0 in s.contents
  }

  /** What the array shows at an index, reserved entries included. */
  ghost function Shows(s: Model, i: nat): Slot
  {
    if i == 0 && Hidden(s) then Empty else EntryAt(s.contents, i)
  }

  /** An array without a head holds nothing, or just the index 0 that it keeps busy. */
  ghost predicate Sane(s: Model, k: Setup)
  {
    |s.tags| == MAX_MARKS && (s.bare ==> s.contents == map[] || (k.zeroBusy && s.contents == map[0 := Zero]))
  }

  /** What the caller of an operation has to see to. */
  ghost predicate Legal(op: Op, trackFree: bool)
  {
    match op
    case StoreAt(i, x) => i < WORD && !x.Child?
    case EraseAt(i) => i < WORD
    case ExchangeAt(i, want, x) => i < WORD && !x.Child?
    case InsertAt(i, x) => i < WORD && !x.Child?
    case AllocIn(x, min, max) => !x.Child? && min < WORD32 && max < WORD32
    case CycleIn(x, min, max, next) => !x.Child? && min < WORD32 && max < WORD32 && next < WORD32
    case SetMarkAt(i, m) => i < WORD && UserMark(m, trackFree)
    case ClearMarkAt(i, m) => i < WORD && UserMark(m, trackFree)
    case LoadAt(i) => i < WORD
    case GetMarkAt(i, m) => i < WORD && UserMark(m, trackFree)
    case FindFrom(i, max, f) => i < WORD && max < WORD && (f.WithMark? ==> UserMark(f.m, trackFree))
    case FindPast(i, max, f) => i < WORD && max < WORD && (f.WithMark? ==> UserMark(f.m, trackFree))
  }

  /** The store of `x` at index `i` goes right on an array without a head that keeps index 0 busy: `erased` says that
      its free flag is set, which is to say that index 0 has been erased. */
  predicate Fits(i: nat, x: Slot, erased: bool)
  {
    if i == 0 then erased || (x != Empty && x != Stored(Zero)) else !erased
  }

  /** The calls that go right, by what a caller can see: the flags and the head of the array. */
  predicate Allowed(op: Op, zeroBusy: bool, bare: bool, erased: bool)
  {
    zeroBusy && bare ==>
      match op
      case StoreAt(i, x) => x == Retry || Fits(i, x, erased)
      case ExchangeAt(i, want, x) => x == Retry || x == Empty || want != Empty || Fits(i, x, erased)
      case InsertAt(i, x) => x == Retry || Fits(i, x, erased)
      case AllocIn(x, min, max) => x == Retry || !erased || min == 0 || min > max
      case CycleIn(x, min, max, next) =>
        || x == Retry || !erased
        || (if Max(min, next) > max then min == 0 || min > max else Max(min, next) == 0)
      case _ => true
  }

  /** The free mark of an array that tracks free indices belongs to the allocator. */
  predicate UserMark(m: nat, trackFree: bool)
  {
    m < MAX_MARKS && !(trackFree && m == FREE_MARK)
  }

  /** What a user sees at an index: reserved entries are hidden. */
  ghost function Seen(s: Model, i: nat): Slot
  {
    if i in s.contents && s.contents[i] != Zero then Stored(s.contents[i]) else Empty
  }

  ghost predicate Holds(s: Model, i: nat, e: Entry)
  {
    i in s.contents && s.contents[i] == e
  }

  /** Nothing changes but at index `i`; the head may have come or gone. */
  ghost predicate Only(s: Model, s': Model, i: nat)
  {
    && |s.tags| == |s'.tags| == MAX_MARKS
    && (forall j :: j in s.contents && j != i ==> j in s'.contents && s'.contents[j] == s.contents[j])
    && (forall j :: j in s'.contents && j != i ==> j in s.contents)
    && forall m, j: nat :: 0 <= m < MAX_MARKS && j != i ==> (j in s'.tags[m] <==> j in s.tags[m])
  }

  /** No contents and no marks change; the head may have come or gone. */
  ghost predicate Stays(s: Model, s': Model)
  {
    s'.contents == s.contents && s'.tags == s.tags && s'.wrapped == s.wrapped
  }

  /** A call that fails changes nothing, and says why. */
  ghost predicate Failing(s: Model, s': Model, x: Slot, e: Errno, failed: bool)
  {
    Stays(s, s') && (e == Invalid <==> x == Retry) && (e == NoMem ==> failed)
  }

  /** A store shows what was there before.  NULL reserves the index where free indices are tracked and removes it
      elsewhere; the marks of the index stay, but for the free mark, unless it is removed. */
  ghost predicate StoreStep(s: Model, s': Model, i: nat, x: Slot, r: Reply, trackFree: bool, failed: bool)
    requires |s.tags| == MAX_MARKS
  {
    match r
    case Entry(was) =>
      && was == Seen(s, i) && Only(s, s', i) && s'.wrapped == s.wrapped && (x.Stored? || x == Empty)
      && (x.Stored? ==> Holds(s', i, x.entry))
      && (x == Empty ==> if trackFree then Holds(s', i, Zero) else i !in s'.contents)
      && forall m :: 0 <= m < MAX_MARKS ==>
           (i in s'.tags[m] <==> i in s.tags[m] && !(x == Empty && !trackFree) && !(trackFree && m == FREE_MARK))
    case Err(e) => Failing(s, s', x, e, failed) && e != Busy
    case _ => false
  }

  /** Erasing removes the index with all its marks and makes it free; an implied reservation of index 0 stays. */
  ghost predicate EraseStep(s: Model, s': Model, i: nat, r: Reply, trackFree: bool)
    requires |s.tags| == MAX_MARKS
  {
    && r == Entry(Seen(s, i))
    && if i == 0 && Hidden(s) then Stays(s, s')
       else
         && Only(s, s', i) && s'.wrapped == s.wrapped && i !in s'.contents
         && forall m :: 0 <= m < MAX_MARKS ==> (i in s'.tags[m] <==> trackFree && m == FREE_MARK)
  }

  /** An exchange takes place if the entry that shows is the one wanted.  An entry over another one keeps every mark,
      over nothing it takes the free mark; NULL over an entry removes it like an erasure. */
  ghost predicate ExchangeStep(s: Model, s': Model, i: nat, want: Slot, x: Slot, r: Reply, trackFree: bool,
                               failed: bool)
    requires |s.tags| == MAX_MARKS
  {
    match r
    case Entry(was) =>
      && was == Shows(s, i) && (x == Empty || x.Stored?)
      && if was == want && (was != Empty || x != Empty) then
           && Only(s, s', i) && s'.wrapped == s.wrapped
           && (if x.Stored? then Holds(s', i, x.entry) else i !in s'.contents)
           && forall m :: 0 <= m < MAX_MARKS ==>
                (i in s'.tags[m] <==>
                   if x == Empty then trackFree && m == FREE_MARK
                   else i in s.tags[m] && !(trackFree && m == FREE_MARK && was == Empty))
         else Stays(s, s')
    case Err(e) => Failing(s, s', x, e, failed) && e != Busy
    case _ => false
  }

  /** Index `i` now holds the entry, or is reserved if there is none, and is not free; nothing else has changed. */
  ghost predicate Taken(s: Model, s': Model, i: nat, x: Slot, trackFree: bool)
  {
    && Only(s, s', i) && (x.Stored? || x == Empty) && Holds(s', i, if x.Stored? then x.entry else Zero)
    && forall m :: 0 <= m < MAX_MARKS ==> (i in s'.tags[m] <==> i in s.tags[m] && !(trackFree && m == FREE_MARK))
  }

  ghost predicate InsertStep(s: Model, s': Model, i: nat, x: Slot, r: Reply, trackFree: bool, failed: bool)
    requires |s.tags| == MAX_MARKS
  {
    match r
    case Finished => Shows(s, i) == Empty && Taken(s, s', i, x, trackFree) && s'.wrapped == s.wrapped
    case Err(e) => Failing(s, s', x, e, failed) && (e == Busy ==> Shows(s, i) != Empty)
    case _ => false
  }

  ghost predicate Refusing(s: Model, s': Model, x: Slot, min: nat, max: nat, e: Errno, trackFree: bool, failed: bool)
  {
    && Stays(s, s') && (e == Invalid <==> x == Retry || !trackFree) && (e == NoMem ==> failed)
    && (e == Busy ==> forall i :: min <= i <= max ==> i in s.contents)
  }

  /** The smallest id of the range that is not in use is taken. */
  ghost predicate AllocStep(s: Model, s': Model, x: Slot, min: nat, max: nat, r: Reply, trackFree: bool, failed: bool)
    requires |s.tags| == MAX_MARKS
  {
    match r
    case Id(id) =>
      && min <= id <= max && id !in s.contents && (forall i :: min <= i < id ==> i in s.contents)
      && trackFree && Taken(s, s', id, x, trackFree) && s'.wrapped == s.wrapped
    case Err(e) => Refusing(s, s', x, min, max, e, trackFree, failed)
    case _ => false
  }

  /** The first free id from where the last search ended is taken, or, when there is none or memory has run short, the
      first from the bottom of the range.  The reply says where to go on and whether the ids have started over. */
  ghost predicate CycleStep(s: Model, s': Model, x: Slot, min: nat, max: nat, next: nat, r: Reply, trackFree: bool,
                            failed: bool)
    requires |s.tags| == MAX_MARKS
  {
    match r
    case Cycled(id, next', again) =>
      var from := if min < next then next else min;
      && trackFree && Taken(s, s', id, x, trackFree)
      && id <= max && id !in s.contents && next' == (id + 1) % 0x1_0000_0000
      && (|| (from <= id && (forall i :: from <= i < id ==> i in s.contents)
              && again == s.wrapped && s'.wrapped == (id == 0xFFFF_FFFF))
          || (min <= id && min < from && (forall i :: min <= i < id ==> i in s.contents)
              && (failed || forall i :: from <= i <= max ==> i in s.contents)
              && again && s'.wrapped == (s.wrapped || id == 0xFFFF_FFFF)))
    case Err(e) => Refusing(s, s', x, min, max, e, trackFree, failed)
    case _ => false
  }

  /** The first entry in the range that a user can see, and that carries the mark if one is asked for. */
  ghost predicate First(s: Model, f: Filter, start: nat, max: nat, r: Reply)
    requires r.Hit? && (f.WithMark? ==> f.m < |s.tags|)
  {
    && (r.slot != Empty ==>
          && start <= r.at <= max && Seen(s, r.at) == r.slot && (f.WithMark? ==> r.at in s.tags[f.m]))
    && forall i :: i in s.contents && start <= i <= max && (r.slot != Empty ==> i < r.at) ==>
         s.contents[i] == Zero || (f.WithMark? && i !in s.tags[f.m])
  }

  /** One operation on the model, from `s` to `s'` with this reply; `failed` allows for a lack of memory. */
  ghost predicate Step(s: Model, s': Model, op: Op, r: Reply, trackFree: bool, failed: bool)
  {
    |s.tags| == MAX_MARKS &&
    match op
    case StoreAt(i, x) => StoreStep(s, s', i, x, r, trackFree, failed)
    case EraseAt(i) => EraseStep(s, s', i, r, trackFree)
    case ExchangeAt(i, want, x) => ExchangeStep(s, s', i, want, x, r, trackFree, failed)
    case InsertAt(i, x) => InsertStep(s, s', i, x, r, trackFree, failed)
    case AllocIn(x, min, max) => AllocStep(s, s', x, min, max, r, trackFree, failed)
    case CycleIn(x, min, max, next) => CycleStep(s, s', x, min, max, next, r, trackFree, failed)
    case SetMarkAt(i, m) =>
      && r == Finished && s'.contents == s.contents && s'.wrapped == s.wrapped && s'.bare == s.bare
      && |s'.tags| == MAX_MARKS
      && forall n, j: nat :: 0 <= n < MAX_MARKS ==>
           (j in s'.tags[n] <==> j in s.tags[n] || (n == m && j == i && Shows(s, i) != Empty))
    case ClearMarkAt(i, m) =>
      && r == Finished && s'.contents == s.contents && s'.wrapped == s.wrapped && s'.bare == s.bare
      && |s'.tags| == MAX_MARKS
      && forall n, j: nat :: 0 <= n < MAX_MARKS ==>
           (j in s'.tags[n] <==> j in s.tags[n] && !(n == m && j == i && !(i == 0 && Hidden(s))))
    case LoadAt(i) => r == Entry(Seen(s, i)) && s' == s
    case GetMarkAt(i, m) => m < MAX_MARKS && r == Flag(i in s.tags[m]) && s' == s
    case FindFrom(i, max, f) =>
      && r.Hit? && s' == s && (r.slot == Empty ==> r.at == i)
      && (f.WithMark? ==> f.m < MAX_MARKS) && First(s, f, i, max, r)
    case FindPast(i, max, f) =>
      && r.Hit? && s' == s && (r.slot == Empty ==> r.at == i)
      && (f.WithMark? ==> f.m < MAX_MARKS) && First(s, f, i + 1, max, r)
  }

  /** The states the model goes through under these operations with these replies; `failed` says of each call whether
      memory ran short in it. */
  ghost predicate Trace(states: seq<Model>, ops: seq<Op>, replies: seq<Reply>, k: Setup, failed: seq<bool>)
  {
    && |states| == |ops| + 1 == |replies| + 1 == |failed| + 1
    && (forall j :: 0 <= j < |states| ==> Sane(states[j], k))
    && forall j :: 0 <= j < |ops| ==> Step(states[j], states[j + 1], ops[j], replies[j], k.trackFree, failed[j])
  }

  lemma TraceStep(states: seq<Model>, ops: seq<Op>, k: nat, replies: seq<Reply>, r: Reply, next: Model, setup: Setup,
                  failed: seq<bool>, short: bool)
    requires k < |ops| && Trace(states, ops[..k], replies, setup, failed) && Sane(next, setup)
    requires Step(states[k], next, ops[k], r, setup.trackFree, short)
    ensures Trace(states + [next], ops[..k + 1], replies + [r], setup, failed + [short])
  {
    hide Step, Sane;
    var after := states + [next];
    forall j | 0 <= j < k + 1
      ensures Step(after[j], after[j + 1], ops[..k + 1][j], (replies + [r])[j], setup.trackFree, (failed + [short])[j])
    {
      if j < k {
        assert ops[..k][j] == ops[j];
        assert Step(states[j], states[j + 1], ops[..k][j], replies[j], setup.trackFree, failed[j]);
      }
    }
  }

  /** An operation that stores nothing but plain entries. */
  predicate Plain(op: Op, trackFree: bool)
  {
    match op
    case StoreAt(i, x) => x != Stored(Zero) && (x == Empty ==> !trackFree)
    case ExchangeAt(i, want, x) => x != Stored(Zero)
    case InsertAt(i, x) => x != Empty && x != Stored(Zero)
    case AllocIn(x, min, max) => x != Empty && x != Stored(Zero)
    case CycleIn(x, min, max, next) => x != Empty && x != Stored(Zero)
    case _ => true
  }

  /** A call that leaves it to the contents alone what the tree looks like: it stores no reserved entry, and memory does
      not run short in it for good. */
  predicate Tidy(op: Op, r: Reply, failed: bool, trackFree: bool)
  {
    Plain(op, trackFree) && r != Err(NoMem) && (op.CycleIn? && failed ==> r == Err(Invalid))
  }

  ghost function ModelOf(xa: XArray): Model
    reads xa`contents, xa`tags, xa`head, xa`allocWrapped
  {
    Model(xa.contents, xa.tags, xa.head == Empty, xa.allocWrapped)
  }

  ghost function SetupOf(xa: XArray): Setup
  {
    Setup(xa.trackFree, xa.zeroBusy)
  }

  /** What a call asks of the array beside being legal. */
  ghost predicate Callable(xa: XArray, op: Op)
    reads xa, xa.nodes.Values
  {
    Allocating(xa) && Legal(op, xa.trackFree) && Allowed(op, xa.zeroBusy, xa.head == Empty, 0 !in xa.contents)
  }

  /** What the array shows is what its model shows. */
  lemma ModelFacts(xa: XArray, i: nat)
    requires xa.Valid()
    ensures Sane(ModelOf(xa), SetupOf(xa)) && Shows(ModelOf(xa), i) == xa.Raw(i)
    ensures Hidden(ModelOf(xa)) <==> xa.Implied()
    ensures xa.zeroBusy ==> xa.trackFree
    ensures xa.Implied() ==> xa.zeroBusy
    ensures xa.head == Empty ==> xa.Raw(i) == Empty
  {
    hide XArray.Valid;
    xa.RawFacts(i);
    xa.HeadParts();
    xa.TagCount();
    xa.FlagRule();
    if xa.head == Empty {
      forall j | j in xa.contents
        ensures j == 0
      {
        xa.InWord(j);
        UpStart(j);
      }
      if 0 in xa.contents {
        assert xa.contents == map[0 := Zero];
      } else {
        assert xa.contents == map[];
      }
    }
  }

  /** The free flag of an array without a head tells whether index 0 has been erased. */
  lemma FlagTells(xa: XArray)
    requires xa.Valid() && FreeExact(xa.contents, xa.tags) && xa.head == Empty
    ensures |xa.flags| == MAX_MARKS && (xa.flags[FREE_MARK] <==> 0 !in xa.contents)
  {
    hide XArray.Valid;
    xa.HeadParts();
    xa.HeadFlag(FREE_MARK);
    xa.FlagRule();
    AnyBottom(xa.tags[FREE_MARK], 0);
  }

  lemma StoreDone(s: Model, s': Model, i: nat, x: Slot, trackFree: bool, failed: bool)
    requires |s.tags| == MAX_MARKS == |s'.tags| && s'.wrapped == s.wrapped && (x.Stored? || x == Empty)
    requires x.Stored? ==> s'.contents == s.contents[i := x.entry]
    requires x == Empty ==> s'.contents == if trackFree then s.contents[i := Zero] else s.contents - {i}
    requires forall m, j: nat :: 0 <= m < 3 ==>
      (j in s'.tags[m] <==>
         j in s.tags[m] && (j == i ==> (x == Empty ==> trackFree) && !(trackFree && m == 0)))
    ensures StoreStep(s, s', i, x, Entry(Seen(s, i)), trackFree, failed)
  {
  }

  lemma StoreFails(s: Model, s': Model, i: nat, x: Slot, e: Errno, trackFree: bool, failed: bool)
    requires |s.tags| == MAX_MARKS && Failing(s, s', x, e, failed) && e != Busy
    ensures StoreStep(s, s', i, x, Err(e), trackFree, failed)
  {
  }

  lemma ExchangeDone(s: Model, s': Model, i: nat, want: Slot, x: Slot, trackFree: bool, failed: bool)
    requires |s.tags| == MAX_MARKS && (x.Stored? || x == Empty)
    requires Shows(s, i) == want && (want != Empty || x != Empty) ==>
      && s'.wrapped == s.wrapped && |s'.tags| == MAX_MARKS
      && (x.Stored? ==> s'.contents == s.contents[i := x.entry]) && (x == Empty ==> s'.contents == s.contents - {i})
      && forall m, j: nat :: 0 <= m < 3 ==>
           (j in s'.tags[m] <==>
              if j != i then j in s.tags[m]
              else if x == Empty then trackFree && m == 0
              else j in s.tags[m] && !(trackFree && m == 0 && want == Empty))
    requires !(Shows(s, i) == want && (want != Empty || x != Empty)) ==> Stays(s, s')
    ensures ExchangeStep(s, s', i, want, x, Entry(Shows(s, i)), trackFree, failed)
  {
  }

  lemma ExchangeFails(s: Model, s': Model, i: nat, want: Slot, x: Slot, e: Errno, trackFree: bool, failed: bool)
    requires |s.tags| == MAX_MARKS && Failing(s, s', x, e, failed) && e != Busy
    ensures ExchangeStep(s, s', i, want, x, Err(e), trackFree, failed)
  {
  }

  lemma TakenBy(s: Model, s': Model, i: nat, x: Slot, trackFree: bool)
    requires |s.tags| == MAX_MARKS == |s'.tags| && (x.Stored? || x == Empty)
    requires s'.contents == s.contents[i := if x.Stored? then x.entry else Zero]
    requires forall m, j: nat :: 0 <= m < 3 ==>
      (j in s'.tags[m] <==> j in s.tags[m] && !(trackFree && m == 0 && j == i))
    ensures Taken(s, s', i, x, trackFree)
  {
  }

  method CallStore(xa: XArray, i: nat, x: Slot) returns (r: Reply)
    requires Callable(xa, StoreAt(i, x))
    modifies xa, xa.nodes.Values
    ensures Allocating(xa) && fresh(xa.live - old(xa.live)) && xa.failures >= old(xa.failures)
    ensures Step(old(ModelOf(xa)), ModelOf(xa), StoreAt(i, x), r, xa.trackFree, xa.failures > old(xa.failures))
    ensures Tidy(StoreAt(i, x), r, xa.failures > old(xa.failures), xa.trackFree) && old(xa.Canonical()) ==>
      xa.Canonical()
  {
    hide XArray.Valid, XArray.Canonical, XArray.Raw, FreeExact, TagsAfter, StoreStep;
    ModelFacts(xa, i);
    var got := Store(xa, i, x);
    if got.Failed? {
      StoreFails(old(ModelOf(xa)), ModelOf(xa), i, x, got.e, xa.trackFree, xa.failures > old(xa.failures));
      return Err(got.e);
    }
    StoreDone(old(ModelOf(xa)), ModelOf(xa), i, x, xa.trackFree, xa.failures > old(xa.failures));
    if xa.trackFree {
      FreeWritten(old(xa.contents), old(xa.tags), i, Effective(x, xa.trackFree));
    }
    return Entry(got.slot);
  }

  method CallErase(xa: XArray, i: nat) returns (r: Reply)
    requires Callable(xa, EraseAt(i))
    modifies xa, xa.nodes.Values
    ensures Allocating(xa) && fresh(xa.live - old(xa.live)) && xa.failures == old(xa.failures)
    ensures Step(old(ModelOf(xa)), ModelOf(xa), EraseAt(i), r, xa.trackFree, false)
    ensures old(xa.Canonical()) ==> xa.Canonical()
  {
    hide XArray.Valid, XArray.Canonical, XArray.Raw, FreeExact, TagsAfter;
    ModelFacts(xa, i);
    var got := Erase(xa, i);
    if xa.trackFree {
      FreeWritten(old(xa.contents), old(xa.tags), i, Empty);
    }
    return Entry(got.slot);
  }

  method CallExchange(xa: XArray, i: nat, want: Slot, x: Slot) returns (r: Reply)
    requires Callable(xa, ExchangeAt(i, want, x))
    modifies xa, xa.nodes.Values
    ensures Allocating(xa) && fresh(xa.live - old(xa.live)) && xa.failures >= old(xa.failures)
    ensures Step(old(ModelOf(xa)), ModelOf(xa), ExchangeAt(i, want, x), r, xa.trackFree, xa.failures > old(xa.failures))
    ensures Tidy(ExchangeAt(i, want, x), r, xa.failures > old(xa.failures), xa.trackFree) && old(xa.Canonical()) ==>
      xa.Canonical()
  {
    hide XArray.Valid, XArray.Canonical, XArray.Raw, FreeExact, TagsExchanged, ExchangeStep;
    ModelFacts(xa, i);
    var got := CmpxchgRaw(xa, i, want, x);
    if got.Failed? {
      ExchangeFails(old(ModelOf(xa)), ModelOf(xa), i, want, x, got.e, xa.trackFree, xa.failures > old(xa.failures));
      return Err(got.e);
    }
    ExchangeDone(old(ModelOf(xa)), ModelOf(xa), i, want, x, xa.trackFree, xa.failures > old(xa.failures));
    if xa.trackFree {
      FreeExchanged(old(xa.contents), old(xa.tags), i, got.slot, x);
    }
    return Entry(got.slot);
  }

  method CallInsert(xa: XArray, i: nat, x: Slot) returns (r: Reply)
    requires Callable(xa, InsertAt(i, x))
    modifies xa, xa.nodes.Values
    ensures Allocating(xa) && fresh(xa.live - old(xa.live)) && xa.failures >= old(xa.failures)
    ensures Step(old(ModelOf(xa)), ModelOf(xa), InsertAt(i, x), r, xa.trackFree, xa.failures > old(xa.failures))
    ensures Tidy(InsertAt(i, x), r, xa.failures > old(xa.failures), xa.trackFree) && old(xa.Canonical()) ==>
      xa.Canonical()
  {
    hide XArray.Valid, XArray.Canonical, XArray.Raw, FreeExact, TagsAfter, Taken;
    ModelFacts(xa, i);
    var got := InsertEntry(xa, i, x);
    if got.Refused? {
      return Err(got.e);
    }
    TakenBy(old(ModelOf(xa)), ModelOf(xa), i, x, xa.trackFree);
    if xa.trackFree {
      FreeWritten(old(xa.contents), old(xa.tags), i, if x == Empty then Stored(Zero) else x);
    }
    return Finished;
  }

  method CallAlloc(xa: XArray, x: Slot, min: nat, max: nat) returns (r: Reply)
    requires Callable(xa, AllocIn(x, min, max))
    modifies xa, xa.nodes.Values
    ensures Allocating(xa) && fresh(xa.live - old(xa.live)) && xa.failures >= old(xa.failures)
    ensures Step(old(ModelOf(xa)), ModelOf(xa), AllocIn(x, min, max), r, xa.trackFree, xa.failures > old(xa.failures))
    ensures Tidy(AllocIn(x, min, max), r, xa.failures > old(xa.failures), xa.trackFree) && old(xa.Canonical()) ==>
      xa.Canonical()
  {
    hide XArray.Valid, XArray.Canonical, FreeExact, TagsAfter, Taken, LeastFree, AllTaken;
    ReadyTags(xa);
    var got := Alloc(xa, x, min, max);
    match got
    case Denied(e) => return Err(e);
    case Granted(id) =>
      TakenBy(old(ModelOf(xa)), ModelOf(xa), id, x, xa.trackFree);
      return Id(id);
  }

  method CallCycle(xa: XArray, x: Slot, min: nat, max: nat, next: nat) returns (r: Reply)
    requires Callable(xa, CycleIn(x, min, max, next))
    modifies xa, xa.nodes.Values
    ensures Allocating(xa) && fresh(xa.live - old(xa.live)) && xa.failures >= old(xa.failures)
    ensures Step(old(ModelOf(xa)), ModelOf(xa), CycleIn(x, min, max, next), r,
                 xa.trackFree, xa.failures > old(xa.failures))
    ensures Tidy(CycleIn(x, min, max, next), r, xa.failures > old(xa.failures), xa.trackFree) && old(xa.Canonical()) ==>
      xa.Canonical()
  {
    hide XArray.Valid, XArray.Canonical, FreeExact, TagsAfter, Taken, LeastFree, AllTaken;
    ReadyTags(xa);
    var got, next' := AllocCyclic(xa, x, min, max, next);
    match got
    case Failure(e) => return Err(e);
    case Issued(id, wrapped) =>
      TakenBy(old(ModelOf(xa)), ModelOf(xa), id, x, xa.trackFree);
      return Cycled(id, next', wrapped);
  }

  /** A call that changes marks only. */
  method CallMark(xa: XArray, i: nat, m: nat, set_: bool) returns (r: Reply)
    requires Callable(xa, if set_ then SetMarkAt(i, m) else ClearMarkAt(i, m))
    modifies xa`flags, xa`tags, xa.nodes.Values`marks
    ensures Allocating(xa)
    ensures Step(old(ModelOf(xa)), ModelOf(xa), if set_ then SetMarkAt(i, m) else ClearMarkAt(i, m), r,
                 xa.trackFree, false)
    ensures old(xa.Canonical()) ==> xa.Canonical()
  {
    hide XArray.Valid, XArray.Canonical, XArray.Raw;
    ModelFacts(xa, i);
    assert UserMark(m, xa.trackFree) && i < WORD;
    if set_ {
      SetMark(xa, i, m);
    } else {
      ClearMark(xa, i, m);
    }
    return Finished;
  }

  /** A call that only looks. */
  method CallQuery(xa: XArray, op: Op) returns (r: Reply)
    requires Callable(xa, op)
    requires op.LoadAt? || op.GetMarkAt? || op.FindFrom? || op.FindPast?
    ensures Allocating(xa) && Step(ModelOf(xa), ModelOf(xa), op, r, xa.trackFree, false)
  {
    hide XArray.Valid, NoMatch, Matches;
    xa.TagCount();
    match op
    case LoadAt(i) =>
      var got := Load(xa, i);
      r := Entry(got);
    case GetMarkAt(i, m) =>
      var b := GetMark(xa, i, m);
      r := Flag(b);
    case FindFrom(i, max, f) =>
      var got, at := FindEntry(xa, i, max, f);
      r := Hit(got, at);
    case FindPast(i, max, f) =>
      var got, at := FindAfter(xa, i, max, f);
      r := Hit(got, at);
  }

  /** One call of the interface. */
  method Call(xa: XArray, op: Op) returns (r: Reply)
    requires Callable(xa, op)
    modifies xa, xa.nodes.Values
    ensures Allocating(xa) && fresh(xa.live - old(xa.live)) && xa.failures >= old(xa.failures)
    ensures Step(old(ModelOf(xa)), ModelOf(xa), op, r, xa.trackFree, xa.failures > old(xa.failures))
    ensures Tidy(op, r, xa.failures > old(xa.failures), xa.trackFree) && old(xa.Canonical()) ==> xa.Canonical()
  {
    hide Step, Callable, Allocating, XArray.Canonical;
    match op
    case StoreAt(i, x) => r := CallStore(xa, i, x);
    case EraseAt(i) => r := CallErase(xa, i);
    case ExchangeAt(i, want, x) => r := CallExchange(xa, i, want, x);
    case InsertAt(i, x) => r := CallInsert(xa, i, x);
    case AllocIn(x, min, max) => r := CallAlloc(xa, x, min, max);
    case CycleIn(x, min, max, next) => r := CallCycle(xa, x, min, max, next);
    case SetMarkAt(i, m) => r := CallMark(xa, i, m, true);
    case ClearMarkAt(i, m) => r := CallMark(xa, i, m, false);
    case _ => r := CallQuery(xa, op);
  }

  /** Whether the next call goes right, from the flags and the head. */
  method Admits(xa: XArray, op: Op) returns (b: bool)
    requires Allocating(xa) && Legal(op, xa.trackFree)
    ensures b <==> Callable(xa, op)
  {
    hide XArray.Valid, Legal, FreeExact;
    if !xa.zeroBusy || xa.head != Empty {
      return true;
    }
    xa.FlagRule();
    FlagTells(xa);
    return Allowed(op, true, true, xa.flags[FREE_MARK]);
  }

  lemma NodesOut(xa: XArray)
    requires Allocating(xa)
    ensures xa.live == xa.nodes.Values && Sane(ModelOf(xa), SetupOf(xa))
  {
    ModelFacts(xa, 0);
  }

  /** Refinement: any run of the interface is a run of the plain model, up to the first call that does not go right. */
  method Run(xa: XArray, ops: seq<Op>) returns (replies: seq<Reply>, ghost states: seq<Model>, ghost failed: seq<bool>)
    requires Allocating(xa) && forall k :: 0 <= k < |ops| ==> Legal(ops[k], xa.trackFree)
    modifies xa, xa.nodes.Values
    ensures Allocating(xa) && fresh(xa.live - old(xa.live)) && xa.failures >= old(xa.failures)
    ensures |replies| <= |ops| && Trace(states, ops[..|replies|], replies, SetupOf(xa), failed)
    ensures true in failed <==> xa.failures > old(xa.failures)
    ensures states[0] == old(ModelOf(xa)) && states[|replies|] == ModelOf(xa)
    ensures |replies| < |ops| ==>
      var s := states[|replies|]; xa.zeroBusy && s.bare && !Allowed(ops[|replies|], true, true, 0 !in s.contents)
    ensures (forall k :: 0 <= k < |replies| ==> Tidy(ops[k], replies[k], failed[k], xa.trackFree)) ==>
      old(xa.Canonical()) ==> xa.Canonical()
  {
    hide XArray.Valid, XArray.Canonical, FreeExact, Step, Legal, Tidy, Allocating, Sane;
    replies, states, failed := [], [ModelOf(xa)], [];
    NodesOut(xa);
    for k := 0 to |ops|
      invariant Allocating(xa) && fresh(xa.live - old(xa.live)) && xa.failures >= old(xa.failures)
      invariant fresh(xa.nodes.Values - old(xa.nodes.Values))
      invariant |replies| == k && |states| == k + 1
      invariant Trace(states, ops[..k], replies, SetupOf(xa), failed)
      invariant true in failed <==> xa.failures > old(xa.failures)
      invariant states[0] == old(ModelOf(xa)) && states[k] == ModelOf(xa)
      invariant (forall j :: 0 <= j < k ==> Tidy(ops[j], replies[j], failed[j], xa.trackFree)) ==>
          old(xa.Canonical()) ==> xa.Canonical()
    {
      NodesOut(xa);
      var right := Admits(xa, ops[k]);
      if !right {
        return;
      }
      ghost var failures := xa.failures;
      var r := Call(xa, ops[k]);
      NodesOut(xa);
      TraceStep(states, ops, k, replies, r, ModelOf(xa), SetupOf(xa), failed, xa.failures > failures);
      replies, states, failed := replies + [r], states + [ModelOf(xa)], failed + [xa.failures > failures];
    }
    assert ops[..|ops|] == ops;
  }

  /** Without a cyclic allocation that falls back, a run is tidy when no reply says that memory has run short. */
  lemma TidyRun(states: seq<Model>, ops: seq<Op>, replies: seq<Reply>, failed: seq<bool>)
    requires Trace(states, ops, replies, Setup(false, false), failed) && Err(NoMem) !in replies
    requires forall k :: 0 <= k < |ops| ==> Plain(ops[k], false)
    ensures forall k :: 0 <= k < |ops| ==> Tidy(ops[k], replies[k], failed[k], false)
  {
    forall k | 0 <= k < |ops|
      ensures Tidy(ops[k], replies[k], failed[k], false)
    {
      assert Step(states[k], states[k + 1], ops[k], replies[k], false, failed[k]);
    }
  }

  /** Two runs on new arrays that end with the same entries end with the same tree. */
  method TwoHistories(ops: seq<Op>, ops': seq<Op>)
      returns (a: XArray, b: XArray, replies: seq<Reply>, replies': seq<Reply>)
    requires forall k :: 0 <= k < |ops| ==> Legal(ops[k], false) && Plain(ops[k], false)
    requires forall k :: 0 <= k < |ops'| ==> Legal(ops'[k], false) && Plain(ops'[k], false)
    ensures |replies| == |ops| && |replies'| == |ops'|
    ensures Err(NoMem) !in replies && Err(NoMem) !in replies' && a.contents == b.contents ==> SameShape(a, b)
  {
    hide XArray.Valid, XArray.Canonical, Step, Legal, Plain, Tidy, SameShape;
    ghost var states, failed;
    a := new XArray(false, false);
    replies, states, failed := Run(a, ops);
    assert ops[..|ops|] == ops;
    if Err(NoMem) !in replies {
      TidyRun(states, ops, replies, failed);
    }
    b := new XArray(false, false);
    replies', states, failed := Run(b, ops');
    assert ops'[..|ops'|] == ops';
    if Err(NoMem) !in replies' {
      TidyRun(states, ops', replies', failed);
    }
    if Err(NoMem) !in replies && Err(NoMem) !in replies' && a.contents == b.contents {
      SameContentsSameShape(a, b);
    }
  }

  /** The call may change what is stored at the index. */
  predicate Touches(op: Op, r: Reply, i: nat)
  {
    match op
    case StoreAt(j, x) => j == i
    case EraseAt(j) => j == i
    case ExchangeAt(j, want, x) => j == i
    case InsertAt(j, x) => j == i
    case AllocIn(x, min, max) => r == Id(i)
    case CycleIn(x, min, max, next) => r.Cycled? && r.turn == i
    case _ => false
  }

  /** The call may take a user's mark off the index: it clears it, or it puts NULL there. */
  predicate Unmarks(op: Op, i: nat, m: nat, trackFree: bool)
  {
    match op
    case ClearMarkAt(j, n) => j == i && n == m
    case EraseAt(j) => j == i
    case StoreAt(j, x) => j == i && x == Empty && !trackFree
    case ExchangeAt(j, want, x) => j == i && x == Empty
    case _ => false
  }

  lemma StepElsewhere(s: Model, s': Model, op: Op, r: Reply, trackFree: bool, failed: bool, i: nat)
    requires Step(s, s', op, r, trackFree, failed) && !Touches(op, r, i)
    ensures Seen(s', i) == Seen(s, i) && (i in s'.contents <==> i in s.contents)
  {
    hide First;
  }

  lemma StepMarks(s: Model, s': Model, op: Op, r: Reply, trackFree: bool, failed: bool, i: nat, m: nat)
    requires Step(s, s', op, r, trackFree, failed) && UserMark(m, trackFree)
    ensures |s.tags| == |s'.tags| == MAX_MARKS
    ensures !Unmarks(op, i, m, trackFree) && i in s.tags[m] ==> i in s'.tags[m]
    ensures op != SetMarkAt(i, m) && i !in s.tags[m] ==> i !in s'.tags[m]
  {
    hide First;
  }

  lemma {:induction false} Stable(states: seq<Model>, ops: seq<Op>, replies: seq<Reply>, k: Setup, failed: seq<bool>,
                                  i: nat, from: nat, to: nat)
    requires Trace(states, ops, replies, k, failed) && from <= to <= |ops|
    requires forall e :: from <= e < to ==> !Touches(ops[e], replies[e], i)
    ensures Seen(states[to], i) == Seen(states[from], i)
    decreases |ops| - from
  {
    hide Step;
    if from < to {
      assert Step(states[from], states[from + 1], ops[from], replies[from], k.trackFree, failed[from]);
      StepElsewhere(states[from], states[from + 1], ops[from], replies[from], k.trackFree, failed[from], i);
      Stable(states, ops, replies, k, failed, i, from + 1, to);
    }
  }

  /** What a successful call has left at index `i`, if it was a store, an erasure, an insertion or an allocation. */
  predicate Leaves(op: Op, r: Reply, i: nat, e: Entry)
  {
    match op
    case StoreAt(j, x) => j == i && x == Stored(e) && r.Entry?
    case ExchangeAt(j, want, x) => j == i && x == Stored(e) && r == Entry(want)
    case InsertAt(j, x) => j == i && x == Stored(e) && r == Finished
    case AllocIn(x, min, max) => x == Stored(e) && r == Id(i)
    case CycleIn(x, min, max, next) => x == Stored(e) && r.Cycled? && r.turn == i
    case _ => false
  }

  /** Over any run a load returns the very entry that was last put at its index, whatever has been done elsewhere. */
  lemma LoadsBack(states: seq<Model>, ops: seq<Op>, replies: seq<Reply>, k: Setup, failed: seq<bool>,
                  i: nat, e: Entry, put: nat, load: nat)
    requires Trace(states, ops, replies, k, failed) && put < load < |ops| && e != Zero
    requires Leaves(ops[put], replies[put], i, e) && ops[load] == LoadAt(i)
    requires forall c :: put < c < load ==> !Touches(ops[c], replies[c], i)
    ensures replies[load] == Entry(Stored(e))
  {
    assert Step(states[put], states[put + 1], ops[put], replies[put], k.trackFree, failed[put]);
    assert Step(states[load], states[load + 1], ops[load], replies[load], k.trackFree, failed[load]);
    Stable(states, ops, replies, k, failed, i, put + 1, load);
  }

  /** After an erasure of its index it returns nothing. */
  lemma LoadsNothing(states: seq<Model>, ops: seq<Op>, replies: seq<Reply>, k: Setup, failed: seq<bool>,
                     i: nat, erase: nat, load: nat)
    requires Trace(states, ops, replies, k, failed) && erase < load < |ops|
    requires ops[erase] == EraseAt(i) && ops[load] == LoadAt(i)
    requires forall c :: erase < c < load ==> !Touches(ops[c], replies[c], i)
    ensures replies[load] == Entry(Empty)
  {
    assert Step(states[erase], states[erase + 1], ops[erase], replies[erase], k.trackFree, failed[erase]);
    assert Step(states[load], states[load + 1], ops[load], replies[load], k.trackFree, failed[load]);
    Stable(states, ops, replies, k, failed, i, erase + 1, load);
    assert Sane(states[erase], k);
  }

  lemma {:induction false} MarkStays(states: seq<Model>, ops: seq<Op>, replies: seq<Reply>, k: Setup, failed: seq<bool>,
                                     i: nat, m: nat, from: nat, to: nat)
    requires Trace(states, ops, replies, k, failed) && from <= to <= |ops| && UserMark(m, k.trackFree)
    requires |states[from].tags| == MAX_MARKS
    ensures |states[to].tags| == MAX_MARKS
    ensures i in states[from].tags[m] && (forall c :: from <= c < to ==> !Unmarks(ops[c], i, m, k.trackFree)) ==>
      i in states[to].tags[m]
    ensures i !in states[from].tags[m] && (forall c :: from <= c < to ==> ops[c] != SetMarkAt(i, m)) ==>
      i !in states[to].tags[m]
    decreases |ops| - from
  {
    hide Step;
    if from < to {
      assert Step(states[from], states[from + 1], ops[from], replies[from], k.trackFree, failed[from]);
      StepMarks(states[from], states[from + 1], ops[from], replies[from], k.trackFree, failed[from], i, m);
      MarkStays(states, ops, replies, k, failed, i, m, from + 1, to);
    }
  }

  /** Over any run a user's mark that was set on an index with an entry is found there until it is cleared or NULL is
      put at the index, and one that is not there comes only by being set. */
  lemma MarksBack(states: seq<Model>, ops: seq<Op>, replies: seq<Reply>, k: Setup, failed: seq<bool>,
                  i: nat, m: nat, call: nat, get: nat)
    requires Trace(states, ops, replies, k, failed) && call < get < |ops| && UserMark(m, k.trackFree)
    requires ops[get] == GetMarkAt(i, m)
    ensures ops[call] == SetMarkAt(i, m) && Shows(states[call], i) != Empty ==>
      (forall c :: call < c < get ==> !Unmarks(ops[c], i, m, k.trackFree)) ==> replies[get] == Flag(true)
    ensures ops[call] == ClearMarkAt(i, m) && (i == 0 ==> !Hidden(states[call])) ==>
      (forall c :: call < c < get ==> ops[c] != SetMarkAt(i, m)) ==> replies[get] == Flag(false)
  {
    hide First;
    assert Step(states[call], states[call + 1], ops[call], replies[call], k.trackFree, failed[call]);
    assert Step(states[get], states[get + 1], ops[get], replies[get], k.trackFree, failed[get]);
    StepMarks(states[call], states[call + 1], ops[call], replies[call], k.trackFree, failed[call], i, m);
    MarkStays(states, ops, replies, k, failed, i, m, call + 1, get);
  }

  /** The operation has made an id free again. */
  ghost predicate Clears(s: Model, op: Op, r: Reply, id: nat)
  {
    match op
    case EraseAt(i) => i == id && Shows(s, i) != Empty
    case ExchangeAt(i, want, x) => i == id && x == Empty && r == Entry(want) && want != Empty
    case _ => false
  }

  lemma {:induction false} Kept(states: seq<Model>, ops: seq<Op>, replies: seq<Reply>, k: Setup, failed: seq<bool>,
                                id: nat, from: nat, to: nat)
    requires k.trackFree && Trace(states, ops, replies, k, failed) && from <= to <= |ops| && id in states[from].contents
    requires forall e :: from <= e < to ==> !Clears(states[e], ops[e], replies[e], id)
    ensures id in states[to].contents
    decreases |ops| - from
  {
    if from < to {
      assert Step(states[from], states[from + 1], ops[from], replies[from], true, failed[from]);
      Kept(states, ops, replies, k, failed, id, from + 1, to);
    }
  }

  /** The operation hands out this id. */
  predicate Issues(op: Op, r: Reply, id: nat)
  {
    (op.AllocIn? && r == Id(id)) || (op.CycleIn? && r.Cycled? && r.turn == id)
  }

  /** Over any run an id is never handed out a second time, by either form, unless it has been erased in between. */
  lemma NeverReissued(states: seq<Model>, ops: seq<Op>, replies: seq<Reply>, k: Setup, failed: seq<bool>,
                      id: nat, first: nat, second: nat)
    requires k.trackFree && Trace(states, ops, replies, k, failed) && first < second < |ops|
    requires Issues(ops[first], replies[first], id) && Issues(ops[second], replies[second], id)
    ensures exists e :: first < e < second && Clears(states[e], ops[e], replies[e], id)
  {
    assert Step(states[first], states[first + 1], ops[first], replies[first], true, failed[first]);
    assert Step(states[second], states[second + 1], ops[second], replies[second], true, failed[second]);
    if forall e :: first < e < second ==> !Clears(states[e], ops[e], replies[e], id) {
      Kept(states, ops, replies, k, failed, id, first + 1, second);
    }
  }
}
