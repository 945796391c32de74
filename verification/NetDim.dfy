/**
 Dynamic interrupt moderation: a walk over five profiles that turns when things get worse, parks when it has found a
 top, and rests when it is tired.
 */
module NetDims {

  const PROFILES: nat := 5
  const EVENTS: nat := 64
  const ULONG: nat := 0x1_0000_0000_0000_0000

  datatype Tune = ParkingOnTop | ParkingTired | GoingRight | GoingLeft

  datatype Outcome = Worse | Same | Better

  datatype StepResult = Stepped | TooTired | OnEdge

  /** Measured rates; whatever they are, every property below holds. */
  datatype Stats = Stats(ppms: int, bpms: int, epms: int)

  datatype State = State(ix: nat, tune: Tune, right: nat, left: nat, tired: nat, prev: Stats)

  /** A C int as an unsigned long. */
  function Unsigned(x: int): nat { x % ULONG }

  function Abs(x: int): nat { if x < 0 then -x else x }

  /** IS_SIGNIFICANT_DIFF: more than ten percent. */
  predicate Significant(val: int, ref: int)
  {
    Unsigned(ref) != 0 && 100 * Abs(val - ref) / Unsigned(ref) > 10
  }

  /** net_dim_stats_compare() */
  function Compare(curr: Stats, prev: Stats): Outcome
  {
    if prev.bpms == 0 then (if curr.bpms != 0 then Better else Same)
    else if Significant(curr.bpms, prev.bpms) then (if curr.bpms > prev.bpms then Better else Worse)
    else if prev.ppms == 0 then (if curr.ppms != 0 then Better else Same)
    else if Significant(curr.ppms, prev.ppms) then (if curr.ppms > prev.ppms then Better else Worse)
    else if prev.epms == 0 then Same
    else if Significant(curr.epms, prev.epms) then (if curr.epms < prev.epms then Better else Worse)
    else Same
  }

  /** The machine is looking for a better profile. */
  predicate Moving(s: State)
  {
    s.tune == GoingRight || s.tune == GoingLeft
  }

  /** What holds between any two decisions. */
  ghost predicate Sane(s: State)
  {
    && s.ix < PROFILES && s.tired <= 2 * PROFILES
    && (s.tune == ParkingTired || Moving(s) ==> s.tired >= 1)
    && (s.tune == ParkingOnTop ==> s.tired == 0)
    && (Moving(s) ==> s.left + s.right <= s.tired)
    && (!Moving(s) ==> s.left == s.right == 0)
  }

  /** A profile the machine may go to from `s`, or stay at. */
  predicate Near(s: State, t: State)
  {
    s.ix <= t.ix + 1 && t.ix <= s.ix + 1
  }

  /** One profile further in the direction of travel, and one step more tired. */
  function Next(s: State): State
  {
    match s.tune
    case GoingRight => s.(ix := s.ix + 1, right := s.right + 1, tired := s.tired + 1)
    case GoingLeft => s.(ix := if s.ix > 0 then s.ix - 1 else 0, left := s.left + 1, tired := s.tired + 1)
    case _ => s.(tired := s.tired + 1)
  }

  /** The machine turned round, unless things got better. */
  function Turned(s: State, o: Outcome): State
  {
    if o == Better then s
    else if s.tune == GoingRight then s.(tune := GoingLeft, left := 0)
    else if s.tune == GoingLeft then s.(tune := GoingRight, right := 0)
    else s
  }

  /** A good place to park: the machine has come back by one step after more than one the other way. */
  predicate AtTop(s: State)
  {
    match s.tune
    case GoingRight => s.left > 1 && s.right == 1
    case GoingLeft => s.right > 1 && s.left == 1
    case _ => true
  }

  predicate AtEdge(s: State)
  {
    (s.tune == GoingRight && s.ix == PROFILES - 1) || (s.tune == GoingLeft && s.ix == 0)
  }

  function Parked(s: State): State
  {
    s.(right := 0, left := 0, tired := 0, tune := ParkingOnTop)
  }

  /** Where a moving machine goes that has found this outcome. */
  function Went(s: State, o: Outcome): State
  {
    var u := Turned(s, o);
    if AtTop(u) then Parked(u)
    else if u.tired == 2 * PROFILES then u.(right := 0, left := 0, tune := ParkingTired)
    else if AtEdge(u) then Parked(u)
    else Next(u)
  }

  /** Leaving a parking place: down if that is possible, up otherwise. */
  function SetOff(s: State): State
  {
    Next(s.(tune := if s.ix != 0 then GoingLeft else GoingRight))
  }

  /** What one decision makes of the machine. */
  function Decide(s: State, curr: Stats): State
    requires s.tune == ParkingTired ==> s.tired > 0
  {
    var o := Compare(curr, s.prev);
    match s.tune
    case ParkingOnTop => if o == Same then s else SetOff(s).(prev := curr)
    case ParkingTired => (if s.tired == 1 then SetOff(s.(tired := 0)) else s.(tired := s.tired - 1)).(prev := curr)
    case _ => Went(s, o).(prev := curr)
  }

  /** Whether a measurement is still to be started, is going on, or waits for the new profile to be applied. */
  datatype Phase = StartMeasure | InProgress | ApplyNewProfile

  /** BIT_GAP() of two 16-bit counters */
  function Gap(end: nat, start: nat): (g: nat)
    ensures g < 0x1_0000
  {
    (end - start) % 0x1_0000
  }

  /** The number of events since the last sample, whether or not the counter has wrapped. */
  lemma GapExact(end: nat, start: nat, k: nat)
    requires end < 0x1_0000 && k < 0x1_0000
    ensures Gap(end, start) == k <==> end == (start + k) % 0x1_0000
  {
  }

  class Dim {
    var profileIx: nat
    var tuneState: Tune
    var stepsRight: nat
    var stepsLeft: nat
    var tired: nat
    var prevStats: Stats
    var phase: Phase
    var startEvents: nat

    function Snapshot(): State
      reads this
    {
      State(profileIx, tuneState, stepsRight, stepsLeft, tired, prevStats)
    }

    /** A zeroed struct dim, set to start from a profile. */
    constructor (ix: nat)
      requires ix < PROFILES
      ensures Sane(Snapshot()) && Snapshot() == State(ix, ParkingOnTop, 0, 0, 0, Stats(0, 0, 0))
    {
      profileIx, tuneState, stepsRight, stepsLeft, tired, prevStats := ix, ParkingOnTop, 0, 0, 0, Stats(0, 0, 0);
      phase, startEvents := StartMeasure, 0;
    }

    /** dim_on_top() */
    predicate OnTop()
      reads this
      ensures OnTop() == AtTop(Snapshot())
    {
      match tuneState
      case ParkingOnTop => true
      case ParkingTired => true
      case GoingRight => stepsLeft > 1 && stepsRight == 1
      case GoingLeft => stepsRight > 1 && stepsLeft == 1
    }

    /** dim_turn() */
    method Turn()
      modifies `tuneState, `stepsRight, `stepsLeft
      ensures Snapshot() == Turned(old(Snapshot()), Worse)
    {
      match tuneState
      case ParkingOnTop =>
      case ParkingTired =>
      case GoingRight =>
        tuneState := GoingLeft;
        stepsLeft := 0;
      case GoingLeft =>
        tuneState := GoingRight;
        stepsRight := 0;
    }

    /** dim_park_on_top() */
    method ParkOnTop()
      modifies `tuneState, `stepsRight, `stepsLeft, `tired
      ensures Snapshot() == Parked(old(Snapshot()))
    {
      stepsRight := 0;
      stepsLeft := 0;
      tired := 0;
      tuneState := ParkingOnTop;
    }

    /** dim_park_tired() */
    method ParkTired()
      modifies `tuneState, `stepsRight, `stepsLeft
      ensures Snapshot() == old(Snapshot()).(right := 0, left := 0, tune := ParkingTired)
    {
      stepsRight := 0;
      stepsLeft := 0;
      tuneState := ParkingTired;
    }

    /** net_dim_step(): one profile on, unless there is none or the machine is tired. */
    method Step() returns (r: StepResult)
      requires profileIx < PROFILES && tired <= 2 * PROFILES
      modifies `profileIx, `stepsRight, `stepsLeft, `tired
      ensures r == if old(tired) == 2 * PROFILES then TooTired else if AtEdge(old(Snapshot())) then OnEdge else Stepped
      ensures r != Stepped ==> Snapshot() == old(Snapshot())
      ensures r == Stepped ==> Snapshot() == Next(old(Snapshot()))
    {
      if tired == PROFILES * 2 {
        return TooTired;
      }
      match tuneState {
        case ParkingOnTop =>
        case ParkingTired =>
        case GoingRight =>
          if profileIx == PROFILES - 1 {
            return OnEdge;
          }
          profileIx := profileIx + 1;
          stepsRight := stepsRight + 1;
        case GoingLeft =>
          if profileIx == 0 {
            return OnEdge;
          }
          profileIx := profileIx - 1;
          stepsLeft := stepsLeft + 1;
      }
      tired := tired + 1;
      return Stepped;
    }

    /** net_dim_exit_parking() */
    method ExitParking()
      requires profileIx < PROFILES && tired == 0
      modifies `tuneState, `profileIx, `stepsRight, `stepsLeft, `tired
      ensures Snapshot() == SetOff(old(Snapshot()))
    {
      tuneState := if profileIx != 0 then GoingLeft else GoingRight;
      var r := Step();
    }

    /** The part of net_dim_decision() for a moving machine. */
    method Move(curr: Stats)
      requires Sane(Snapshot()) && Moving(Snapshot())
      modifies `tuneState, `profileIx, `stepsRight, `stepsLeft, `tired
      ensures Snapshot() == Went(old(Snapshot()), Compare(curr, old(prevStats)))
    {
      hide Compare;
      if Compare(curr, prevStats) != Better {
        Turn();
      }
      if OnTop() {
        ParkOnTop();
      } else {
        var r := Step();
        match r
        case OnEdge => ParkOnTop();
        case TooTired => ParkTired();
        case Stepped =>
      }
    }

    /** net_dim_decision() */
    method Decision(curr: Stats) returns (changed: bool)
      requires Sane(Snapshot())
      modifies `tuneState, `profileIx, `stepsRight, `stepsLeft, `tired, `prevStats
      ensures Snapshot() == Decide(old(Snapshot()), curr) && changed == (profileIx != old(profileIx))
      ensures old(tuneState) == GoingRight && old(prevStats).bpms > 0 && Ints(curr) && Ints(old(prevStats)) ==>
        && (100 * (curr.bpms - old(prevStats).bpms) >= 11 * old(prevStats).bpms ==>
              if tuneState == GoingRight then profileIx == old(profileIx) + 1
              else tuneState != GoingLeft && profileIx == old(profileIx))
        && (100 * (old(prevStats).bpms - curr.bpms) >= 11 * old(prevStats).bpms ==>
              if tuneState == GoingLeft then profileIx == old(profileIx) - 1
              else tuneState != GoingRight && profileIx == old(profileIx))
      ensures old(tuneState) == GoingLeft && old(prevStats).bpms > 0 && Ints(curr) && Ints(old(prevStats)) ==>
        && (100 * (curr.bpms - old(prevStats).bpms) >= 11 * old(prevStats).bpms ==>
              if tuneState == GoingLeft then profileIx == old(profileIx) - 1
              else tuneState != GoingRight && profileIx == old(profileIx))
        && (100 * (old(prevStats).bpms - curr.bpms) >= 11 * old(prevStats).bpms ==>
              if tuneState == GoingRight then profileIx == old(profileIx) + 1
              else tuneState != GoingLeft && profileIx == old(profileIx))
    {
      hide Compare, Went, Decide;
      if Moving(Snapshot()) && prevStats.bpms > 0 && Ints(curr) && Ints(prevStats) {
        FollowsThroughput(Snapshot(), curr);
      }
      changed := Settle(curr);
    }

    /** The assignments of net_dim_decision() */
    method Settle(curr: Stats) returns (changed: bool)
      requires Sane(Snapshot())
      modifies `tuneState, `profileIx, `stepsRight, `stepsLeft, `tired, `prevStats
      ensures Snapshot() == Decide(old(Snapshot()), curr) && changed == (profileIx != old(profileIx))
    {
      hide Compare, Went;
      var prevState, prevIx := tuneState, profileIx;
      match tuneState {
        case ParkingOnTop =>
          if Compare(curr, prevStats) != Same {
            ExitParking();
          }
        case ParkingTired =>
          tired := tired - 1;
          if tired == 0 {
            ExitParking();
          }
        case _ =>
          Move(curr);
      }
      if prevState != ParkingOnTop || tuneState != ParkingOnTop {
        prevStats := curr;
      }
      return profileIx != prevIx;
    }

    /** net_dim(): a decision is made when 64 events have passed, and a new profile holds back the next measurement. */
    method Measured(events: nat, curr: Stats) returns (ghost passed: nat)
      requires Sane(Snapshot()) && events < 0x1_0000
      modifies this
      ensures Sane(Snapshot())
      ensures passed < 0x1_0000 && events == (old(startEvents) + passed) % 0x1_0000
      ensures old(phase) == InProgress && passed >= 64 ==>
        Snapshot() == Decide(old(Snapshot()), curr) && (phase == ApplyNewProfile <==> profileIx != old(profileIx))
      ensures !(old(phase) == InProgress && passed >= 64) ==> Snapshot() == old(Snapshot())
      ensures phase == ApplyNewProfile <==> old(phase) == ApplyNewProfile || profileIx != old(profileIx)
      ensures phase != StartMeasure
      ensures phase == InProgress ==>
        startEvents == if old(phase) == InProgress && passed < 64 then old(startEvents) else events
    {
      passed := Gap(events, startEvents);
      GapExact(events, startEvents, passed);
      hide Decide, Sane;
      if phase == InProgress {
        if Gap(events, startEvents) < EVENTS {
          return;
        }
        DecideSane(Snapshot(), curr);
        var changed := Decision(curr);
        if changed {
          phase := ApplyNewProfile;
          return;
        }
      }
      if phase == InProgress || phase == StartMeasure {
        startEvents := events;
        phase := InProgress;
      }
    }

    /** Decision after decision, on any measurements. */
    method Run(stats: seq<Stats>) returns (ghost states: seq<State>)
      requires Sane(Snapshot())
      modifies `tuneState, `profileIx, `stepsRight, `stepsLeft, `tired, `prevStats
      ensures History(states, stats) && states[0] == old(Snapshot()) && states[|stats|] == Snapshot()
    {
      hide Decide, Sane;
      states := [Snapshot()];
      for k := 0 to |stats|
        invariant Sane(Snapshot()) && History(states, stats[..k])
        invariant states[0] == old(Snapshot()) && states[k] == Snapshot()
      {
        DecideSane(Snapshot(), stats[k]);
        var changed := Decision(stats[k]);
        HistoryStep(states, stats, k, Snapshot());
        states := states + [Snapshot()];
      }
      assert stats[..|stats|] == stats;
    }
  }

  /** Every decision keeps the machine sane and moves it by at most one profile, whatever has been measured. */
  lemma DecideSane(s: State, curr: Stats)
    requires Sane(s)
    ensures (s.tune == ParkingTired ==> s.tired > 0) && Sane(Decide(s, curr)) && Near(s, Decide(s, curr))
  {
    hide Compare;
  }

  /** Turning and then stepping takes back the last step, and the machine is then seen to be on top exactly if it had
      gone more than one step before it turned. */
  lemma StepBack(s: State)
    requires Moving(s) && s.ix < PROFILES && !AtEdge(s)
    ensures var ahead := Next(s);
      var back := Next(Turned(ahead, Worse));
      && back.ix == s.ix && back.tune != s.tune && Moving(back) && !AtEdge(Turned(ahead, Worse))
      && back.tired == s.tired + 2
      && (AtTop(back) <==> (if s.tune == GoingRight then s.right else s.left) >= 1)
  {
  }

  /** A change counts from eleven percent of the old rate on: the source divides before it compares with ten. */
  lemma SignificantExact(val: int, ref: int)
    requires -0x8000_0000 <= val < 0x8000_0000 && -0x8000_0000 <= ref < 0x8000_0000
    ensures Significant(val, ref) <==> ref > 0 && (100 * (val - ref) >= 11 * ref || 100 * (ref - val) >= 11 * ref)
  {
    if ref > 0 {
      var x, q := 100 * Abs(val - ref), 100 * Abs(val - ref) / ref;
      assert q * ref <= x < (q + 1) * ref;
      if q > 10 {
        Grows(11, q, ref);
      } else {
        Grows(q + 1, 11, ref);
      }
    } else if ref < 0 {
      assert Unsigned(ref) == ref + ULONG;
    }
  }

  lemma Grows(a: int, b: int, n: int)
    requires a <= b && n > 0
    ensures a * n <= b * n
  {
  }

  /** The rates are C ints. */
  predicate Ints(s: Stats)
  {
    && -0x8000_0000 <= s.ppms < 0x8000_0000 && -0x8000_0000 <= s.bpms < 0x8000_0000
    && -0x8000_0000 <= s.epms < 0x8000_0000
  }

  /** When things got better or worse: throughput decides first, then packets, then events, of which fewer are better.
      A rate that was zero before can only have got better, and events that were zero say nothing. */
  lemma CompareExact(curr: Stats, prev: Stats)
    requires Ints(curr) && Ints(prev)
    ensures prev.bpms == 0 ==> Compare(curr, prev) == if curr.bpms != 0 then Better else Same
    ensures prev.bpms > 0 && 100 * (curr.bpms - prev.bpms) >= 11 * prev.bpms ==> Compare(curr, prev) == Better
    ensures prev.bpms > 0 && 100 * (prev.bpms - curr.bpms) >= 11 * prev.bpms ==> Compare(curr, prev) == Worse
    ensures prev.bpms < 0 || -11 * prev.bpms < 100 * (curr.bpms - prev.bpms) < 11 * prev.bpms ==>
      && (prev.ppms == 0 ==> Compare(curr, prev) == if curr.ppms != 0 then Better else Same)
      && (prev.ppms > 0 && 100 * (curr.ppms - prev.ppms) >= 11 * prev.ppms ==> Compare(curr, prev) == Better)
      && (prev.ppms > 0 && 100 * (prev.ppms - curr.ppms) >= 11 * prev.ppms ==> Compare(curr, prev) == Worse)
      && (prev.ppms < 0 || -11 * prev.ppms < 100 * (curr.ppms - prev.ppms) < 11 * prev.ppms ==>
            && (prev.epms > 0 && 100 * (curr.epms - prev.epms) >= 11 * prev.epms ==> Compare(curr, prev) == Worse)
            && (prev.epms > 0 && 100 * (prev.epms - curr.epms) >= 11 * prev.epms ==> Compare(curr, prev) == Better)
            && (prev.epms <= 0 || -11 * prev.epms < 100 * (curr.epms - prev.epms) < 11 * prev.epms ==>
                  Compare(curr, prev) == Same))
  {
    hide Significant;
    SignificantExact(curr.bpms, prev.bpms);
    SignificantExact(curr.ppms, prev.ppms);
    SignificantExact(curr.epms, prev.epms);
  }

  /** Where a moving machine goes.  When things got better it parks on a top it has come back to by one step, rests if
      it is tired, parks at the last profile of its direction, and goes on otherwise.  When they did not, it turns,
      which is never a top, and then rests, parks at the first profile or goes back. */
  lemma MovesExactly(s: State, curr: Stats)
    requires Sane(s) && Moving(s)
    ensures s.tune == GoingRight && Compare(curr, s.prev) == Better ==>
      Decide(s, curr) ==
        if s.left > 1 && s.right == 1 then State(s.ix, ParkingOnTop, 0, 0, 0, curr)
        else if s.tired == 10 then State(s.ix, ParkingTired, 0, 0, 10, curr)
        else if s.ix == 4 then State(4, ParkingOnTop, 0, 0, 0, curr)
        else State(s.ix + 1, GoingRight, s.right + 1, s.left, s.tired + 1, curr)
    ensures s.tune == GoingLeft && Compare(curr, s.prev) == Better ==>
      Decide(s, curr) ==
        if s.right > 1 && s.left == 1 then State(s.ix, ParkingOnTop, 0, 0, 0, curr)
        else if s.tired == 10 then State(s.ix, ParkingTired, 0, 0, 10, curr)
        else if s.ix == 0 then State(0, ParkingOnTop, 0, 0, 0, curr)
        else State(s.ix - 1, GoingLeft, s.right, s.left + 1, s.tired + 1, curr)
    ensures s.tune == GoingRight && Compare(curr, s.prev) != Better ==>
      Decide(s, curr) ==
        if s.tired == 10 then State(s.ix, ParkingTired, 0, 0, 10, curr)
        else if s.ix == 0 then State(0, ParkingOnTop, 0, 0, 0, curr)
        else State(s.ix - 1, GoingLeft, s.right, 1, s.tired + 1, curr)
    ensures s.tune == GoingLeft && Compare(curr, s.prev) != Better ==>
      Decide(s, curr) ==
        if s.tired == 10 then State(s.ix, ParkingTired, 0, 0, 10, curr)
        else if s.ix == 4 then State(4, ParkingOnTop, 0, 0, 0, curr)
        else State(s.ix + 1, GoingRight, 1, s.left, s.tired + 1, curr)
  {
    hide Compare;
  }

  /** A machine parked on a top stays, measurement and all, until things change; a tired one only counts down.  Both
      then set off to the profile below, if there is one. */
  lemma ParkedExactly(s: State, curr: Stats)
    requires Sane(s) && s.tune != GoingRight && s.tune != GoingLeft
    ensures s.tune == ParkingOnTop && Compare(curr, s.prev) == Same ==> Decide(s, curr) == s
    ensures s.tune == ParkingTired && s.tired > 1 ==>
      Decide(s, curr) == State(s.ix, ParkingTired, 0, 0, s.tired - 1, curr)
    ensures (if s.tune == ParkingOnTop then Compare(curr, s.prev) != Same else s.tired == 1) ==>
      Decide(s, curr) ==
        if s.ix == 0 then State(1, GoingRight, 1, 0, 1, curr) else State(s.ix - 1, GoingLeft, 0, 1, 1, curr)
  {
    hide Compare;
  }

  /** A moving machine whose throughput rose by eleven percent keeps its direction or parks where it is; one whose
      throughput fell by as much turns, or parks where it is. */
  lemma FollowsThroughput(s: State, curr: Stats)
    requires Sane(s) && (s.tune == GoingRight || s.tune == GoingLeft) && Ints(curr) && Ints(s.prev) && s.prev.bpms > 0
    ensures 100 * (curr.bpms - s.prev.bpms) >= 11 * s.prev.bpms ==>
      var t := Decide(s, curr);
      || (t.tune == s.tune && t.ix == if s.tune == GoingRight then s.ix + 1 else s.ix - 1)
      || ((t.tune == ParkingOnTop || t.tune == ParkingTired) && t.ix == s.ix)
    ensures 100 * (s.prev.bpms - curr.bpms) >= 11 * s.prev.bpms ==>
      var t := Decide(s, curr);
      || (t.tune == (if s.tune == GoingRight then GoingLeft else GoingRight)
          && t.ix == if s.tune == GoingRight then s.ix - 1 else s.ix + 1)
      || ((t.tune == ParkingOnTop || t.tune == ParkingTired) && t.ix == s.ix)
  {
    hide Compare, Decide;
    CompareExact(curr, s.prev);
    MovesExactly(s, curr);
  }

  /** A moving machine that goes on moving is one step more tired. */
  lemma MovingTires(s: State, curr: Stats)
    requires Sane(s) && Moving(s) && Moving(Decide(s, curr))
    ensures Decide(s, curr).tired == s.tired + 1 && Decide(s, curr).ix != s.ix
  {
    hide Compare;
  }

  /** A run of decisions. */
  ghost predicate History(states: seq<State>, stats: seq<Stats>)
  {
    && |states| == |stats| + 1 && (forall k :: 0 <= k < |states| ==> Sane(states[k]))
    && forall k :: 0 <= k < |stats| ==> states[k + 1] == Decide(states[k], stats[k])
  }

  lemma HistoryStep(states: seq<State>, stats: seq<Stats>, k: nat, next: State)
    requires k < |stats| && History(states, stats[..k]) && Sane(next) && next == Decide(states[k], stats[k])
    ensures History(states + [next], stats[..k + 1])
  {
    hide Decide;
    var after := states + [next];
    forall j | 0 <= j < k + 1
      ensures Sane(after[j]) && after[j + 1] == Decide(after[j], stats[..k + 1][j])
    {
      if j < k {
        assert stats[..k][j] == stats[j];
        assert states[j + 1] == Decide(states[j], stats[..k][j]);
      }
    }
  }

  lemma StepAt(states: seq<State>, stats: seq<Stats>, k: nat)
    requires History(states, stats) && k < |stats|
    ensures Sane(states[k]) && Sane(states[k + 1]) && states[k + 1] == Decide(states[k], stats[k])
  {
  }

  /** A moving machine parks within 11 - tired decisions, whatever it measures. */
  lemma {:induction false} ParksInTime(states: seq<State>, stats: seq<Stats>, j: nat)
    requires History(states, stats) && j < |states| && Moving(states[j]) && Sane(states[j])
    requires j + (2 * PROFILES + 1 - states[j].tired) < |states|
    ensures exists k :: j < k <= j + (2 * PROFILES + 1 - states[j].tired) && !Moving(states[k])
    decreases 2 * PROFILES + 1 - states[j].tired
  {
    StepAt(states, stats, j);
    if Moving(states[j + 1]) {
      MovingTires(states[j], stats[j]);
      ParksInTime(states, stats, j + 1);
      var k :| j + 1 < k <= j + 1 + (2 * PROFILES + 1 - states[j + 1].tired) && !Moving(states[k]);
      assert !Moving(states[k]);
    }
  }

  /** A tired machine rests at its profile for exactly `tired` decisions and then sets off. */
  lemma {:induction false} RestsExactly(states: seq<State>, stats: seq<Stats>, j: nat, k: nat)
    requires History(states, stats) && j < |states| && Sane(states[j]) && states[j].tune == ParkingTired
    requires k <= states[j].tired && j + k < |states|
    ensures k < states[j].tired ==>
      states[j + k].tune == ParkingTired && states[j + k].tired == states[j].tired - k &&
      states[j + k].ix == states[j].ix
    ensures k == states[j].tired ==> Moving(states[j + k]) && states[j + k].tired == 1
    decreases k
  {
    if k > 0 {
      RestsExactly(states, stats, j, k - 1);
      StepAt(states, stats, j + k - 1);
    }
  }
}
