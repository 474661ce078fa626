/** The lockdown scenario of the economic adapter: the lockdown history a
    scenario keeps across simulation steps, the furlough window, and how
    healthy and ill utilisations are split into working, working from
    home, furloughed and ill.

    Regions, sectors and ages are enumerations whose members are told
    apart by their position; a scenario holds their iteration order as
    sequences. The arithmetic
    that divides a healthy utilisation in lockdown and recovery is the
    function parameter `split`, so utilisation values are opaque here. */
module Scenarios {
  import opened Wrappers

  datatype Region = Region(index: nat)
  datatype Sector = Sector(index: nat)
  datatype Age = Age(index: nat)

  /** The labour states a utilisation is reported for. */
  datatype LabourState = Working | Wfh | Furloughed | Ill

  const LABOUR_STATES: set<LabourState> := {Working, Wfh, Furloughed, Ill}

  /** `ValueError`, `NotImplementedError` and `KeyError`, in that order. */
  datatype ScenarioError = StartedInLockdown | LockdownAfterExit | MissingKey

  /** What one simulation step hands to the economic model. */
  datatype SimulateState =
    SimulateState(time: int, lockdown: bool, utilisations: map<(LabourState, Region, Sector, Age), real>)

  /** The two fields the pre-simulation checks maintain. `exitedTime` is 0
      until lockdown has been left; 0 is the "not exited" sentinel. */
  datatype LockdownHistory = LockdownHistory(hasBeenLockdown: bool, exitedTime: int)

  const FRESH := LockdownHistory(false, 0)

  /** An exit is only ever recorded after a lockdown. */
  predicate WellFormed(h: LockdownHistory)
  {
    h.exitedTime != 0 ==> h.hasBeenLockdown
  }

  // ---------------------------------------------------------------------
  // The pre-simulation checks
  // ---------------------------------------------------------------------

  /** `_pre_simulation_checks` on history `h`: a lockdown at the start of
      time is refused, then a lockdown after an exit is refused; a refused
      call changes nothing. Otherwise the first lockdown is remembered and
      the first call out of lockdown records its time as the exit. */
  function Check(h: LockdownHistory, time: int, lockdown: bool, startOfTime: int): (r: Result<LockdownHistory, ScenarioError>)
    ensures r.Failure? <==> lockdown && (time == startOfTime || h.exitedTime != 0)
    ensures r.Failure? ==> r.error == if time == startOfTime then StartedInLockdown else LockdownAfterExit
    ensures r.Success? ==> r.value.hasBeenLockdown == (h.hasBeenLockdown || lockdown)
    ensures r.Success? && h.exitedTime != 0 ==> r.value.exitedTime == h.exitedTime
    ensures r.Success? && h.exitedTime == 0 ==>
      r.value.exitedTime == if r.value.hasBeenLockdown && !lockdown then time else 0
    ensures r.Success? && WellFormed(h) ==> WellFormed(r.value)
  {
    if time == startOfTime && lockdown then Failure(StartedInLockdown)
    else if h.exitedTime != 0 && lockdown then Failure(LockdownAfterExit)
    else
      var been := if lockdown && !h.hasBeenLockdown then true else h.hasBeenLockdown;
      var exited := if h.exitedTime == 0 && been && !lockdown then time else h.exitedTime;
      Success(LockdownHistory(been, exited))
  }

  /** The history after one `generate(time, lockdown, ...)` call: a refused
      call leaves it as it was. */
  function Step(h: LockdownHistory, call: (int, bool), startOfTime: int): LockdownHistory
  {
    match Check(h, call.0, call.1, startOfTime)
    case Success(h') => h'
    case Failure(_) => h
  }

  /** The history after a sequence of `generate` calls. */
  function Run(h: LockdownHistory, calls: seq<(int, bool)>, startOfTime: int): LockdownHistory
    decreases |calls|
  {
    if calls == [] then h else Run(Step(h, calls[0], startOfTime), calls[1..], startOfTime)
  }

  /** Over any sequence of calls, "has been in lockdown" never reverts, a
      recorded exit time never changes, and an exit is only ever recorded
      after a lockdown. */
  lemma {:induction false} RunMonotone(h: LockdownHistory, calls: seq<(int, bool)>, startOfTime: int)
    ensures h.hasBeenLockdown ==> Run(h, calls, startOfTime).hasBeenLockdown
    ensures h.exitedTime != 0 ==> Run(h, calls, startOfTime).exitedTime == h.exitedTime
    ensures WellFormed(h) ==> WellFormed(Run(h, calls, startOfTime))
    decreases |calls|
  {
    if calls != [] {
      RunMonotone(Step(h, calls[0], startOfTime), calls[1..], startOfTime);
    }
  }

  /** Once an exit is recorded, no later call can enter lockdown again. */
  lemma RunRefusesLockdownAfterExit(h: LockdownHistory, calls: seq<(int, bool)>, startOfTime: int, time: int)
    requires h.exitedTime != 0
    ensures Check(Run(h, calls, startOfTime), time, true, startOfTime).Failure?
  {
    RunMonotone(h, calls, startOfTime);
  }

  /** Calls that never ask for lockdown leave a fresh scenario fresh. */
  lemma {:induction false} RunWithoutLockdown(calls: seq<(int, bool)>, startOfTime: int)
    requires forall i :: 0 <= i < |calls| ==> !calls[i].1
    ensures Run(FRESH, calls, startOfTime) == FRESH
    decreases |calls|
  {
    if calls != [] {
      assert Step(FRESH, calls[0], startOfTime) == FRESH;
      RunWithoutLockdown(calls[1..], startOfTime);
    }
  }

  // ---------------------------------------------------------------------
  // The furlough window
  // ---------------------------------------------------------------------

  /** Furlough applies when both bounds are set and `start <= time < end`;
      an active window is never empty. */
  function FurloughActive(start: Option<int>, end: Option<int>, time: int): (active: bool)
    ensures active ==> start.Some? && end.Some? && start.value < end.value
    ensures start.Some? && end.Some? ==> (active <==> start.value <= time < end.value)
  {
    start.Some? && end.Some? && start.value <= time < end.value
  }

  /** The window is an interval: active at two times, active in between;
      never active without both bounds. */
  lemma FurloughWindowIsInterval(start: Option<int>, end: Option<int>, t1: int, t: int, t2: int)
    requires FurloughActive(start, end, t1) && FurloughActive(start, end, t2) && t1 <= t <= t2
    ensures FurloughActive(start, end, t)
    ensures start.Some? && end.Some? && start.value <= t1 && t2 < end.value
  {
  }

  /** The furlough fraction per sector at `time`: the loaded fractions
      inside the window, 0 for every sector outside it. */
  function FurloughFractions(furloughed: map<Sector, real>, sectors: seq<Sector>,
                                start: Option<int>, end: Option<int>, time: int): (f: map<Sector, real>)
    requires forall s :: s in sectors ==> s in furloughed
    ensures forall s :: s in sectors ==> s in f
    ensures FurloughActive(start, end, time) ==> forall s :: s in f ==> s in furloughed && f[s] == furloughed[s]
    ensures !FurloughActive(start, end, time) ==> forall s :: s in f ==> f[s] == 0.0
  {
    if FurloughActive(start, end, time) then furloughed
    else map s | s in sectors :: 0.0
  }

  // ---------------------------------------------------------------------
  // The keys of a utilisation map
  // ---------------------------------------------------------------------

  /** `itertools.product(Region, Sector, Age)`: regions outermost, ages
      innermost. */
  function Product(regions: seq<Region>, sectors: seq<Sector>, ages: seq<Age>): (p: seq<(Region, Sector, Age)>)
    ensures forall k :: k in p <==> k.0 in regions && k.1 in sectors && k.2 in ages
    decreases |regions|
  {
    if regions == [] then []
    else ProductFor(regions[0], sectors, ages) + Product(regions[1..], sectors, ages)
  }

  /** The keys of one region, sectors outermost. */
  function ProductFor(r: Region, sectors: seq<Sector>, ages: seq<Age>): (p: seq<(Region, Sector, Age)>)
    ensures forall k :: k in p <==> k.0 == r && k.1 in sectors && k.2 in ages
    decreases |sectors|
  {
    if sectors == [] then []
    else
      var row := seq(|ages|, i requires 0 <= i < |ages| => (r, sectors[0], ages[i]));
      assert forall k :: k in row <==> k.0 == r && k.1 == sectors[0] && k.2 in ages by {
        forall k: (Region, Sector, Age) | k in row ensures k.2 in ages {
          var i :| 0 <= i < |row| && row[i] == k;
        }
        forall k: (Region, Sector, Age) | k.0 == r && k.1 == sectors[0] && k.2 in ages ensures k in row {
          var i :| 0 <= i < |ages| && ages[i] == k.2;
          assert row[i] == k;
        }
      }
      row + ProductFor(r, sectors[1..], ages)
  }

  /** `m` has an entry for every key. */
  predicate Covers<K(==), V>(m: map<K, V>, keys: seq<K>)
  {
    forall i :: 0 <= i < |keys| ==> keys[i] in m
  }

  // ---------------------------------------------------------------------
  // The split of utilisations by labour state
  // ---------------------------------------------------------------------

  /** Which of `_apply_lockdown`'s branches applies: before any lockdown,
      during it, or in recovery after the recorded exit. Recovery carries
      what its ramp depends on: the exit time, the current time and the
      scenario's recovery period. */
  datatype Regime = Normal | Lockdown | Recovery(exitedTime: int, time: int, recoveryTime: real)

  /** The regime of a call at `time`: normal when not in lockdown and no
      exit is recorded, recovery whenever an exit is recorded, and lockdown
      otherwise. */
  function RegimeOf(lockdown: bool, exitedTime: int, time: int, recoveryTime: real): (g: Regime)
    ensures g == Normal <==> !lockdown && exitedTime == 0
    ensures g == Lockdown <==> lockdown && exitedTime == 0
    ensures g.Recovery? <==> exitedTime != 0
    ensures g.Recovery? ==> g.exitedTime == exitedTime && g.time == time && g.recoveryTime == recoveryTime
  {
    if !lockdown && exitedTime == 0 then Normal
    else if exitedTime != 0 then Recovery(exitedTime, time, recoveryTime)
    else Lockdown
  }

  /** After a check that passes (at a time other than the sentinel 0), the
      split runs in the normal regime exactly until the first lockdown, in
      the lockdown regime exactly on lockdown calls, and in recovery on
      every call after it. */
  lemma RegimeAfterCheck(h: LockdownHistory, time: int, lockdown: bool, startOfTime: int, recoveryTime: real)
    requires WellFormed(h) && time != 0
    requires Check(h, time, lockdown, startOfTime).Success?
    ensures var h' := Check(h, time, lockdown, startOfTime).value;
      var g := RegimeOf(lockdown, h'.exitedTime, time, recoveryTime);
      && (g == Normal <==> !h'.hasBeenLockdown)
      && (g == Lockdown <==> lockdown)
      && (g.Recovery? <==> h'.hasBeenLockdown && !lockdown)
  {
  }

  /** A healthy utilisation divided into working, working from home and
      furloughed. */
  datatype Split = Split(work: real, wfh: real, furlough: real)

  /** The four entries of key `k` in `u`: ill is copied from `ill`; in the
      normal regime working is the healthy utilisation and the other two
      are 0, otherwise they come from `split`. */
  ghost predicate SplitAt(u: map<(LabourState, Region, Sector, Age), real>, k: (Region, Sector, Age),
                                   healthy: map<(Region, Sector, Age), real>, ill: map<(Region, Sector, Age), real>,
                                   regime: Regime, fur: map<Sector, real>, split: (Regime, Sector, real, real) -> Split)
  {
    && k in healthy && k in ill && k.1 in fur
    && (Working, k.0, k.1, k.2) in u && (Wfh, k.0, k.1, k.2) in u
    && (Furloughed, k.0, k.1, k.2) in u && (Ill, k.0, k.1, k.2) in u
    && u[(Ill, k.0, k.1, k.2)] == ill[k]
    && if regime == Normal then
         && u[(Working, k.0, k.1, k.2)] == healthy[k]
         && u[(Wfh, k.0, k.1, k.2)] == 0.0
         && u[(Furloughed, k.0, k.1, k.2)] == 0.0
       else
         var sp := split(regime, k.1, healthy[k], fur[k.1]);
         && u[(Working, k.0, k.1, k.2)] == sp.work
         && u[(Wfh, k.0, k.1, k.2)] == sp.wfh
         && u[(Furloughed, k.0, k.1, k.2)] == sp.furlough
  }

  /** A whole utilisation map: one entry per labour state and key, each
      as `SplitAt` says. */
  ghost predicate SplitsLabour(u: map<(LabourState, Region, Sector, Age), real>, keys: seq<(Region, Sector, Age)>,
                                        healthy: map<(Region, Sector, Age), real>, ill: map<(Region, Sector, Age), real>,
                                        regime: Regime, fur: map<Sector, real>, split: (Regime, Sector, real, real) -> Split)
  {
    && (forall k :: k in u <==> (k.1, k.2, k.3) in keys)
    && forall i :: 0 <= i < |keys| ==> SplitAt(u, keys[i], healthy, ill, regime, fur, split)
  }

  /** In every regime the ill entries are the ill utilisations. */
  lemma SplitsLabourKeepsIll(u: map<(LabourState, Region, Sector, Age), real>, keys: seq<(Region, Sector, Age)>,
                                      healthy: map<(Region, Sector, Age), real>, ill: map<(Region, Sector, Age), real>,
                                      regime: Regime, fur: map<Sector, real>, split: (Regime, Sector, real, real) -> Split,
                                      k: (Region, Sector, Age))
    requires SplitsLabour(u, keys, healthy, ill, regime, fur, split) && k in keys
    ensures k in ill && (Ill, k.0, k.1, k.2) in u && u[(Ill, k.0, k.1, k.2)] == ill[k]
  {
    var i :| 0 <= i < |keys| && keys[i] == k;
    assert SplitAt(u, keys[i], healthy, ill, regime, fur, split);
  }

  /** Before any lockdown, working is the healthy utilisation and nobody
      works from home or is furloughed. */
  lemma SplitsLabourNormal(u: map<(LabourState, Region, Sector, Age), real>, keys: seq<(Region, Sector, Age)>,
                                    healthy: map<(Region, Sector, Age), real>, ill: map<(Region, Sector, Age), real>,
                                    fur: map<Sector, real>, split: (Regime, Sector, real, real) -> Split,
                                    k: (Region, Sector, Age))
    requires SplitsLabour(u, keys, healthy, ill, Normal, fur, split) && k in keys
    ensures k in healthy && (Working, k.0, k.1, k.2) in u && u[(Working, k.0, k.1, k.2)] == healthy[k]
    ensures (Wfh, k.0, k.1, k.2) in u && u[(Wfh, k.0, k.1, k.2)] == 0.0
    ensures (Furloughed, k.0, k.1, k.2) in u && u[(Furloughed, k.0, k.1, k.2)] == 0.0
  {
    var i :| 0 <= i < |keys| && keys[i] == k;
    assert SplitAt(u, keys[i], healthy, ill, Normal, fur, split);
  }

  /** The map `_apply_lockdown` starts from: 0 for every labour state of
      every key. */
  function ZeroUtilisations(keys: seq<(Region, Sector, Age)>): (u: map<(LabourState, Region, Sector, Age), real>)
    ensures forall l :: l in u <==> (l.1, l.2, l.3) in keys
    ensures forall l :: l in u ==> u[l] == 0.0
  {
    var dom := set l, k | l in LABOUR_STATES && k in keys :: (l, k.0, k.1, k.2);
    assert forall l: (LabourState, Region, Sector, Age) :: (l.1, l.2, l.3) in keys ==> l in dom by {
      forall l: (LabourState, Region, Sector, Age) | (l.1, l.2, l.3) in keys
        ensures l in dom
      {
        var k := (l.1, l.2, l.3);
        assert l.0 == Working || l.0 == Wfh || l.0 == Furloughed || l.0 == Ill;
        assert l == (l.0, k.0, k.1, k.2);
      }
    }
    map l | l in dom :: 0.0
  }

  /** The entries of one key, set by one iteration of the filling loop;
      in the normal regime only working and ill are written, so working
      from home and furloughed keep their initial 0. */
  function SetSplit(u: map<(LabourState, Region, Sector, Age), real>, k: (Region, Sector, Age),
                             healthy: map<(Region, Sector, Age), real>, ill: map<(Region, Sector, Age), real>,
                             regime: Regime, fur: map<Sector, real>, split: (Regime, Sector, real, real) -> Split)
    : (u': map<(LabourState, Region, Sector, Age), real>)
    requires k in healthy && k in ill && k.1 in fur
    requires (Working, k.0, k.1, k.2) in u && (Wfh, k.0, k.1, k.2) in u
    requires (Furloughed, k.0, k.1, k.2) in u && (Ill, k.0, k.1, k.2) in u
    requires regime == Normal ==> u[(Wfh, k.0, k.1, k.2)] == 0.0 && u[(Furloughed, k.0, k.1, k.2)] == 0.0
    ensures u'.Keys == u.Keys
    ensures SplitAt(u', k, healthy, ill, regime, fur, split)
    ensures forall l :: l in u && (l.1, l.2, l.3) != k ==> u'[l] == u[l]
    ensures regime == Normal ==> forall l :: l in u && l.0 in {Wfh, Furloughed} ==> u'[l] == u[l]
  {
    if regime == Normal then
      u[(Working, k.0, k.1, k.2) := healthy[k]][(Ill, k.0, k.1, k.2) := ill[k]]
    else
      var sp := split(regime, k.1, healthy[k], fur[k.1]);
      u[(Working, k.0, k.1, k.2) := sp.work][(Wfh, k.0, k.1, k.2) := sp.wfh]
       [(Furloughed, k.0, k.1, k.2) := sp.furlough][(Ill, k.0, k.1, k.2) := ill[k]]
  }

  /** Filling one key's entries keeps the entries of every other key. */
  lemma SetSplitKeeps(u: map<(LabourState, Region, Sector, Age), real>, k: (Region, Sector, Age),
                      healthy: map<(Region, Sector, Age), real>, ill: map<(Region, Sector, Age), real>,
                      regime: Regime, fur: map<Sector, real>, split: (Regime, Sector, real, real) -> Split,
                      k2: (Region, Sector, Age))
    requires k in healthy && k in ill && k.1 in fur
    requires (Working, k.0, k.1, k.2) in u && (Wfh, k.0, k.1, k.2) in u
    requires (Furloughed, k.0, k.1, k.2) in u && (Ill, k.0, k.1, k.2) in u
    requires regime == Normal ==> u[(Wfh, k.0, k.1, k.2)] == 0.0 && u[(Furloughed, k.0, k.1, k.2)] == 0.0
    requires SplitAt(u, k2, healthy, ill, regime, fur, split)
    ensures SplitAt(SetSplit(u, k, healthy, ill, regime, fur, split), k2, healthy, ill, regime, fur, split)
  {
    var u' := SetSplit(u, k, healthy, ill, regime, fur, split);
    if k2 != k {
      assert u'[(Working, k2.0, k2.1, k2.2)] == u[(Working, k2.0, k2.1, k2.2)];
      assert u'[(Wfh, k2.0, k2.1, k2.2)] == u[(Wfh, k2.0, k2.1, k2.2)];
      assert u'[(Furloughed, k2.0, k2.1, k2.2)] == u[(Furloughed, k2.0, k2.1, k2.2)];
      assert u'[(Ill, k2.0, k2.1, k2.2)] == u[(Ill, k2.0, k2.1, k2.2)];
    }
  }

  /** One iteration of `_apply_lockdown`'s filling loop keeps its
      invariant: the same keys, the entries of the keys done so far as
      `SplitAt` says, and in the normal regime 0 for working from home and
      furloughed. */
  lemma FillStep(u: map<(LabourState, Region, Sector, Age), real>, keys: seq<(Region, Sector, Age)>, i: int,
                 healthy: map<(Region, Sector, Age), real>, ill: map<(Region, Sector, Age), real>,
                 regime: Regime, fur: map<Sector, real>, split: (Regime, Sector, real, real) -> Split)
    requires 0 <= i < |keys| && keys[i] in healthy && keys[i] in ill && keys[i].1 in fur
    requires forall l :: l in u <==> (l.1, l.2, l.3) in keys
    requires regime == Normal ==> forall l :: l in u && l.0 in {Wfh, Furloughed} ==> u[l] == 0.0
    requires forall j :: 0 <= j < i ==> SplitAt(u, keys[j], healthy, ill, regime, fur, split)
    ensures var k := keys[i];
      && (Working, k.0, k.1, k.2) in u && (Wfh, k.0, k.1, k.2) in u
      && (Furloughed, k.0, k.1, k.2) in u && (Ill, k.0, k.1, k.2) in u
    ensures var u' := SetSplit(u, keys[i], healthy, ill, regime, fur, split);
      && (forall l :: l in u' <==> (l.1, l.2, l.3) in keys)
      && (regime == Normal ==> forall l :: l in u' && l.0 in {Wfh, Furloughed} ==> u'[l] == 0.0)
      && (forall j :: 0 <= j < i + 1 ==> SplitAt(u', keys[j], healthy, ill, regime, fur, split))
  {
    var k := keys[i];
    assert (Working, k.0, k.1, k.2) in u && (Wfh, k.0, k.1, k.2) in u;
    assert (Furloughed, k.0, k.1, k.2) in u && (Ill, k.0, k.1, k.2) in u;
    forall j | 0 <= j < i
      ensures SplitAt(SetSplit(u, k, healthy, ill, regime, fur, split), keys[j], healthy, ill, regime, fur, split)
    {
      SetSplitKeeps(u, k, healthy, ill, regime, fur, split, keys[j]);
    }
  }

  /** A scenario: its start of time, recovery period and furlough window, the loaded
      furlough fractions, the enumerations of regions, sectors and ages,
      the lockdown history and the utilisations recorded per time. */
  class Scenario {
    const startOfTime: int
    const lockdownRecoveryTime: real
    const furloughStartTime: Option<int>
    const furloughEndTime: Option<int>
    const furloughed: map<Sector, real>
    const regions: seq<Region>
    const sectors: seq<Sector>
    const ages: seq<Age>
    var hasBeenLockdown: bool
    var lockdownExitedTime: int
    var utilisations: map<int, map<(LabourState, Region, Sector, Age), real>>

    ghost predicate Valid()
      reads this
    {
      && (forall s :: s in sectors ==> s in furloughed)
      && WellFormed(History())
    }

    function History(): LockdownHistory
      reads this
    {
      LockdownHistory(hasBeenLockdown, lockdownExitedTime)
    }

    /** A new scenario has seen no lockdown and recorded nothing. */
    constructor (startOfTime: int, lockdownRecoveryTime: real, furloughStartTime: Option<int>, furloughEndTime: Option<int>,
                 furloughed: map<Sector, real>, regions: seq<Region>, sectors: seq<Sector>, ages: seq<Age>)
      requires forall s :: s in sectors ==> s in furloughed
      ensures Valid() && History() == FRESH && utilisations == map[]
      ensures this.startOfTime == startOfTime && this.lockdownRecoveryTime == lockdownRecoveryTime
      ensures this.furloughed == furloughed
      ensures this.furloughStartTime == furloughStartTime && this.furloughEndTime == furloughEndTime
      ensures this.regions == regions && this.sectors == sectors && this.ages == ages
    {
      this.startOfTime := startOfTime;
      this.lockdownRecoveryTime := lockdownRecoveryTime;
      this.furloughStartTime := furloughStartTime;
      this.furloughEndTime := furloughEndTime;
      this.furloughed := furloughed;
      this.regions := regions;
      this.sectors := sectors;
      this.ages := ages;
      hasBeenLockdown := false;
      lockdownExitedTime := 0;
      utilisations := map[];
    }

    /** `_pre_simulation_checks`: refuses before changing anything, and
        otherwise updates the history as `Check` says. */
    method PreSimulationChecks(time: int, lockdown: bool) returns (r: Outcome<ScenarioError>)
      requires Valid()
      modifies this`hasBeenLockdown, this`lockdownExitedTime
      ensures Valid()
      ensures var c := Check(old(History()), time, lockdown, startOfTime);
        && (r.Fail? <==> c.Failure?)
        && (c.Failure? ==> r.error == c.error && History() == old(History()))
        && (c.Success? ==> History() == c.value)
    {
      if time == startOfTime && lockdown {
        return Fail(StartedInLockdown);
      }
      if lockdownExitedTime != 0 && lockdown {
        return Fail(LockdownAfterExit);
      }
      if lockdown && !hasBeenLockdown {
        hasBeenLockdown := true;
      }
      if lockdownExitedTime == 0 && hasBeenLockdown && !lockdown {
        lockdownExitedTime := time;
      }
      r := Pass;
    }

    /** `_apply_lockdown`: every labour state of every key starts at 0,
        then each key's entries are filled in the regime the history
        gives. A key missing from `healthy` or `ill` is refused. */
    method ApplyLockdown(time: int, lockdown: bool, healthy: map<(Region, Sector, Age), real>, ill: map<(Region, Sector, Age), real>,
                         split: (Regime, Sector, real, real) -> Split)
      returns (r: Result<map<(LabourState, Region, Sector, Age), real>, ScenarioError>)
      requires Valid()
      ensures var keys := Product(regions, sectors, ages);
        r.Failure? <==> !(Covers(healthy, keys) && Covers(ill, keys))
      ensures r.Failure? ==> r.error == MissingKey
      ensures r.Success? ==>
        SplitsLabour(r.value, Product(regions, sectors, ages), healthy, ill,
                     RegimeOf(lockdown, lockdownExitedTime, time, lockdownRecoveryTime),
                     FurloughFractions(furloughed, sectors, furloughStartTime, furloughEndTime, time), split)
    {
      var fur := FurloughFractions(furloughed, sectors, furloughStartTime, furloughEndTime, time);
      var regime := RegimeOf(lockdown, lockdownExitedTime, time, lockdownRecoveryTime);
      var keys := Product(regions, sectors, ages);
      var u := ZeroUtilisations(keys);
      for i := 0 to |keys|
        invariant forall l :: l in u <==> (l.1, l.2, l.3) in keys
        invariant regime == Normal ==> forall l :: l in u && l.0 in {Wfh, Furloughed} ==> u[l] == 0.0
        invariant forall j :: 0 <= j < i ==> SplitAt(u, keys[j], healthy, ill, regime, fur, split)
      {
        var k := keys[i];
        if k !in healthy || k !in ill {
          return Failure(MissingKey);
        }
        FillStep(u, keys, i, healthy, ill, regime, fur, split);
        u := SetSplit(u, k, healthy, ill, regime, fur, split);
      }
      r := Success(u);
    }

    /** `generate`: the checks first, so a refused call records nothing;
        then the split in the regime the updated history gives, recorded
        under `time`. */
    method Generate(time: int, lockdown: bool, healthy: map<(Region, Sector, Age), real>, ill: map<(Region, Sector, Age), real>,
                    split: (Regime, Sector, real, real) -> Split)
      returns (r: Result<SimulateState, ScenarioError>)
      requires Valid()
      modifies this`hasBeenLockdown, this`lockdownExitedTime, this`utilisations
      ensures Valid()
      ensures History() == Step(old(History()), (time, lockdown), startOfTime)
      ensures var c := Check(old(History()), time, lockdown, startOfTime);
        var keys := Product(regions, sectors, ages);
        && (c.Failure? ==> r == Failure(c.error))
        && (r.Success? <==> c.Success? && Covers(healthy, keys) && Covers(ill, keys))
      ensures r.Failure? && Check(old(History()), time, lockdown, startOfTime).Success? ==> r.error == MissingKey
      ensures r.Failure? ==> utilisations == old(utilisations)
      ensures r.Success? ==>
        && r.value.time == time && r.value.lockdown == lockdown
        && utilisations == old(utilisations)[time := r.value.utilisations]
        && SplitsLabour(r.value.utilisations, Product(regions, sectors, ages), healthy, ill,
                        RegimeOf(lockdown, lockdownExitedTime, time, lockdownRecoveryTime),
                        FurloughFractions(furloughed, sectors, furloughStartTime, furloughEndTime, time), split)
    {
      var checked := PreSimulationChecks(time, lockdown);
      if checked.Fail? {
        return Failure(checked.error);
      }
      var u := ApplyLockdown(time, lockdown, healthy, ill, split);
      if u.Failure? {
        return Failure(u.error);
      }
      utilisations := utilisations[time := u.value];
      r := Success(SimulateState(time, lockdown, u.value));
    }
  }
}
