# Lockstep multi-region coordination, ring arithmetic and lockdown scenarios

This project models three parts of an agent-based epidemic simulator and
its economic adapter, and proves properties of the models in Dafny.

- **`MultiRegion`** (`multi_region.dfy`) models the coordinator of
  `examples/multi_region.py`. One worker per region advances its own
  simulation engine when released. It writes its results into a shared
  table of 32-bit integers, laid out field-major: the cell of region `idx`
  and field `fdx` is `idx + fdx * n_regions`. In one cycle
  (`one_step_wait`) the coordinator:
  - clears the global gate;
  - releases every region that is not paused;
  - waits for exactly those regions;
  - clears every region's flags;
  - sets the gate again.

  The events become boolean arrays. A ghost trace of signals records the
  order of one cycle's actions. The workers become objects that share the
  table array. The module also models the example's main loop: after each
  cycle, every region whose `total_infected` reaches the threshold is
  paused, and when all have reached it, all are unpaused.
- **`Utilities`** (`utilities.dfy`) models the integer macros of
  `src/utilities.h`: `max`, `min`, `ifelse`, `ring_inc`, `ring_dec` and
  `ring_add`. The two macros that update their argument in place act on a
  `RingIndex` object.
- **`Scenarios`** (`scenarios.dfy`) models the lockdown logic of
  `src/adapter_covid19/scenarios.py`:
  - the pre-simulation checks and the lockdown history they keep
    (`_has_been_lockdown`, `lockdown_exited_time`);
  - the furlough window;
  - the split of healthy and ill utilisations into working, working from
    home, furloughed and ill, in the normal, lockdown and recovery regimes;
  - `generate`, which records each step's utilisations.
- **`Wrappers`** (`wrappers.dfy`) holds `Option`, `Result` and `Outcome`,
  which model the source's `None` and its raised exceptions.

## Model

| member | source | states |
|---|---|---|
| Utilities.IfElse | src/utilities.h:19 | The result is the second argument when the condition holds and the third otherwise |
| Utilities.Max | src/utilities.h:17 | The result is at least both arguments and is one of them |
| Utilities.Min | src/utilities.h:18 | The result is at most both arguments and is one of them |
| Utilities.RingNext | src/utilities.h:21 | For an index in `[0, n)`, the value `ring_inc` stores stays in `[0, n)` and equals `(x + 1) mod n` |
| Utilities.RingPrev | src/utilities.h:22 | For an index in `[0, n)`, the value `ring_dec` stores stays in `[0, n)` and equals `(x - 1 + n) mod n` |
| Utilities.RingAdd | src/utilities.h:23 | For `x` and `y` in `[0, n)`, `ring_add` is in `[0, n)` and equals `(x + y) mod n` |
| Utilities.RingPrevNext | src/utilities.h:21-22 | `ring_dec` undoes `ring_inc`, and `ring_inc` undoes `ring_dec` |
| Utilities.RingAdvanceMod | src/utilities.h:21 | `k` successive `ring_inc`s from `x` reach `(x + k) mod n` |
| Utilities.RingAdvanceFull | src/utilities.h:21 | `n` successive `ring_inc`s bring an index back to where it started |
| Utilities.RingIndex.Inc | src/utilities.h:21 | In place: the index stays in range, becomes `(old + 1) mod n`, and wraps `n - 1` to `0` |
| Utilities.RingIndex.Dec | src/utilities.h:22 | In place: the index stays in range, becomes `(old - 1 + n) mod n`, and wraps `0` to `n - 1` |
| MultiRegion.ToCInt | examples/multi_region.py:90 | A ctypes `"i"` cell keeps a signed 32-bit value congruent to the stored integer modulo 2^32; an in-range integer is kept unchanged |
| MultiRegion.CellInTable | examples/multi_region.py:47-48 | Every (region, field) pair addresses a cell inside the table of `n_regions * len(fields)` cells |
| MultiRegion.CellDecode | examples/multi_region.py:48 | A cell's region is its index mod `n_regions`, and its field is its index div `n_regions` |
| MultiRegion.CellInjective | examples/multi_region.py:48 | Two (region, field) pairs share a cell only if they are equal |
| MultiRegion.CellOfIndex | examples/multi_region.py:90 | Every cell of the table is the cell of an in-range (region, field) pair, its index mod and div `n_regions`, and of no other pair |
| MultiRegion.WrittenReadsBack | examples/multi_region.py:48 | A value a worker writes is found at its own region's cell for that field |
| MultiRegion.WrittenKeepsOthers | examples/multi_region.py:48 | The cells of a region that wrote nothing keep their values |
| MultiRegion.WrittenExtend | examples/multi_region.py:47-48 | One iteration of the copy loop writes exactly one more cell of the worker's column |
| MultiRegion.StepColumn | examples/multi_region.py:47-48 | One value per registered field; each is a signed 32-bit value congruent modulo 2^32 to the engine's result for that field |
| MultiRegion.WorkerJob.constructor | examples/multi_region.py:8-26 | A worker keeps its region index, the shared table, the field list, the region count and its own go and done flags |
| MultiRegion.WorkerJob.OneStepWork | examples/multi_region.py:43-48 | The table afterwards is the old table with this region's column, 32-bit cells of the step's results, written in, and nothing else changed |
| MultiRegion.WorkerJob.OneStepWait | examples/multi_region.py:50-54 | A released worker writes its column and then sets its own done flag, and only that flag |
| MultiRegion.Released | examples/multi_region.py:125-127 | A region is visited by the release loop iff it is in range and not paused |
| MultiRegion.ReleasedIncreasing | examples/multi_region.py:125-132 | The released regions are visited in strictly increasing order, so none is released or waited for twice |
| MultiRegion.CyclePositions | examples/multi_region.py:121-139 | The layout of a cycle: gate cleared, the releases, the waits on the same regions in the same order, a reset of every region, gate set |
| MultiRegion.CycleGateOrder | examples/multi_region.py:124-139 | The gate is cleared first and set last, each exactly once per cycle |
| MultiRegion.CycleReleasesRegion | examples/multi_region.py:125-127 | A cycle releases region `j` iff `j` is a region and is not paused |
| MultiRegion.CycleWaitsForRegion | examples/multi_region.py:130-132 | A cycle waits for region `j` iff `j` is a region and is not paused |
| MultiRegion.CycleResetsRegion | examples/multi_region.py:134-136 | A cycle clears the flags of every region, paused or not, and of nothing else |
| MultiRegion.CycleReleaseBeforeWait | examples/multi_region.py:125-136 | Every release precedes every wait, and every wait precedes every reset |
| MultiRegion.CycleColumnsReleased | examples/multi_region.py:125-132 | The regions that write a column in a cycle are exactly the regions the release loop visits |
| MultiRegion.CycleTouchesOnlyReleased | examples/multi_region.py:125-132 | After a cycle, a released region's cell holds its engine's value as a 32-bit integer, and a paused region's cell is unchanged |
| MultiRegion.IndexOf | examples/multi_region.py:158 | `list.index`: the first position holding the field |
| MultiRegion.MultiRegionModel.constructor | examples/multi_region.py:73-115 | A zeroed table of `n_regions * 3` cells, no region paused, every flag clear, one worker per region wired to its own flags and to the shared table |
| MultiRegion.MultiRegionModel.OneStepWait | examples/multi_region.py:121-139 | The table afterwards is the old one with every released region's column written. The trace grows by exactly one cycle's actions. Every flag is clear and the gate is open again |
| MultiRegion.MultiRegionModel.ReleaseUnpaused | examples/multi_region.py:125-127 | Afterwards region `j`'s go flag is set iff `j` is not paused; the trace records the releases in region order |
| MultiRegion.MultiRegionModel.CollectReleased | examples/multi_region.py:130-132 | Exactly the released regions have written their columns and set their done flags, and the trace records the waits in region order |
| MultiRegion.MultiRegionModel.CollectRegion | examples/multi_region.py:130-132 | One wait: a released region writes its column and is recorded; a paused region changes nothing |
| MultiRegion.MultiRegionModel.ResetFlags | examples/multi_region.py:134-136 | Every region's go and done flags are clear, and the trace records one reset per region in order |
| MultiRegion.MultiRegionModel.SetPauseInRegion | examples/multi_region.py:141-146 | An index outside `[0, n_regions)` is refused and changes nothing; otherwise only that region's flag changes |
| MultiRegion.MultiRegionModel.SetPause | examples/multi_region.py:148-151 | Every region's pause flag becomes the given value |
| MultiRegion.MultiRegionModel.ResultArray | examples/multi_region.py:153-165 | An unknown field is refused; otherwise the field's value for each region, in region order, read from its cell |
| MultiRegion.ReadAfterCycle | examples/multi_region.py:184-186 | After a cycle, `result_array(field)` gives each released region's 32-bit engine value for the field and each paused region's value from before the cycle. An unknown field is refused with `UnknownField` |
| MultiRegion.CycleReadBack | examples/multi_region.py:158-163 | Reading one field's cells after a cycle gives released regions' new values and paused regions' old values |
| MultiRegion.CountAtLeast | examples/multi_region.py:191-195 | The count is at most the number of regions, and equals it iff every region has reached the bound |
| MultiRegion.ThresholdPause | examples/multi_region.py:191-198 | When every region has reached the threshold, every region is unpaused. Otherwise a region is paused iff it was paused before or has reached the threshold |
| MultiRegion.ThresholdPauseKeepsOneRunning | examples/multi_region.py:191-198 | If only regions at the threshold are paused, a threshold check keeps that so and leaves at least one region unpaused |
| MultiRegion.PauseReached | examples/multi_region.py:191-195 | The counting loop returns how many regions reached the threshold and pauses exactly those, on top of the regions already paused |
| MultiRegion.PauseAtThreshold | examples/multi_region.py:191-198 | After the check, the pause flags are the threshold rule applied to the old flags and the `total_infected` cells, and the count is returned |
| MultiRegion.CycleKeepsPausedAtThreshold | examples/multi_region.py:184-193 | A region paused at or above the threshold is still at or above it after a cycle, because its cells are not written |
| MultiRegion.CycleKeepsThreshold | examples/multi_region.py:184 | A cycle keeps every paused region at or above the threshold |
| MultiRegion.ThresholdCheck | examples/multi_region.py:191-198 | The threshold check keeps every paused region at or above the threshold and leaves some region running |
| MultiRegion.CycleThenCheck | examples/multi_region.py:182-198 | One iteration of the main loop keeps every paused region at or above the threshold and leaves some region running |
| MultiRegion.RunToThreshold | examples/multi_region.py:182-198 | Over all iterations, paused regions stay at or above the threshold, and after at least one iteration some region is running |
| Scenarios.Check | src/adapter_covid19/scenarios.py:142-154 | A lockdown at the start of time is refused first, then a lockdown after a recorded exit; a refused call changes nothing. Otherwise a lockdown is remembered and the first call out of lockdown records the exit time. A recorded exit is never changed |
| Scenarios.RunMonotone | src/adapter_covid19/scenarios.py:151-154 | Over any sequence of calls, "has been in lockdown" never reverts, a recorded exit time never changes, and an exit is only recorded after a lockdown |
| Scenarios.RunRefusesLockdownAfterExit | src/adapter_covid19/scenarios.py:147-150 | Once an exit is recorded, every later lockdown call is refused |
| Scenarios.RunWithoutLockdown | src/adapter_covid19/scenarios.py:151-154 | Calls that never ask for lockdown leave a fresh scenario's history fresh |
| Scenarios.FurloughActive | src/adapter_covid19/scenarios.py:80-81 | Furlough is active only when both bounds are set and the window is non-empty. With both bounds set, it is active iff `start <= time < end` |
| Scenarios.FurloughWindowIsInterval | src/adapter_covid19/scenarios.py:80-81 | Furlough is active only when both bounds are set, and it is active on an interval of times |
| Scenarios.FurloughFractions | src/adapter_covid19/scenarios.py:80-82 | Inside the window, the loaded fraction for every sector; outside it, 0 for every sector |
| Scenarios.Product | src/adapter_covid19/scenarios.py:89 | The keys are exactly the (region, sector, age) triples |
| Scenarios.ProductFor | src/adapter_covid19/scenarios.py:89 | The keys of one region are exactly that region's (sector, age) pairs |
| Scenarios.RegimeOf | src/adapter_covid19/scenarios.py:87-116 | The normal branch applies iff not in lockdown and no exit is recorded. Recovery applies iff an exit is recorded, and carries the exit time, the current time and the recovery period its ramp uses. Lockdown applies otherwise |
| Scenarios.RegimeAfterCheck | src/adapter_covid19/scenarios.py:87-111 | After a passing check, the split is in the normal regime iff no lockdown has happened yet, in the lockdown regime iff this call is a lockdown, and in recovery otherwise |
| Scenarios.SplitsLabourKeepsIll | src/adapter_covid19/scenarios.py:138 | In every regime, every key's ill entry is the ill utilisation |
| Scenarios.SplitsLabourNormal | src/adapter_covid19/scenarios.py:87-92 | Before any lockdown, working is the healthy utilisation, and working from home and furloughed are 0 |
| Scenarios.ZeroUtilisations | src/adapter_covid19/scenarios.py:84-86 | One entry of 0 for every labour state of every key, and no other entry |
| Scenarios.SetSplit | src/adapter_covid19/scenarios.py:132-138 | Filling one key sets its four entries as the regime says and changes no other key's entries. In the normal regime only working and ill are written |
| Scenarios.SetSplitKeeps | src/adapter_covid19/scenarios.py:132-138 | Filling one key keeps every other key's entries as they were |
| Scenarios.FillStep | src/adapter_covid19/scenarios.py:132-138 | One iteration of the fill loop keeps the key set, and adds the current key to those filled as the regime says |
| Scenarios.Scenario.constructor | src/adapter_covid19/scenarios.py:41-58 | A new scenario has no lockdown, no exit and no recorded utilisations |
| Scenarios.Scenario.PreSimulationChecks | src/adapter_covid19/scenarios.py:142-154 | Refuses exactly when `Check` does, with the same error and the history unchanged; otherwise the history becomes `Check`'s |
| Scenarios.Scenario.ApplyLockdown | src/adapter_covid19/scenarios.py:64-140 | A missing healthy or ill key is refused. Otherwise there is one entry per labour state and key, each split in the regime the history gives, with the furlough fractions of the window |
| Scenarios.Scenario.Generate | src/adapter_covid19/scenarios.py:159-169 | The history advances as the checks say, even when the split then fails. A refused call records nothing. A failing check returns its own error; when the check passes, a missing healthy or ill key (`KeyError`) is `MissingKey`. A successful one records the split under `time` and returns it with `time` and `lockdown` |

## Left out

- The processes, the events' blocking waits, and `terminate_all_jobs` (`examples/multi_region.py` lines 109-119). A cycle is modelled as the sequential order the events enforce.
- The start-up handshake in the worker's constructor (`examples/multi_region.py` lines 27-31). Also left out: `initialize_model`, the parameter table, `rng_seed` and the contact-tracing parameters.
- MultiRegion.RunToThreshold: because of that handshake, the source's first `one_step_wait` only lets the workers initialise their engines; no engine steps and nothing is written to the table. In the model every cycle, including the first, advances the released engines. So `maxSteps` iterations take `maxSteps` engine steps in the model and `maxSteps - 1` in the source.
- The simulation engine itself. What a region's engine reports is an input: `results[j]` for one cycle, and `engine(j, k)` for its step numbered `k`, counting from 0, in the main loop.
- `create_WorkerJob`'s own loop of `max_steps` waits. Each worker takes part in every cycle that releases it.
- Reading the CSV, the string built for printing, and `print`.
- MultiRegion.RunToThreshold: the example's main loop uses its own constant `n_regions = 10`; the model uses the coordinator's region count, so a mismatch between the two is not modelled.
- MultiRegion.MultiRegionModel.SetPauseInRegion: `raise` with a string (line 144) raises a `TypeError` rather than an error carrying the message. Either way the call fails without changing anything, which is what the model states with `InvalidRegionIndex`.
- MultiRegion.MultiRegionModel.ResultArray: the same holds for `raise( "field not known" )` on line 156, a `TypeError` modelled as `UnknownField`.
- MultiRegion.WorkerJob.OneStepWork: requires the engine's results to hold every registered field. The source raises `KeyError` on line 48 otherwise; that error path, and the fields written before it, are not modelled.
- Utilities: C `int` is modelled as an unbounded integer, so overflow in `max`, `min` and the ring macros is not modelled. `round_random` and `sample_draw_list` are random draws. The `printf` redirection and the declared-only functions are not part of this model.
- Scenarios.Scenario.ApplyLockdown: the arithmetic of lines 93-130 is not modelled. This covers the key-worker share, the lockdown split and the recovery ramp. It is the function input `split`, applied per key to the regime, sector, healthy utilisation and furlough fraction. The recovery regime carries the exit time, the current time and the recovery period, which is what the ramp on lines 114-116 reads. So the model does not state the numeric values of working, working from home and furloughed outside the normal regime.
- Scenarios.Scenario.ApplyLockdown: the `np.isclose` assertion on line 139, that the four entries sum to 1, is a floating-point check. It is not modelled.
- Scenarios.Scenario.ApplyLockdown: outside the normal regime, in lockdown and in recovery alike, `base_utilisations` (lines 94-96) indexes the key-worker table for the sector of every key of `healthy`, including keys outside the (region, sector, age) product. A `KeyError` from a sector missing there is not modelled. The key-worker table is folded into `split`, so only missing healthy or ill product keys are modelled as `MissingKey`.
- Scenarios.Scenario.constructor: requires the furlough fractions to cover every sector. The source only indexes them (line 99) when furlough is active outside the normal regime, and raises `KeyError` for a missing sector there; that error path is not modelled.
- `load`, the data sources, `initialise` and `InitialiseState`. The furlough fractions and the region, sector and age enumerations are given to the constructor.
- `LabourState` is taken to be exactly working, working from home, furloughed and ill. `START_OF_TIME` is a constructor parameter; `src/adapter_covid19/enums.py` and `constants.py` are not part of this model.
- Scenarios.RegimeAfterCheck: excludes a call at time 0. There the recorded exit time 0 is the "not exited" sentinel, and the source cannot tell it from no exit.
