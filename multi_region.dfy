/** The lockstep coordinator of `examples/multi_region.py`: one worker per
    region advances its own simulation engine when released and writes its
    results into a shared integer table; the coordinator releases the
    non-paused regions, waits for them, resets every flag and reopens the
    global gate. The processes and blocking event waits are collapsed into
    the sequential order they enforce within one cycle. */
module MultiRegion {
  import opened Wrappers
  import Utilities

  /** The result fields registered by the coordinator, in table order. */
  const FIELDS: seq<string> := ["total_infected", "total_death", "n_critical"]

  datatype RegionError = InvalidRegionIndex | UnknownField

  /** What a ctypes `"i"` cell keeps of a Python integer: the value
      reduced to a signed 32-bit integer (ctypes masks, it does not raise). */
  function ToCInt(v: int): (r: int)
    ensures -0x8000_0000 <= r < 0x8000_0000
    ensures (v - r) % 0x1_0000_0000 == 0
    ensures -0x8000_0000 <= v < 0x8000_0000 ==> r == v
  {
    (v + 0x8000_0000) % 0x1_0000_0000 - 0x8000_0000
  }

  // ---------------------------------------------------------------------
  // The result table: field-major, region `idx` of field `fdx` at
  // `idx + fdx * n_regions`.
  // ---------------------------------------------------------------------

  function CellIndex(idx: int, fdx: int, n: int): int
  {
    idx + fdx * n
  }

  /** Every (region, field) pair addresses a cell of the table. */
  lemma CellInTable(idx: int, fdx: int, n: int, nFields: int)
    requires 0 <= idx < n && 0 <= fdx < nFields
    ensures 0 <= CellIndex(idx, fdx, n) < n * nFields
  {
    assert fdx * n >= 0;
    if fdx + 1 < nFields {
      Utilities.MulAtLeast(nFields - (fdx + 1), n);
    }
    assert CellIndex(idx, fdx, n) < (fdx + 1) * n;
  }

  /** A cell names its region as the remainder and its field as the quotient. */
  lemma CellDecode(idx: int, fdx: int, n: int)
    requires 0 <= idx < n && 0 <= fdx
    ensures CellIndex(idx, fdx, n) % n == idx
    ensures CellIndex(idx, fdx, n) / n == fdx
  {
    Utilities.DivModUnique(CellIndex(idx, fdx, n), n, fdx, idx);
  }

  /** Distinct (region, field) pairs never share a cell. */
  lemma CellInjective(i1: int, f1: int, i2: int, f2: int, n: int)
    requires 0 <= i1 < n && 0 <= f1 && 0 <= i2 < n && 0 <= f2
    ensures CellIndex(i1, f1, n) == CellIndex(i2, f2, n) <==> i1 == i2 && f1 == f2
  {
    CellDecode(i1, f1, n);
    CellDecode(i2, f2, n);
  }

  /** Every cell of the table belongs to exactly one (region, field) pair. */
  lemma CellOfIndex(c: int, n: int, nFields: int)
    requires n > 0 && 0 <= c < n * nFields
    ensures 0 <= c % n < n && 0 <= c / n < nFields
    ensures CellIndex(c % n, c / n, n) == c
    ensures forall i, f :: 0 <= i < n && 0 <= f && CellIndex(i, f, n) == c ==> i == c % n && f == c / n
  {
    if c / n >= nFields {
      Utilities.MulAtLeast(c / n - nFields + 1, n);
    }
    forall i, f | 0 <= i < n && 0 <= f && CellIndex(i, f, n) == c
      ensures i == c % n && f == c / n
    {
      CellInjective(i, f, c % n, c / n, n);
    }
  }

  /** The table after the workers of the regions in `cols` have each
      written their column: `cols[idx][fdx]` lands in region `idx`'s cell
      of field `fdx`, and every other cell keeps its value. */
  function Written(t: seq<int>, n: int, cols: map<int, seq<int>>): (r: seq<int>)
    ensures |r| == |t|
  {
    if n <= 0 then t
    else
      seq(|t|, c requires 0 <= c < |t| =>
        (if c % n in cols && c / n < |cols[c % n]| then cols[c % n][c / n] else t[c]))
  }

  /** A value a worker writes is found at its own region's cell. */
  lemma WrittenReadsBack(t: seq<int>, n: int, cols: map<int, seq<int>>, idx: int, fdx: int)
    requires 0 <= idx < n && idx in cols && 0 <= fdx < |cols[idx]|
    requires CellIndex(idx, fdx, n) < |t|
    ensures Written(t, n, cols)[CellIndex(idx, fdx, n)] == cols[idx][fdx]
  {
    CellDecode(idx, fdx, n);
  }

  /** The cells of a region that wrote nothing keep their values. */
  lemma WrittenKeepsOthers(t: seq<int>, n: int, cols: map<int, seq<int>>, idx: int, fdx: int)
    requires 0 <= idx < n && idx !in cols && 0 <= fdx
    requires CellIndex(idx, fdx, n) < |t|
    ensures Written(t, n, cols)[CellIndex(idx, fdx, n)] == t[CellIndex(idx, fdx, n)]
  {
    CellDecode(idx, fdx, n);
  }

  /** One more cell of a worker's column, in `one_step_work`'s loop. */
  lemma WrittenExtend(t: seq<int>, n: int, idx: int, col: seq<int>, fdx: int)
    requires 0 <= idx < n && 0 <= fdx < |col|
    requires CellIndex(idx, fdx, n) < |t|
    ensures Written(t, n, map[idx := col[..fdx + 1]])
         == Written(t, n, map[idx := col[..fdx]])[CellIndex(idx, fdx, n) := col[fdx]]
  {
    var a := Written(t, n, map[idx := col[..fdx + 1]]);
    var b := Written(t, n, map[idx := col[..fdx]])[CellIndex(idx, fdx, n) := col[fdx]];
    forall c | 0 <= c < |t|
      ensures a[c] == b[c]
    {
      WrittenExtendCell(t, n, idx, col, fdx, c);
    }
  }

  lemma WrittenExtendCell(t: seq<int>, n: int, idx: int, col: seq<int>, fdx: int, c: int)
    requires 0 <= idx < n && 0 <= fdx < |col|
    requires CellIndex(idx, fdx, n) < |t| && 0 <= c < |t|
    ensures Written(t, n, map[idx := col[..fdx + 1]])[c]
         == Written(t, n, map[idx := col[..fdx]])[CellIndex(idx, fdx, n) := col[fdx]][c]
  {
    var longer, shorter := col[..fdx + 1], col[..fdx];
    WrittenAt(t, n, map[idx := longer], c);
    WrittenAt(t, n, map[idx := shorter], c);
    if c == CellIndex(idx, fdx, n) {
      CellDecode(idx, fdx, n);
    } else if c % n == idx {
      OtherCellOfRegion(c, n, idx, fdx);
    }
  }

  /** One cell of `Written`, by its region `c % n` and field `c / n`. */
  lemma WrittenAt(t: seq<int>, n: int, cols: map<int, seq<int>>, c: int)
    requires n > 0 && 0 <= c < |t|
    ensures Written(t, n, cols)[c]
         == if c % n in cols && c / n < |cols[c % n]| then cols[c % n][c / n] else t[c]
  {
  }

  /** Another cell of region `idx` belongs to another field. */
  lemma OtherCellOfRegion(c: int, n: int, idx: int, fdx: int)
    requires 0 <= idx < n && 0 <= fdx && c % n == idx && c != CellIndex(idx, fdx, n)
    ensures c / n != fdx
  {
    if c / n == fdx {
      Utilities.DivModUnique(c, n, c / n, c % n);
    }
  }

  /** One more worker's column, in the coordinator's collect loop. */
  lemma WrittenAddColumn(t: seq<int>, n: int, cols: map<int, seq<int>>, idx: int, col: seq<int>)
    requires idx !in cols
    ensures Written(Written(t, n, cols), n, map[idx := col]) == Written(t, n, cols[idx := col])
  {
  }

  // ---------------------------------------------------------------------
  // The worker
  // ---------------------------------------------------------------------

  /** The column `one_step_work` copies out of one step's engine results. */
  function StepColumn(fields: seq<string>, res: map<string, int>): (col: seq<int>)
    requires forall f :: f in fields ==> f in res
    ensures |col| == |fields|
    ensures forall fdx :: 0 <= fdx < |fields| ==>
      -0x8000_0000 <= col[fdx] < 0x8000_0000 && (res[fields[fdx]] - col[fdx]) % 0x1_0000_0000 == 0
  {
    seq(|fields|, fdx requires 0 <= fdx < |fields| => ToCInt(res[fields[fdx]]))
  }

  /** A worker process: it owns the engine of region `idx`, shares the
      result table `data` and waits on its own `go` flag and signals its own
      `done` flag. */
  class WorkerJob {
    const idx: nat
    const data: array<int>
    const fields: seq<string>
    const nRegions: nat
    const go: array<bool>
    const done: array<bool>

    ghost predicate Valid()
    {
      idx < nRegions && data.Length == nRegions * |fields| &&
      go.Length == nRegions && done.Length == nRegions && go != done
    }

    constructor (go: array<bool>, done: array<bool>, idx: nat, data: array<int>,
                 fields: seq<string>, nRegions: nat)
      ensures this.go == go && this.done == done && this.idx == idx && this.data == data
      ensures this.fields == fields && this.nRegions == nRegions
    {
      this.go := go;
      this.done := done;
      this.idx := idx;
      this.data := data;
      this.fields := fields;
      this.nRegions := nRegions;
    }

    /** `one_step_work`: the engine has advanced one step and produced
        `res`; copy every registered field into this region's column. */
    method OneStepWork(res: map<string, int>)
      requires Valid()
      requires forall f :: f in fields ==> f in res
      modifies data
      ensures data[..] == Written(old(data[..]), nRegions, map[idx := StepColumn(fields, res)])
    {
      var col := StepColumn(fields, res);
      for fdx := 0 to |fields|
        invariant data[..] == Written(old(data[..]), nRegions, map[idx := col[..fdx]])
      {
        CellInTable(idx, fdx, nRegions, |fields|);
        WrittenExtend(old(data[..]), nRegions, idx, col, fdx);
        data[idx + fdx * nRegions] := ToCInt(res[fields[fdx]]);
      }
      assert col[..|fields|] == col;
    }

    /** `one_step_wait` once released (its `go` flag is set): do the step's
        work, then signal `done`. The wait on the global gate that follows
        is where the sequential model hands control back. */
    method OneStepWait(res: map<string, int>)
      requires Valid() && go[idx]
      requires forall f :: f in fields ==> f in res
      modifies data, done
      ensures data[..] == Written(old(data[..]), nRegions, map[idx := StepColumn(fields, res)])
      ensures done[..] == old(done[..])[idx := true]
    {
      OneStepWork(res);
      done[idx] := true;
    }
  }

  // ---------------------------------------------------------------------
  // The order of one cycle
  // ---------------------------------------------------------------------

  /** The coordinator's observable actions within a cycle. `Done(j)` is the
      coordinator's wait on region `j`'s done flag returning; `Reset(j)`
      clears both of region `j`'s flags. */
  datatype Signal = GateCleared | Go(region: int) | Done(region: int) | Reset(region: int) | GateSet

  /** The regions not paused, in the order the coordinator visits them. */
  function Released(paused: seq<bool>): (rs: seq<int>)
    ensures forall j :: j in rs <==> 0 <= j < |paused| && !paused[j]
  {
    if paused == [] then []
    else
      var k := |paused| - 1;
      Released(paused[..k]) + (if paused[k] then [] else [k])
  }

  /** The coordinator visits the released regions in increasing order, so
      none is released or waited for twice. */
  lemma {:induction false} ReleasedIncreasing(paused: seq<bool>)
    ensures forall a, b :: 0 <= a < b < |Released(paused)| ==> Released(paused)[a] < Released(paused)[b]
  {
    if paused != [] {
      var k := |paused| - 1;
      var front := Released(paused[..k]);
      ReleasedIncreasing(paused[..k]);
      forall i | 0 <= i < |front|
        ensures front[i] < k
      {
        assert front[i] in front;
      }
      var rs := Released(paused);
      assert rs == front + (if paused[k] then [] else [k]);
      forall a, b | 0 <= a < b < |rs|
        ensures rs[a] < rs[b]
      {
        if b < |front| {
          assert rs[a] == front[a] && rs[b] == front[b];
          assert front[a] < front[b];
        } else {
          assert rs[a] == front[a] && rs[b] == k;
        }
      }
    }
  }

  /** Releasing one more region's flag extends the list by that region
      if it is not paused. */
  lemma ReleasedStep(paused: seq<bool>, j: int)
    requires 0 <= j < |paused|
    ensures Released(paused[..j + 1]) == Released(paused[..j]) + (if paused[j] then [] else [j])
  {
    assert paused[..j + 1][..j] == paused[..j];
  }

  lemma SignalsStep(rs: seq<int>, j: int)
    ensures GoSignals(rs + [j]) == GoSignals(rs) + [Go(j)]
    ensures DoneSignals(rs + [j]) == DoneSignals(rs) + [Done(j)]
  {
  }

  /** The trace of the release loop after region `j`. */
  lemma GoSignalsStep(s0: seq<Signal>, paused: seq<bool>, j: int)
    requires 0 <= j < |paused|
    ensures s0 + GoSignals(Released(paused[..j])) + (if paused[j] then [] else [Go(j)])
         == s0 + GoSignals(Released(paused[..j + 1]))
  {
    ReleasedStep(paused, j);
    SignalsStep(Released(paused[..j]), j);
  }

  /** The trace of the collect loop after region `j`. */
  lemma DoneSignalsStep(s0: seq<Signal>, paused: seq<bool>, j: int)
    requires 0 <= j < |paused|
    ensures s0 + DoneSignals(Released(paused[..j])) + (if paused[j] then [] else [Done(j)])
         == s0 + DoneSignals(Released(paused[..j + 1]))
  {
    ReleasedStep(paused, j);
    SignalsStep(Released(paused[..j]), j);
  }

  function GoSignals(rs: seq<int>): seq<Signal>
  {
    seq(|rs|, i requires 0 <= i < |rs| => Go(rs[i]))
  }

  function DoneSignals(rs: seq<int>): seq<Signal>
  {
    seq(|rs|, i requires 0 <= i < |rs| => Done(rs[i]))
  }

  function ResetSignals(n: nat): seq<Signal>
  {
    seq(n, j => Reset(j))
  }

  /** The actions of one `one_step_wait` with pause flags `paused`. */
  function CycleSignals(paused: seq<bool>): seq<Signal>
  {
    var rs := Released(paused);
    [GateCleared] + GoSignals(rs) + DoneSignals(rs) + ResetSignals(|paused|) + [GateSet]
  }

  /** The actions of a cycle, appended phase by phase to a trace. */
  lemma CycleSignalsAfter(s0: seq<Signal>, paused: seq<bool>)
    ensures var rs := Released(paused);
      s0 + [GateCleared] + GoSignals(rs) + DoneSignals(rs) + ResetSignals(|paused|) + [GateSet]
        == s0 + CycleSignals(paused)
  {
    var rs := Released(paused);
    var g, d, r := GoSignals(rs), DoneSignals(rs), ResetSignals(|paused|);
    AppendAssoc(s0, [GateCleared] + g + d + r, [GateSet]);
    AppendAssoc(s0, [GateCleared] + g + d, r);
    AppendAssoc(s0, [GateCleared] + g, d);
    AppendAssoc(s0, [GateCleared], g);
  }

  lemma AppendAssoc(a: seq<Signal>, b: seq<Signal>, c: seq<Signal>)
    ensures a + (b + c) == a + b + c
  {
  }

  /** The action at position `i` of a cycle that releases the regions
      `rs` out of `n`: the gate is cleared at 0, the releases fill 1..m,
      the waits m+1..2m, the resets 2m+1..2m+n, and the gate is set at
      2m+n+1, where `m` is `|rs|`. */
  function SignalAt(rs: seq<int>, n: nat, i: int): Signal
    requires 0 <= i < 2 * |rs| + n + 2
  {
    var m := |rs|;
    if i == 0 then GateCleared
    else if i <= m then Go(rs[i - 1])
    else if i <= 2 * m then Done(rs[i - 1 - m])
    else if i <= 2 * m + n then Reset(i - 1 - 2 * m)
    else GateSet
  }

  lemma CyclePositions(paused: seq<bool>)
    ensures var rs, s := Released(paused), CycleSignals(paused);
      && |s| == 2 * |rs| + |paused| + 2
      && forall i :: 0 <= i < |s| ==> s[i] == SignalAt(rs, |paused|, i)
  {
    var rs := Released(paused);
    var m, n := |rs|, |paused|;
    var front := [GateCleared] + GoSignals(rs) + DoneSignals(rs);
    var back := ResetSignals(n) + [GateSet];
    var s := CycleSignals(paused);
    assert s == front + back;
    assert |front| == 2 * m + 1;
    forall i | 0 <= i < |s|
      ensures s[i] == SignalAt(rs, n, i)
    {
      if i < |front| {
        assert s[i] == front[i];
      } else {
        assert s[i] == back[i - |front|];
      }
    }
  }

  /** Within a cycle the gate is cleared first and set last, and each
      happens once. */
  lemma CycleGateOrder(paused: seq<bool>)
    ensures var s := CycleSignals(paused);
      && s[0] == GateCleared && s[|s| - 1] == GateSet
      && (forall i :: 0 < i < |s| ==> s[i] != GateCleared)
      && (forall i :: 0 <= i < |s| - 1 ==> s[i] != GateSet)
  {
    CyclePositions(paused);
  }

  /** Region `j` is released in a cycle iff it is not paused. */
  lemma CycleReleasesRegion(paused: seq<bool>, j: int)
    ensures Go(j) in CycleSignals(paused) <==> 0 <= j < |paused| && !paused[j]
  {
    var rs, s := Released(paused), CycleSignals(paused);
    CyclePositions(paused);
    if j in rs {
      var i :| 0 <= i < |rs| && rs[i] == j;
      assert s[1 + i] == Go(j);
    }
  }

  /** The coordinator waits for region `j` in a cycle iff it is not paused. */
  lemma CycleWaitsForRegion(paused: seq<bool>, j: int)
    ensures Done(j) in CycleSignals(paused) <==> 0 <= j < |paused| && !paused[j]
  {
    var rs, s := Released(paused), CycleSignals(paused);
    CyclePositions(paused);
    if j in rs {
      var i :| 0 <= i < |rs| && rs[i] == j;
      assert s[1 + |rs| + i] == Done(j);
    }
  }

  /** Every region's flags, paused or not, are reset in a cycle. */
  lemma CycleResetsRegion(paused: seq<bool>, j: int)
    ensures Reset(j) in CycleSignals(paused) <==> 0 <= j < |paused|
  {
    var rs, s := Released(paused), CycleSignals(paused);
    CyclePositions(paused);
    if 0 <= j < |paused| {
      assert s[1 + 2 * |rs| + j] == Reset(j);
    }
  }

  /** Every release comes before every wait, and every wait before every
      reset. */
  lemma CycleReleaseBeforeWait(paused: seq<bool>)
    ensures var s := CycleSignals(paused);
      && (forall a, b :: 0 <= a < |s| && 0 <= b < |s| && s[a].Go? && s[b].Done? ==> a < b)
      && (forall a, b :: 0 <= a < |s| && 0 <= b < |s| && s[a].Done? && s[b].Reset? ==> a < b)
  {
    CyclePositions(paused);
  }

  // ---------------------------------------------------------------------
  // The coordinator
  // ---------------------------------------------------------------------

  /** The columns the released workers write in a cycle. */
  function CycleColumns(paused: seq<bool>, fields: seq<string>, results: seq<map<string, int>>, k: int): (cols: map<int, seq<int>>)
    requires |results| == |paused| && 0 <= k <= |paused|
    requires forall j :: 0 <= j < |paused| && !paused[j] ==> forall f :: f in fields ==> f in results[j]
    ensures forall j :: j in cols <==> 0 <= j < k && !paused[j]
  {
    map j | 0 <= j < k && !paused[j] :: StepColumn(fields, results[j])
  }

  /** The regions that write a column in a cycle are exactly those the
      release loop visits. */
  lemma CycleColumnsReleased(paused: seq<bool>, fields: seq<string>, results: seq<map<string, int>>)
    requires |results| == |paused|
    requires forall j :: 0 <= j < |paused| && !paused[j] ==> forall f :: f in fields ==> f in results[j]
    ensures forall j :: j in CycleColumns(paused, fields, results, |paused|) <==> j in Released(paused)
  {
  }

  lemma CycleColumnsStep(paused: seq<bool>, fields: seq<string>, results: seq<map<string, int>>, j: int)
    requires |results| == |paused| && 0 <= j < |paused|
    requires forall j :: 0 <= j < |paused| && !paused[j] ==> forall f :: f in fields ==> f in results[j]
    ensures CycleColumns(paused, fields, results, j + 1)
         == if paused[j] then CycleColumns(paused, fields, results, j)
            else CycleColumns(paused, fields, results, j)[j := StepColumn(fields, results[j])]
  {
  }

  /** A cycle changes exactly the released regions' cells: a released
      region's cell of field `fdx` holds the engine's value for that field,
      read back at the region's position, and a paused region's cells are
      untouched. */
  lemma CycleTouchesOnlyReleased(t: seq<int>, paused: seq<bool>, fields: seq<string>,
                                 results: seq<map<string, int>>, idx: int, fdx: int)
    requires |results| == |paused| && |t| == |paused| * |fields|
    requires forall j :: 0 <= j < |paused| && !paused[j] ==> forall f :: f in fields ==> f in results[j]
    requires 0 <= idx < |paused| && 0 <= fdx < |fields|
    ensures CellIndex(idx, fdx, |paused|) < |t|
    ensures Written(t, |paused|, CycleColumns(paused, fields, results, |paused|))[CellIndex(idx, fdx, |paused|)]
         == if paused[idx] then t[CellIndex(idx, fdx, |paused|)] else ToCInt(results[idx][fields[fdx]])
  {
    var n := |paused|;
    CellInTable(idx, fdx, n, |fields|);
    var cols := CycleColumns(paused, fields, results, n);
    if paused[idx] {
      assert idx !in cols;
      WrittenKeepsOthers(t, n, cols, idx, fdx);
    } else {
      assert idx in cols;
      var col := StepColumn(fields, results[idx]);
      assert cols[idx] == col;
      assert col[fdx] == ToCInt(results[idx][fields[fdx]]);
      WrittenReadsBack(t, n, cols, idx, fdx);
    }
  }

  /** `list.index`: the first position of a registered field. */
  function IndexOf(fields: seq<string>, f: string): (k: int)
    requires f in fields
    ensures 0 <= k < |fields| && fields[k] == f
    ensures forall i :: 0 <= i < k ==> fields[i] != f
  {
    if fields[0] == f then 0 else 1 + IndexOf(fields[1..], f)
  }

  /** The coordinator: pause flags, per-region go and done flags, the global
      gate, the shared table and the workers that write it. */
  class MultiRegionModel {
    const nRegions: nat
    const fields: seq<string>
    const sharedArray: array<int>
    const pauseRegion: array<bool>
    const jobsGo: array<bool>
    const jobsDone: array<bool>
    const workers: seq<WorkerJob>
    var globalGate: bool
    /** Every action of every cycle so far, in order. */
    ghost var signals: seq<Signal>

    /** The wiring set up by the constructor, which never changes. */
    ghost predicate Wired()
    {
      && fields == FIELDS
      && sharedArray.Length == nRegions * |fields|
      && pauseRegion.Length == nRegions && jobsGo.Length == nRegions && jobsDone.Length == nRegions
      && jobsGo != jobsDone && jobsGo != pauseRegion && jobsDone != pauseRegion
      && |workers| == nRegions
      && forall j :: 0 <= j < nRegions ==>
           && workers[j].idx == j && workers[j].data == sharedArray && workers[j].fields == fields
           && workers[j].nRegions == nRegions && workers[j].go == jobsGo && workers[j].done == jobsDone
    }

    /** Between cycles every go and done flag is clear. */
    ghost predicate Valid()
      reads jobsGo, jobsDone
    {
      Wired() && forall j :: 0 <= j < nRegions ==> !jobsGo[j] && !jobsDone[j]
    }

    /** `__init__`: a zeroed table, no region paused, every flag clear, one
        worker per region. */
    constructor (nRegions: nat)
      ensures Valid() && this.nRegions == nRegions
      ensures fresh(sharedArray) && fresh(pauseRegion) && fresh(jobsGo) && fresh(jobsDone)
      ensures forall c :: 0 <= c < sharedArray.Length ==> sharedArray[c] == 0
      ensures forall j :: 0 <= j < nRegions ==> !pauseRegion[j]
      ensures !globalGate && signals == []
    {
      var table := new int[nRegions * |FIELDS|](_ => 0);
      var pause := new bool[nRegions](_ => false);
      var go := new bool[nRegions](_ => false);
      var done := new bool[nRegions](_ => false);
      var ws: seq<WorkerJob> := [];
      for j := 0 to nRegions
        invariant |ws| == j
        invariant forall c :: 0 <= c < table.Length ==> table[c] == 0
        invariant forall i :: 0 <= i < nRegions ==> !pause[i] && !go[i] && !done[i]
        invariant forall i :: 0 <= i < j ==>
          && ws[i].idx == i && ws[i].data == table && ws[i].fields == FIELDS
          && ws[i].nRegions == nRegions && ws[i].go == go && ws[i].done == done
      {
        var w := new WorkerJob(go, done, j, table, FIELDS, nRegions);
        ws := ws + [w];
      }
      this.nRegions := nRegions;
      fields := FIELDS;
      sharedArray := table;
      pauseRegion := pause;
      jobsGo := go;
      jobsDone := done;
      workers := ws;
      globalGate := false;
      signals := [];
    }

    /** `one_step_wait`: one lockstep cycle. `results[j]` is what region
        `j`'s engine reports for its next step; only released regions' are
        used. */
    method OneStepWait(results: seq<map<string, int>>)
      requires Valid() && |results| == nRegions
      requires forall j :: 0 <= j < nRegions && !pauseRegion[j] ==> forall f :: f in fields ==> f in results[j]
      modifies this, sharedArray, jobsGo, jobsDone
      ensures Valid() && globalGate
      ensures sharedArray[..]
           == Written(old(sharedArray[..]), nRegions, CycleColumns(pauseRegion[..], fields, results, nRegions))
      ensures signals == old(signals) + CycleSignals(pauseRegion[..])
    {
      ghost var s0 := signals;
      globalGate := false;
      signals := signals + [GateCleared];
      ReleaseUnpaused();
      CollectReleased(results);
      ResetFlags();
      globalGate := true;
      signals := signals + [GateSet];
      CycleSignalsAfter(s0, pauseRegion[..]);
    }

    /** The release phase: set the go flag of every non-paused region. */
    method ReleaseUnpaused()
      requires Wired()
      requires forall i :: 0 <= i < nRegions ==> !jobsGo[i]
      modifies this`signals, jobsGo
      ensures forall i :: 0 <= i < nRegions ==> jobsGo[i] == !pauseRegion[i]
      ensures signals == old(signals) + GoSignals(Released(pauseRegion[..]))
    {
      ghost var paused := pauseRegion[..];
      for j := 0 to nRegions
        invariant forall i :: 0 <= i < nRegions ==> jobsGo[i] == (i < j && !paused[i])
        invariant signals == old(signals) + GoSignals(Released(paused[..j]))
      {
        GoSignalsStep(old(signals), paused, j);
        if !pauseRegion[j] {
          jobsGo[j] := true;
          signals := signals + [Go(j)];
        }
      }
      assert paused[..nRegions] == paused;
    }

    /** The collect phase: each released worker writes its column and sets
        its done flag, and the coordinator waits for exactly those flags. */
    method CollectReleased(results: seq<map<string, int>>)
      requires Wired() && |results| == nRegions
      requires forall j :: 0 <= j < nRegions && !pauseRegion[j] ==> forall f :: f in fields ==> f in results[j]
      requires forall i :: 0 <= i < nRegions ==> jobsGo[i] == !pauseRegion[i] && !jobsDone[i]
      modifies this`signals, sharedArray, jobsDone
      ensures forall i :: 0 <= i < nRegions ==> jobsDone[i] == !pauseRegion[i]
      ensures sharedArray[..]
           == Written(old(sharedArray[..]), nRegions, CycleColumns(pauseRegion[..], fields, results, nRegions))
      ensures signals == old(signals) + DoneSignals(Released(pauseRegion[..]))
    {
      ghost var paused := pauseRegion[..];
      ghost var t := sharedArray[..];
      for j := 0 to nRegions
        invariant forall i :: 0 <= i < nRegions ==> jobsGo[i] == !paused[i]
        invariant forall i :: 0 <= i < nRegions ==> jobsDone[i] == (i < j && !paused[i])
        invariant sharedArray[..] == Written(t, nRegions, CycleColumns(paused, fields, results, j))
        invariant signals == old(signals) + DoneSignals(Released(paused[..j]))
      {
        DoneSignalsStep(old(signals), paused, j);
        CollectRegion(results, j, paused, t);
      }
      assert paused[..nRegions] == paused;
    }

    /** One step of the collect phase: if region `j` was released, its
        worker writes its column and the coordinator's wait on its done
        flag returns. */
    method CollectRegion(results: seq<map<string, int>>, j: int, ghost paused: seq<bool>, ghost t: seq<int>)
      requires Wired() && |results| == nRegions && 0 <= j < nRegions && paused == pauseRegion[..]
      requires forall j :: 0 <= j < nRegions && !pauseRegion[j] ==> forall f :: f in fields ==> f in results[j]
      requires forall i :: 0 <= i < nRegions ==> jobsGo[i] == !paused[i]
      requires forall i :: 0 <= i < nRegions ==> jobsDone[i] == (i < j && !paused[i])
      requires sharedArray[..] == Written(t, nRegions, CycleColumns(paused, fields, results, j))
      modifies this`signals, sharedArray, jobsDone
      ensures forall i :: 0 <= i < nRegions ==> jobsDone[i] == (i < j + 1 && !paused[i])
      ensures sharedArray[..] == Written(t, nRegions, CycleColumns(paused, fields, results, j + 1))
      ensures signals == old(signals) + (if paused[j] then [] else [Done(j)])
    {
      CycleColumnsStep(paused, fields, results, j);
      if !pauseRegion[j] {
        WrittenAddColumn(t, nRegions, CycleColumns(paused, fields, results, j), j, StepColumn(fields, results[j]));
        workers[j].OneStepWait(results[j]);
        signals := signals + [Done(j)];
      }
    }

    /** Clear every region's go and done flags, paused or not. */
    method ResetFlags()
      requires Wired()
      modifies this`signals, jobsGo, jobsDone
      ensures forall i :: 0 <= i < nRegions ==> !jobsGo[i] && !jobsDone[i]
      ensures signals == old(signals) + ResetSignals(nRegions)
    {
      for j := 0 to nRegions
        invariant forall i :: 0 <= i < j ==> !jobsGo[i] && !jobsDone[i]
        invariant signals == old(signals) + ResetSignals(j)
      {
        jobsDone[j] := false;
        jobsGo[j] := false;
        signals := signals + [Reset(j)];
      }
    }

    /** `set_pause_in_region`: an index outside `[0, n_regions)` is refused
        and changes nothing; otherwise only that region's flag changes. */
    method SetPauseInRegion(region: int, pause: bool) returns (r: Outcome<RegionError>)
      requires Valid()
      modifies pauseRegion
      ensures r.Fail? <==> region < 0 || region >= nRegions
      ensures r.Fail? ==> r.error == InvalidRegionIndex && pauseRegion[..] == old(pauseRegion[..])
      ensures r.Pass? ==> pauseRegion[..] == old(pauseRegion[..])[region := pause]
    {
      if region < 0 || region >= nRegions {
        return Fail(InvalidRegionIndex);
      }
      pauseRegion[region] := pause;
      r := Pass;
    }

    /** `set_pause`: every region's flag becomes `pause`. */
    method SetPause(pause: bool)
      requires Valid()
      modifies pauseRegion
      ensures forall j :: 0 <= j < nRegions ==> pauseRegion[j] == pause
    {
      for region := 0 to nRegions
        invariant forall j :: 0 <= j < region ==> pauseRegion[j] == pause
      {
        pauseRegion[region] := pause;
      }
    }

    /** `result_array`: an unregistered field is refused; otherwise the
        field's value for every region, in region order. */
    method ResultArray(field: string) returns (r: Result<seq<int>, RegionError>)
      requires Valid()
      ensures r.Failure? <==> field !in fields
      ensures r.Failure? ==> r.error == UnknownField
      ensures r.Success? ==> |r.value| == nRegions
      ensures r.Success? ==> forall idx :: 0 <= idx < nRegions ==>
        r.value[idx] == sharedArray[CellIndex(idx, IndexOf(fields, field), nRegions)]
    {
      if field !in fields {
        return Failure(UnknownField);
      }
      var fdx := IndexOf(fields, field);
      var base := fdx * nRegions;
      var res: seq<int> := [];
      for idx := 0 to nRegions
        invariant |res| == idx
        invariant forall k :: 0 <= k < idx ==> res[k] == sharedArray[CellIndex(k, fdx, nRegions)]
      {
        CellInTable(idx, fdx, nRegions, |fields|);
        res := res + [sharedArray[base + idx]];
      }
      r := Success(res);
    }
  }

  /** A cycle followed by `result_array(field)`: each released region's
      entry is the value its engine reported for `field`, as a 32-bit
      cell keeps it; each paused region's entry is what its cell held
      before the cycle. */
  method ReadAfterCycle(model: MultiRegionModel, results: seq<map<string, int>>, field: string)
    returns (r: Result<seq<int>, RegionError>)
    requires model.Valid() && |results| == model.nRegions
    requires forall j :: 0 <= j < model.nRegions && !model.pauseRegion[j] ==>
      forall f :: f in model.fields ==> f in results[j]
    modifies model, model.sharedArray, model.jobsGo, model.jobsDone
    ensures model.Valid()
    ensures r.Failure? <==> field !in FIELDS
    ensures r.Failure? ==> r.error == UnknownField
    ensures r.Success? ==> |r.value| == model.nRegions && forall idx :: 0 <= idx < model.nRegions ==>
      r.value[idx] == if model.pauseRegion[idx] then old(model.sharedArray[CellIndex(idx, IndexOf(FIELDS, field), model.nRegions)])
                      else ToCInt(results[idx][field])
  {
    ghost var t := model.sharedArray[..];
    ghost var paused := model.pauseRegion[..];
    model.OneStepWait(results);
    r := model.ResultArray(field);
    if r.Success? {
      var n, fdx := model.nRegions, IndexOf(FIELDS, field);
      ghost var t' := model.sharedArray[..];
      forall idx | 0 <= idx < n
        ensures CellIndex(idx, fdx, n) < |t'| && r.value[idx] == t'[CellIndex(idx, fdx, n)]
      {
        CellInTable(idx, fdx, n, |FIELDS|);
      }
      CycleReadBack(t, t', paused, results, fdx, r.value);
      forall idx | 0 <= idx < n
        ensures r.value[idx] == if model.pauseRegion[idx] then old(model.sharedArray[CellIndex(idx, fdx, n)])
                                else ToCInt(results[idx][field])
      {
        assert model.pauseRegion[idx] == paused[idx];
      }
    }
  }

  /** The table after a cycle, read along one field. */
  lemma CycleReadBack(t: seq<int>, t': seq<int>, paused: seq<bool>, results: seq<map<string, int>>, fdx: int, v: seq<int>)
    requires |results| == |paused| && |t| == |paused| * |FIELDS| && 0 <= fdx < |FIELDS|
    requires forall j :: 0 <= j < |paused| && !paused[j] ==> forall f :: f in FIELDS ==> f in results[j]
    requires t' == Written(t, |paused|, CycleColumns(paused, FIELDS, results, |paused|))
    requires |v| == |paused|
    requires forall idx :: 0 <= idx < |paused| ==>
      CellIndex(idx, fdx, |paused|) < |t'| && v[idx] == t'[CellIndex(idx, fdx, |paused|)]
    ensures forall idx :: 0 <= idx < |paused| ==>
      v[idx] == if paused[idx] then t[CellIndex(idx, fdx, |paused|)] else ToCInt(results[idx][FIELDS[fdx]])
  {
    forall idx | 0 <= idx < |paused|
      ensures v[idx] == if paused[idx] then t[CellIndex(idx, fdx, |paused|)] else ToCInt(results[idx][FIELDS[fdx]])
    {
      CycleTouchesOnlyReleased(t, paused, FIELDS, results, idx, fdx);
    }
  }

  // ---------------------------------------------------------------------
  // The driver loop of the example's entry point
  // ---------------------------------------------------------------------

  /** How many of `col`'s values reach `bound`. */
  function CountAtLeast(col: seq<int>, bound: int): (k: nat)
    ensures k <= |col|
    ensures k == |col| <==> forall j :: 0 <= j < |col| ==> col[j] >= bound
  {
    if col == [] then 0
    else
      var last := |col| - 1;
      CountAtLeast(col[..last], bound) + (if col[last] >= bound then 1 else 0)
  }

  lemma CountAtLeastStep(col: seq<int>, bound: int, j: int)
    requires 0 <= j < |col|
    ensures CountAtLeast(col[..j + 1], bound) == CountAtLeast(col[..j], bound) + (if col[j] >= bound then 1 else 0)
  {
    assert col[..j + 1][..j] == col[..j];
  }

  /** The pause flags after one threshold check: every region whose
      infected count reaches `syncInf` is paused, unless all of them do, in
      which case every region is unpaused. */
  function ThresholdPause(pause: seq<bool>, infected: seq<int>, syncInf: int): (p: seq<bool>)
    requires |pause| == |infected|
    ensures |p| == |pause|
    ensures (forall j :: 0 <= j < |infected| ==> infected[j] >= syncInf) ==> forall j :: 0 <= j < |p| ==> !p[j]
    ensures (exists j :: 0 <= j < |infected| && infected[j] < syncInf) ==>
      forall j :: 0 <= j < |p| ==> p[j] == (pause[j] || infected[j] >= syncInf)
  {
    if CountAtLeast(infected, syncInf) == |infected| then seq(|pause|, _ => false)
    else seq(|pause|, j requires 0 <= j < |pause| => pause[j] || infected[j] >= syncInf)
  }

  /** A threshold check keeps "only regions at the threshold are paused",
      and leaves at least one region running, so the next cycle releases
      someone. */
  lemma ThresholdPauseKeepsOneRunning(pause: seq<bool>, infected: seq<int>, syncInf: int)
    requires |pause| == |infected|
    requires forall j :: 0 <= j < |pause| && pause[j] ==> infected[j] >= syncInf
    ensures var p := ThresholdPause(pause, infected, syncInf);
      && (forall j :: 0 <= j < |p| && p[j] ==> infected[j] >= syncInf)
      && (|p| > 0 ==> exists j :: 0 <= j < |p| && !p[j])
  {
    var p := ThresholdPause(pause, infected, syncInf);
    if |p| > 0 {
      if CountAtLeast(infected, syncInf) == |infected| {
        assert !p[0];
      } else {
        var j :| 0 <= j < |infected| && infected[j] < syncInf;
        assert !p[j];
      }
    }
  }

  /** The threshold check after each cycle: pause every region whose
      `total_infected` (cell `j` of the table) reaches `syncInf`, count
      them, and unpause all when every region has. */
  method PauseAtThreshold(model: MultiRegionModel, syncInf: int) returns (nWaiting: nat)
    requires model.Valid()
    modifies model.pauseRegion
    ensures model.Valid()
    ensures nWaiting == CountAtLeast(model.sharedArray[..model.nRegions], syncInf)
    ensures model.pauseRegion[..]
         == ThresholdPause(old(model.pauseRegion[..]), model.sharedArray[..model.nRegions], syncInf)
  {
    ghost var before := model.pauseRegion[..];
    ghost var infected := model.sharedArray[..model.nRegions];
    ghost var expected := ThresholdPause(before, infected, syncInf);
    nWaiting := PauseReached(model, syncInf);
    if nWaiting == model.nRegions {
      model.SetPause(false);
      assert forall j :: 0 <= j < model.nRegions ==> model.pauseRegion[j] == expected[j];
    } else {
      assert forall j :: 0 <= j < model.nRegions ==> model.pauseRegion[j] == expected[j];
    }
    assert model.pauseRegion[..] == expected;
  }

  /** The counting loop of the threshold check. */
  method PauseReached(model: MultiRegionModel, syncInf: int) returns (nWaiting: nat)
    requires model.Valid()
    modifies model.pauseRegion
    ensures model.Valid()
    ensures nWaiting == CountAtLeast(model.sharedArray[..model.nRegions], syncInf)
    ensures forall i :: 0 <= i < model.nRegions ==>
      model.pauseRegion[i] == (old(model.pauseRegion[i]) || model.sharedArray[i] >= syncInf)
  {
    var n := model.nRegions;
    if n > 0 {
      Utilities.MulAtLeast(|model.fields|, n);
    }
    ghost var infected := model.sharedArray[..n];
    nWaiting := 0;
    for j := 0 to n
      invariant nWaiting == CountAtLeast(infected[..j], syncInf)
      invariant forall i :: 0 <= i < n ==>
        model.pauseRegion[i] == (old(model.pauseRegion[i]) || (i < j && infected[i] >= syncInf))
    {
      CountAtLeastStep(infected, syncInf, j);
      if model.sharedArray[j] >= syncInf {
        var _ := model.SetPauseInRegion(j, true);
        nWaiting := nWaiting + 1;
      }
    }
    assert infected[..n] == infected;
  }

  /** The regions' step counts after a cycle: each released engine has
      advanced once. */
  function Advanced(steps: seq<nat>, paused: seq<bool>): (s: seq<nat>)
    requires |steps| == |paused|
    ensures |s| == |steps|
  {
    seq(|steps|, j requires 0 <= j < |steps| => if paused[j] then steps[j] else steps[j] + 1)
  }

  /** A paused region's infected count does not move during a cycle, so
      a region paused at the threshold is still at it afterwards. */
  lemma CycleKeepsPausedAtThreshold(t: seq<int>, paused: seq<bool>, fields: seq<string>,
                                    results: seq<map<string, int>>, syncInf: int)
    requires |results| == |paused| && |t| == |paused| * |fields| && |fields| > 0
    requires forall j :: 0 <= j < |paused| && !paused[j] ==> forall f :: f in fields ==> f in results[j]
    requires forall j :: 0 <= j < |paused| && paused[j] ==> j < |t| && t[j] >= syncInf
    ensures var t' := Written(t, |paused|, CycleColumns(paused, fields, results, |paused|));
      forall j :: 0 <= j < |paused| && paused[j] ==> j < |t'| && t'[j] >= syncInf
  {
    forall j | 0 <= j < |paused| && paused[j]
      ensures j < |t| && Written(t, |paused|, CycleColumns(paused, fields, results, |paused|))[j] >= syncInf
    {
      CycleTouchesOnlyReleased(t, paused, fields, results, j, 0);
    }
  }

  /** One iteration of the example's main loop: a cycle, then the
      threshold check. Paused regions stay at or above the threshold, and
      afterwards some region is still running. */
  method CycleThenCheck(model: MultiRegionModel, results: seq<map<string, int>>, syncInf: int)
    requires model.Valid() && |results| == model.nRegions
    requires forall j :: 0 <= j < model.nRegions ==> forall f :: f in model.fields ==> f in results[j]
    requires forall j :: 0 <= j < model.nRegions && model.pauseRegion[j] ==> model.sharedArray[j] >= syncInf
    modifies model, model.sharedArray, model.pauseRegion, model.jobsGo, model.jobsDone
    ensures model.Valid()
    ensures forall j :: 0 <= j < model.nRegions && model.pauseRegion[j] ==> model.sharedArray[j] >= syncInf
    ensures model.nRegions > 0 ==> exists j :: 0 <= j < model.nRegions && !model.pauseRegion[j]
  {
    CycleKeepsThreshold(model, results, syncInf);
    ThresholdCheck(model, syncInf);
  }

  /** A cycle keeps every paused region at or above the threshold. */
  method CycleKeepsThreshold(model: MultiRegionModel, results: seq<map<string, int>>, syncInf: int)
    requires model.Valid() && |results| == model.nRegions
    requires forall j :: 0 <= j < model.nRegions ==> forall f :: f in model.fields ==> f in results[j]
    requires forall j :: 0 <= j < model.nRegions && model.pauseRegion[j] ==> model.sharedArray[j] >= syncInf
    modifies model, model.sharedArray, model.jobsGo, model.jobsDone
    ensures model.Valid()
    ensures forall j :: 0 <= j < model.nRegions && model.pauseRegion[j] ==> model.sharedArray[j] >= syncInf
  {
    ghost var t := model.sharedArray[..];
    ghost var paused := model.pauseRegion[..];
    if model.nRegions > 0 {
      Utilities.MulAtLeast(|model.fields|, model.nRegions);
    }
    assert forall j :: 0 <= j < |paused| && paused[j] ==> j < |t| && t[j] >= syncInf;
    CycleKeepsPausedAtThreshold(t, paused, model.fields, results, syncInf);
    model.OneStepWait(results);
  }

  /** The threshold check keeps every paused region at or above the
      threshold and leaves some region running. */
  method ThresholdCheck(model: MultiRegionModel, syncInf: int)
    requires model.Valid()
    requires forall j :: 0 <= j < model.nRegions && model.pauseRegion[j] ==> model.sharedArray[j] >= syncInf
    modifies model.pauseRegion
    ensures model.Valid()
    ensures forall j :: 0 <= j < model.nRegions && model.pauseRegion[j] ==> model.sharedArray[j] >= syncInf
    ensures model.nRegions > 0 ==> exists j :: 0 <= j < model.nRegions && !model.pauseRegion[j]
  {
    ghost var paused := model.pauseRegion[..];
    ghost var infected := model.sharedArray[..model.nRegions];
    ThresholdPauseKeepsOneRunning(paused, infected, syncInf);
    var _ := PauseAtThreshold(model, syncInf);
    assert model.pauseRegion[..] == ThresholdPause(paused, infected, syncInf);
  }

  /** The example's main loop: `maxSteps` cycles, each followed by the
      threshold check. `engine(j, k)` is what region `j`'s engine reports
      for its step numbered `k`, counting from 0; `steps[j]` counts the
      steps region `j` has taken. */
  method RunToThreshold(model: MultiRegionModel, maxSteps: nat, syncInf: int,
                        engine: (int, nat) -> map<string, int>)
    requires model.Valid()
    requires forall j :: 0 <= j < model.nRegions && model.pauseRegion[j] ==> model.sharedArray[j] >= syncInf
    requires forall j, k :: forall f :: f in model.fields ==> f in engine(j, k)
    modifies model, model.sharedArray, model.pauseRegion, model.jobsGo, model.jobsDone
    ensures model.Valid()
    ensures forall j :: 0 <= j < model.nRegions && model.pauseRegion[j] ==> model.sharedArray[j] >= syncInf
    ensures maxSteps > 0 && model.nRegions > 0 ==> exists j :: 0 <= j < model.nRegions && !model.pauseRegion[j]
  {
    var n := model.nRegions;
    var steps: seq<nat> := seq(n, _ => 0);
    for i := 0 to maxSteps
      invariant model.Valid() && |steps| == n
      invariant forall j :: 0 <= j < n && model.pauseRegion[j] ==> model.sharedArray[j] >= syncInf
      invariant i > 0 && n > 0 ==> exists j :: 0 <= j < n && !model.pauseRegion[j]
    {
      var results := seq(n, j requires 0 <= j < n => engine(j, steps[j]));
      var paused := model.pauseRegion[..];
      CycleThenCheck(model, results, syncInf);
      steps := Advanced(steps, paused);
    }
  }
}
