/**
 * `MainWindow`'s state and the handlers that change it: the MemTest slots, the coverage
 * records, the thread count, and the stop requests sent to workers. Parallel fan-outs are
 * sequential loops here and the lock on the total record is atomic.
 */
module Window {
  import opened Base
  import opened Layout
  import opened Fleet
  import opened Coverage
  import opened Stats

  /** The stop options read by a tick: chkStopAt with txtStopAt's value, and chkStopOnError. */
  datatype Policy = Policy(stopAt: Option<int>, stopOnError: bool)

  class MainWindow {
    /** MAX_THREADS: four times the number of logical processors. */
    const maxThreads: nat
    /** One slot per possible MemTest instance; `None` is a `null` slot. */
    const memtests: array<Option<Worker>>
    /** The coverage records; slot 0 is the total. */
    const memtestInfo: array<Option<MemTestInfo>>
    /** cboThreads.SelectedItem. */
    var threads: nat
    /** Whether lstCoverage.ItemsSource has been set yet. */
    var bound: bool
    /** The indices of the workers sent `Stop()`, in the order they were sent. */
    var stopLog: seq<nat>
    /** The number of `ClickBtnStop()` calls: fleet stops requested by the poll tick. */
    var stopClicks: nat
    /** coverageWorker.CancellationPending. */
    var cancelPending: bool
    /** Whether the one-second statistics timer runs. */
    var timerRunning: bool

    ghost predicate Valid()
      reads this, memtestInfo
    {
      && memtests.Length == maxThreads && memtestInfo.Length == maxThreads + 1
      && 1 <= threads <= maxThreads && bound
      && ValidPrefix(memtestInfo[..], threads + 1)
      && Labelled(memtestInfo[..])
    }

    /**
     * The window's constructor: two arrays sized from the processor count, the thread box
     * set to that count (its change event finds no list yet), then `InitLstCoverage` and
     * `UpdateLstCoverage`.
     */
    constructor (numThreads: nat)
      requires numThreads >= 1
      ensures Valid() && fresh(memtests) && fresh(memtestInfo)
      ensures maxThreads == 4 * numThreads && threads == numThreads
      ensures forall j :: 0 <= j < memtests.Length ==> memtests[j].None?
      ensures forall j :: 0 <= j <= threads ==> memtestInfo[j] == Some(InitialRecord(j))
      ensures stopLog == [] && stopClicks == 0 && !cancelPending && !timerRunning
    {
      maxThreads := 4 * numThreads;
      memtests := new Option<Worker>[4 * numThreads](_ => None);
      memtestInfo := new Option<MemTestInfo>[4 * numThreads + 1](_ => None);
      threads := numThreads;
      bound := false;
      stopLog := [];
      stopClicks := 0;
      cancelPending := false;
      timerRunning := false;
      new;
      InitLstCoverage();
      ghost var items := memtestInfo[..];
      assert ValidPrefix(items, threads + 1) by {
        assert forall j :: 0 <= j < memtestInfo.Length ==> (IsValidRecord(items[j]) <==> j <= threads);
      }
      ResizePreservesPrefix(items, threads + 1, threads);
      UpdateLstCoverage();
    }

    /** `InitLstCoverage`: slots 0 to `threads` get zero records, the total labelled "T". */
    method InitLstCoverage()
      requires threads < memtestInfo.Length
      modifies this`bound, memtestInfo
      ensures bound
      ensures forall j :: 0 <= j < memtestInfo.Length ==>
                memtestInfo[j] == if j <= threads then Some(InitialRecord(j)) else old(memtestInfo[j])
    {
      var i := 0;
      while i <= threads
        invariant 0 <= i <= threads + 1
        invariant forall j :: 0 <= j < memtestInfo.Length ==>
                    memtestInfo[j] == if j < i then Some(InitialRecord(j)) else old(memtestInfo[j])
      {
        memtestInfo[i] := Some(InitialRecord(i));
        i := i + 1;
      }
      bound := true;
    }

    /**
     * `UpdateLstCoverage`: does nothing before the list is bound; otherwise counts the valid
     * records and hides or creates records so that the table fits `threads` workers.
     */
    method UpdateLstCoverage()
      requires bound ==> ResizeDefined(memtestInfo[..], threads)
      modifies memtestInfo
      ensures memtestInfo[..] == if bound then Resized(old(memtestInfo[..]), threads) else old(memtestInfo[..])
    {
      if !bound {
        return;
      }
      ghost var target := Resized(memtestInfo[..], threads);
      var count := 0;
      var k := 0;
      while k < memtestInfo.Length
        invariant 0 <= k <= memtestInfo.Length
        invariant count == CountValid(memtestInfo[..k])
      {
        assert memtestInfo[..k + 1][..k] == memtestInfo[..k];
        if memtestInfo[k].Some? && memtestInfo[k].value.valid {
          count := count + 1;
        }
        k := k + 1;
      }
      assert memtestInfo[..memtestInfo.Length] == memtestInfo[..];
      if count > threads {
        var i := threads + 1;
        while i < count
          invariant threads + 1 <= i <= count || (count <= threads + 1 && i == threads + 1)
          invariant forall j :: 0 <= j < memtestInfo.Length ==>
                      memtestInfo[j] == if j < i then target[j] else old(memtestInfo[j])
        {
          memtestInfo[i] := Some(memtestInfo[i].value.(valid := false));
          i := i + 1;
        }
      } else {
        var i := count;
        while i <= threads
          invariant count <= i <= threads + 1
          invariant forall j :: 0 <= j < memtestInfo.Length ==>
                      memtestInfo[j] == if j < i then target[j] else old(memtestInfo[j])
        {
          memtestInfo[i] := Some(FreshRecord(i));
          i := i + 1;
        }
      }
      assert forall j :: 0 <= j < memtestInfo.Length ==> memtestInfo[..][j] == target[j];
    }

    /**
     * `cboThreads_SelectionChanged`: a new thread count resizes the coverage table and
     * recomputes the row options; the valid records stay exactly the slots `0 .. threads`.
     */
    method SelectThreads(n: nat) returns (rowOptions: seq<nat>, rows: nat)
      requires Valid() && 1 <= n <= maxThreads
      modifies this`threads, memtestInfo
      ensures Valid() && threads == n
      ensures memtestInfo[..] == Resized(old(memtestInfo[..]), n)
      ensures forall k :: k in rowOptions <==> 1 <= k <= n && n % k == 0
      ensures forall a, b :: 0 <= a < b < |rowOptions| ==> rowOptions[a] < rowOptions[b]
      ensures rows in rowOptions && rows == if n % 2 == 0 then 2 else 1
    {
      ResizePreservesPrefix(memtestInfo[..], threads + 1, n);
      threads := n;
      UpdateLstCoverage();
      rowOptions, rows := InitCboRows(n);
    }

    /**
     * The location loop of `LayoutMemTests`: every non-null slot of the fleet is moved to its
     * grid position; `rows` must not be zero, and the column count may only be zero when
     * every slot is null, since the division by it comes after the null check.
     */
    method LayoutMemTests(rows: nat, g: Grid, width: int, height: int)
      requires memtests.Length >= threads && rows > 0
      requires threads / rows == 0 ==> forall j :: 0 <= j < threads ==> memtests[j].None?
      modifies memtests
      ensures forall j :: 0 <= j < memtests.Length ==>
                memtests[j] == if j < threads && old(memtests[j]).Some?
                               then Some(old(memtests[j]).value.(location := Some(Position(j, threads / rows, g, width, height))))
                               else old(memtests[j])
    {
      var cols := threads / rows;
      var i := 0;
      while i < threads
        invariant 0 <= i <= threads
        invariant forall j :: 0 <= j < memtests.Length ==>
                    memtests[j] == if j < i && old(memtests[j]).Some?
                                   then Some(old(memtests[j]).value.(location := Some(Position(j, cols, g, width, height))))
                                   else old(memtests[j])
      {
        var memtest := memtests[i];
        if memtest.Some? {
          memtests[i] := Some(memtest.value.(location := Some(Position(i, cols, g, width, height))));
        }
        i := i + 1;
      }
    }

    /** The check at the end of `StartMemTests`: every worker of the fleet started. */
    method AllStarted() returns (ok: bool)
      requires memtests.Length >= threads
      requires forall j :: 0 <= j < threads ==> memtests[j].Some?
      ensures ok <==> forall j :: 0 <= j < threads ==> memtests[j].value.started
    {
      var i := 0;
      while i < threads
        invariant 0 <= i <= threads
        invariant forall j :: 0 <= j < i ==> memtests[j].value.started
      {
        if !memtests[i].value.started {
          return false;
        }
        i := i + 1;
      }
      return true;
    }

    /**
     * `StartMemTests`: each slot of the fleet gets a new instance started with an equal share
     * of `ramMB`; `launched[j]` is whether instance `j` came up. The run counts as started
     * only if all did, and then, unless starting minimised, the windows are laid out.
     */
    method StartMemTests(ramMB: int, startMin: bool, launched: seq<bool>, rows: nat, g: Grid,
                         width: int, height: int) returns (ok: bool)
      requires Valid() && |launched| == threads && 1 <= rows <= threads
      modifies memtests
      ensures ok <==> forall j :: 0 <= j < threads ==> launched[j]
      ensures forall j :: 0 <= j < memtests.Length ==>
                memtests[j] == if j < threads
                               then Some(Worker(ramMB as real / threads as real, launched[j], false, startMin,
                                                if ok && !startMin then Some(Position(j, threads / rows, g, width, height)) else None,
                                                None))
                               else old(memtests[j])
    {
      var ram := ramMB as real / threads as real;
      var i := 0;
      while i < threads
        invariant 0 <= i <= threads
        invariant forall j :: 0 <= j < memtests.Length ==>
                    memtests[j] == if j < i then Some(Worker(ram, launched[j], false, startMin, None, None))
                                   else old(memtests[j])
      {
        memtests[i] := Some(Worker(ram, launched[i], false, startMin, None, None));
        i := i + 1;
      }
      ok := AllStarted();
      if !ok {
        return;
      }
      if !startMin {
        assert threads / rows > 0;
        LayoutMemTests(rows, g, width, height);
      }
    }

    /** `IsAllFinished`: every worker of the fleet reports finished. */
    method IsAllFinished() returns (r: bool)
      requires memtests.Length >= threads
      requires forall j :: 0 <= j < threads ==> memtests[j].Some?
      ensures r <==> AllFinished(memtests[..threads])
    {
      var i := 0;
      while i < threads
        invariant 0 <= i <= threads
        invariant forall j :: 0 <= j < i ==> memtests[j].value.finished
      {
        if !memtests[i].value.finished {
          return false;
        }
        i := i + 1;
      }
      return true;
    }

    /**
     * `btnStop_Click`: every unfinished worker of the fleet is sent `Stop()`, the poll loop
     * is asked to cancel and the timer stops.
     */
    method StopClicked()
      requires memtests.Length >= threads
      requires forall j :: 0 <= j < threads ==> memtests[j].Some?
      modifies this`stopLog, this`cancelPending, this`timerRunning
      ensures stopLog == old(stopLog) + FleetStopRequests(memtests[..threads])
      ensures cancelPending && !timerRunning
    {
      ghost var ws := memtests[..threads];
      var i := 0;
      while i < threads
        invariant 0 <= i <= threads
        invariant stopLog == old(stopLog) + FleetStopRequests(ws[..i])
      {
        FleetStopStep(ws, i);
        if !memtests[i].value.finished {
          stopLog := stopLog + [i];
        }
        i := i + 1;
      }
      assert ws[..threads] == ws;
      cancelPending := true;
      timerRunning := false;
    }

    /**
     * The `shouldCheck` block of a tick for worker `index`: the stop-at check sends it
     * `Stop()` when its coverage is above the stop-at value and it is not finished; the
     * error check clicks Stop when it reports errors.
     */
    method CheckPolicies(index: nat, w: Worker, s: Snapshot, shouldCheck: bool, policy: Policy)
      modifies this`stopLog, this`stopClicks
      ensures stopLog == old(stopLog)
                         + (if shouldCheck && policy.stopAt.Some? && s.coverage > policy.stopAt.value as real && !w.finished
                            then [index] else [])
      ensures stopClicks == old(stopClicks) + (if shouldCheck && policy.stopOnError && s.errors > 0 then 1 else 0)
    {
      if shouldCheck {
        if policy.stopAt.Some? {
          if s.coverage > policy.stopAt.value as real {
            if !w.finished {
              stopLog := stopLog + [index];
            }
          }
        }
        if policy.stopOnError {
          if s.errors > 0 {
            stopClicks := stopClicks + 1;
          }
        }
      }
    }

    /**
     * The worker-by-worker part of a tick: it copies each worker's snapshot into the
     * worker's record and applies the policies, up to the first null slot or unreadable
     * window. It returns how many workers it read and their summed coverage and errors.
     */
    method RefreshRecords(shouldCheck: bool, policy: Policy) returns (k: nat, totalCoverage: real, totalErrors: int)
      requires Valid()
      modifies memtestInfo, this`stopLog, this`stopClicks
      ensures var ws := memtests[..threads];
        && k == LeadingReadable(ws)
        && totalCoverage == CoverageSum(ws[..k]) && totalErrors == ErrorSum(ws[..k])
        && memtestInfo[..] == Refreshed(old(memtestInfo[..]), ws, k)
        && stopLog == old(stopLog) + (if shouldCheck && policy.stopAt.Some?
                                      then StopAtRequests(ws[..k], policy.stopAt.value) else [])
        && stopClicks == old(stopClicks)
                         + (if shouldCheck && policy.stopOnError then ErrorTriggers(ws[..k]) else 0)
    {
      ghost var ws := memtests[..threads];
      ghost var items := memtestInfo[..];
      totalCoverage := 0.0;
      totalErrors := 0;
      k := 0;
      while k < threads
        invariant 0 <= k <= threads
        invariant forall j :: 0 <= j < k ==> Readable(ws[j])
        invariant totalCoverage == CoverageSum(ws[..k])
        invariant totalErrors == ErrorSum(ws[..k])
        invariant stopLog == old(stopLog) + (if shouldCheck && policy.stopAt.Some?
                                             then StopAtRequests(ws[..k], policy.stopAt.value) else [])
        invariant stopClicks == old(stopClicks)
                                + (if shouldCheck && policy.stopOnError then ErrorTriggers(ws[..k]) else 0)
        invariant memtestInfo[..] == Refreshed(items, ws, k)
      {
        var memtest := memtests[k];
        var mti := memtestInfo[k + 1];
        if memtest.None? || memtest.value.snapshot.None? {
          break;
        }
        TickStep(ws, k, if policy.stopAt.Some? then policy.stopAt.value else 0);
        RefreshStep(items, ws, k);
        var info := memtest.value.snapshot.value;
        assert IsValidRecord(items[k + 1]);
        memtestInfo[k + 1] := Some(WithSnapshot(mti.value, info));
        CheckPolicies(k, memtest.value, info, shouldCheck, policy);
        totalCoverage := totalCoverage + info.coverage;
        totalErrors := totalErrors + info.errors;
        k := k + 1;
      }
      LeadingReadableAt(ws, k);
    }

    /**
     * `UpdateCoverageInfo`: one poll tick. Worker by worker it copies the snapshot into the
     * worker's record and, when `shouldCheck`, stops a worker above the stop-at value and
     * clicks Stop for a worker with errors. At the first null slot or unreadable window it
     * returns, leaving the total as it was. Otherwise it writes the mean coverage and the
     * summed errors into the total and, when `shouldCheck`, clicks Stop if all are finished.
     * `completed` says whether the total was written.
     */
    method UpdateCoverageInfo(shouldCheck: bool, policy: Policy) returns (completed: bool)
      requires Valid()
      modifies memtestInfo, this`stopLog, this`stopClicks
      ensures Valid()
      ensures var ws := memtests[..threads]; var k := LeadingReadable(ws);
        && completed == (k == threads)
        && memtestInfo[..] == (var r := Refreshed(old(memtestInfo[..]), ws, k);
                               if completed then r[0 := Some(WithSnapshot(old(memtestInfo[0]).value, Total(ws)))]
                               else r)
        && stopLog == old(stopLog) + (if shouldCheck && policy.stopAt.Some?
                                      then StopAtRequests(ws[..k], policy.stopAt.value) else [])
        && stopClicks == old(stopClicks)
                         + (if shouldCheck && policy.stopOnError then ErrorTriggers(ws[..k]) else 0)
                         + (if shouldCheck && completed && AllFinished(ws) then 1 else 0)
    {
      ghost var ws := memtests[..threads];
      ghost var items := memtestInfo[..];
      var k, totalCoverage, totalErrors := RefreshRecords(shouldCheck, policy);
      RefreshedKeepsShape(items, threads + 1, ws, k);
      completed := k == threads;
      if !completed {
        // the lambda returns here: the total record is not written
        return;
      }
      assert ws[..threads] == ws;
      var total := Snapshot(totalCoverage / threads as real, totalErrors);
      TotalKeepsShape(memtestInfo[..], threads + 1, total);
      memtestInfo[0] := Some(WithSnapshot(memtestInfo[0].value, total));
      if shouldCheck {
        assert forall j :: 0 <= j < threads ==> memtests[j] == ws[j] && Readable(ws[j]);
        var finished := IsAllFinished();
        if finished {
          stopClicks := stopClicks + 1;
        }
      }
    }

    /**
     * The statistics part of `UpdateSpeedTime`: it reads the total record (under the lock
     * the tick also takes) and estimates from its coverage.
     */
    method UpdateSpeedTime(elapsedSec: real, ramMB: int) returns (e: Option<Estimate>)
      requires Valid()
      ensures e == SpeedTime(elapsedSec, memtestInfo[0].value.coverage, ramMB)
      ensures e.None? <==> memtestInfo[0].value.coverage <= 0.0
    {
      var total := memtestInfo[0].value;
      e := SpeedTime(elapsedSec, total.coverage, ramMB);
    }
  }
}
