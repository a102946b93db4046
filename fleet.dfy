/**
 * The MemTest instances as the window sees them, and what one poll tick
 * (`UpdateCoverageInfo`) and one stop click (`btnStop_Click`) derive from them. The MemTest
 * class itself (process start, window reading, `Stop()`) is not part of this model: a worker
 * is the state the window reads from it.
 */
module Fleet {
  import opened Base
  import opened Layout

  /** What `GetCoverageInfo()` returns when it can read a window: coverage in percent and errors. */
  datatype Snapshot = Snapshot(coverage: real, errors: int)

  /**
   * One MemTest instance: the RAM share it was started with, whether it started, whether it
   * reports finished, whether it is minimised, where its window was placed, and what
   * `GetCoverageInfo()` currently returns (`None` for `null`).
   */
  datatype Worker = Worker(ramShare: real, started: bool, finished: bool, minimised: bool,
                           location: Option<Point>, snapshot: Option<Snapshot>)

  /** A slot of `memtests` that the tick can read: an instance with a readable window. */
  predicate Readable(w: Option<Worker>) {
    w.Some? && w.value.snapshot.Some?
  }

  predicate AllReadable(ws: seq<Option<Worker>>) {
    forall j :: 0 <= j < |ws| ==> Readable(ws[j])
  }

  function Snap(w: Option<Worker>): Snapshot
    requires Readable(w)
  {
    w.value.snapshot.value
  }

  /**
   * How far a tick gets: the number of leading slots it reads before meeting a null slot
   * or an unreadable window, where it returns.
   */
  function LeadingReadable(ws: seq<Option<Worker>>): (k: nat)
    ensures k <= |ws| && forall j :: 0 <= j < k ==> Readable(ws[j])
    decreases |ws|
  {
    if ws == [] || !Readable(ws[0]) then 0 else 1 + LeadingReadable(ws[1..])
  }

  /** The slot at the stopping point, if any, is the unreadable one. */
  lemma {:induction false} LeadingReadableSpec(ws: seq<Option<Worker>>)
    ensures LeadingReadable(ws) < |ws| ==> !Readable(ws[LeadingReadable(ws)])
    decreases |ws|
  {
    if ws != [] && Readable(ws[0]) {
      LeadingReadableSpec(ws[1..]);
      assert forall j :: 1 <= j < |ws| ==> ws[j] == ws[1..][j - 1];
    }
  }

  /** A tick that meets an unreadable slot after `k` readable ones stops there. */
  lemma LeadingReadableAt(ws: seq<Option<Worker>>, k: nat)
    requires k <= |ws| && (forall j :: 0 <= j < k ==> Readable(ws[j])) && (k < |ws| ==> !Readable(ws[k]))
    ensures LeadingReadable(ws) == k
  {
    LeadingReadableSpec(ws);
  }

  /** The sum of the workers' coverages, as the tick accumulates `totalCoverage`. */
  function CoverageSum(ws: seq<Option<Worker>>): real
    requires AllReadable(ws)
    decreases |ws|
  {
    if ws == [] then 0.0 else CoverageSum(ws[..|ws| - 1]) + Snap(ws[|ws| - 1]).coverage
  }

  /** The sum of the workers' error counts, as the tick accumulates `totalErrors`. */
  function ErrorSum(ws: seq<Option<Worker>>): int
    requires AllReadable(ws)
    decreases |ws|
  {
    if ws == [] then 0 else ErrorSum(ws[..|ws| - 1]) + Snap(ws[|ws| - 1]).errors
  }

  /** The total record: mean coverage over the fleet and the summed errors. */
  function Total(ws: seq<Option<Worker>>): Snapshot
    requires |ws| > 0 && AllReadable(ws)
  {
    Snapshot(CoverageSum(ws) / |ws| as real, ErrorSum(ws))
  }

  /**
   * The workers the stop-at check sends `Stop()` in one tick, in the order it visits them:
   * exactly the unfinished ones whose coverage is above the stop-at percentage.
   */
  function StopAtRequests(ws: seq<Option<Worker>>, stopAt: int): (r: seq<nat>)
    requires AllReadable(ws)
    decreases |ws|
  {
    if ws == [] then []
    else
      var n := |ws| - 1;
      StopAtRequests(ws[..n], stopAt)
        + (if Snap(ws[n]).coverage > stopAt as real && !ws[n].value.finished then [n] else [])
  }

  /**
   * The stop-at check picks exactly the unfinished workers above the stop-at percentage,
   * each once, in index order.
   */
  lemma {:induction false} StopAtRequestsSpec(ws: seq<Option<Worker>>, stopAt: int)
    requires AllReadable(ws)
    ensures forall j :: j in StopAtRequests(ws, stopAt) <==>
              0 <= j < |ws| && Snap(ws[j]).coverage > stopAt as real && !ws[j].value.finished
    ensures forall a, b :: 0 <= a < b < |StopAtRequests(ws, stopAt)| ==>
              StopAtRequests(ws, stopAt)[a] < StopAtRequests(ws, stopAt)[b]
    decreases |ws|
  {
    if ws != [] {
      var n := |ws| - 1;
      StopAtRequestsSpec(ws[..n], stopAt);
      var before := StopAtRequests(ws[..n], stopAt);
      assert forall a :: 0 <= a < |before| ==> before[a] in before;
    }
  }

  /** How many times one tick's error check clicks Stop: once per worker reporting errors. */
  function ErrorTriggers(ws: seq<Option<Worker>>): (n: nat)
    requires AllReadable(ws)
    ensures n <= |ws|
    decreases |ws|
  {
    if ws == [] then 0
    else ErrorTriggers(ws[..|ws| - 1]) + (if Snap(ws[|ws| - 1]).errors > 0 then 1 else 0)
  }

  /** The error check clicks Stop at all exactly when some worker reports errors. */
  lemma {:induction false} ErrorTriggersSpec(ws: seq<Option<Worker>>)
    requires AllReadable(ws)
    ensures ErrorTriggers(ws) == 0 <==> forall j :: 0 <= j < |ws| ==> Snap(ws[j]).errors <= 0
    decreases |ws|
  {
    if ws != [] {
      ErrorTriggersSpec(ws[..|ws| - 1]);
    }
  }

  /** How each running total of a tick grows when it reads slot `i`. */
  lemma TickStep(ws: seq<Option<Worker>>, i: nat, stopAt: int)
    requires i < |ws| && forall j :: 0 <= j <= i ==> Readable(ws[j])
    ensures AllReadable(ws[..i]) && AllReadable(ws[..i + 1])
    ensures CoverageSum(ws[..i + 1]) == CoverageSum(ws[..i]) + Snap(ws[i]).coverage
    ensures ErrorSum(ws[..i + 1]) == ErrorSum(ws[..i]) + Snap(ws[i]).errors
    ensures StopAtRequests(ws[..i + 1], stopAt)
         == StopAtRequests(ws[..i], stopAt)
            + (if Snap(ws[i]).coverage > stopAt as real && !ws[i].value.finished then [i] else [])
    ensures ErrorTriggers(ws[..i + 1]) == ErrorTriggers(ws[..i]) + (if Snap(ws[i]).errors > 0 then 1 else 0)
  {
    assert ws[..i + 1][..i] == ws[..i];
  }

  /** `IsAllFinished`: every worker of the fleet reports finished. */
  predicate AllFinished(ws: seq<Option<Worker>>)
    requires forall j :: 0 <= j < |ws| ==> ws[j].Some?
  {
    forall j :: 0 <= j < |ws| ==> ws[j].value.finished
  }

  /** The workers `btnStop_Click` sends `Stop()`, in index order: the unfinished ones. */
  function FleetStopRequests(ws: seq<Option<Worker>>): (r: seq<nat>)
    requires forall j :: 0 <= j < |ws| ==> ws[j].Some?
    decreases |ws|
  {
    if ws == [] then []
    else
      var n := |ws| - 1;
      FleetStopRequests(ws[..n]) + (if ws[n].value.finished then [] else [n])
  }

  /** The stop click picks exactly the unfinished workers, each once, in index order. */
  lemma {:induction false} FleetStopRequestsSpec(ws: seq<Option<Worker>>)
    requires forall j :: 0 <= j < |ws| ==> ws[j].Some?
    ensures forall j :: j in FleetStopRequests(ws) <==> 0 <= j < |ws| && !ws[j].value.finished
    ensures forall a, b :: 0 <= a < b < |FleetStopRequests(ws)| ==>
              FleetStopRequests(ws)[a] < FleetStopRequests(ws)[b]
    decreases |ws|
  {
    if ws != [] {
      var n := |ws| - 1;
      FleetStopRequestsSpec(ws[..n]);
      var before := FleetStopRequests(ws[..n]);
      assert forall a :: 0 <= a < |before| ==> before[a] in before;
    }
  }

  lemma FleetStopStep(ws: seq<Option<Worker>>, i: nat)
    requires i < |ws| && forall j :: 0 <= j < |ws| ==> ws[j].Some?
    ensures FleetStopRequests(ws[..i + 1]) == FleetStopRequests(ws[..i]) + (if ws[i].value.finished then [] else [i])
  {
    assert ws[..i + 1][..i] == ws[..i];
  }

  /** A stop click sends nothing exactly when every worker of the fleet has finished. */
  lemma FinishedFleetNeedsNoStop(ws: seq<Option<Worker>>)
    requires forall j :: 0 <= j < |ws| ==> ws[j].Some?
    ensures FleetStopRequests(ws) == [] <==> AllFinished(ws)
  {
    FleetStopRequestsSpec(ws);
    if FleetStopRequests(ws) != [] {
      assert FleetStopRequests(ws)[0] in FleetStopRequests(ws);
    }
  }

  /** The coverages sum to `|ws| * v` when every worker reports `v`. */
  lemma {:induction false} CoverageSumOfEqual(ws: seq<Option<Worker>>, v: real)
    requires AllReadable(ws)
    requires forall j :: 0 <= j < |ws| ==> Snap(ws[j]).coverage == v
    ensures CoverageSum(ws) == |ws| as real * v
    decreases |ws|
  {
    if ws != [] {
      CoverageSumOfEqual(ws[..|ws| - 1], v);
    }
  }

  /** When every worker reports the same coverage, the total shows that coverage. */
  lemma MeanOfEqualCoverages(ws: seq<Option<Worker>>, v: real)
    requires |ws| > 0 && AllReadable(ws)
    requires forall j :: 0 <= j < |ws| ==> Snap(ws[j]).coverage == v
    ensures Total(ws).coverage == v
  {
    CoverageSumOfEqual(ws, v);
  }

  /** The coverage sum lies between `|ws|` times the least and the greatest coverage. */
  lemma {:induction false} CoverageSumBounds(ws: seq<Option<Worker>>, lo: real, hi: real)
    requires AllReadable(ws)
    requires forall j :: 0 <= j < |ws| ==> lo <= Snap(ws[j]).coverage <= hi
    ensures |ws| as real * lo <= CoverageSum(ws) <= |ws| as real * hi
    decreases |ws|
  {
    if ws != [] {
      CoverageSumBounds(ws[..|ws| - 1], lo, hi);
    }
  }

  /** The total coverage is an average: never below the slowest worker nor above the fastest. */
  lemma MeanWithinRange(ws: seq<Option<Worker>>, lo: real, hi: real)
    requires |ws| > 0 && AllReadable(ws)
    requires forall j :: 0 <= j < |ws| ==> lo <= Snap(ws[j]).coverage <= hi
    ensures lo <= Total(ws).coverage <= hi
  {
    CoverageSumBounds(ws, lo, hi);
    var n := |ws| as real;
    assert n * lo <= CoverageSum(ws) <= n * hi;
    assert lo == n * lo / n && hi == n * hi / n;
  }

  /**
   * With non-negative error counts the total's errors are zero exactly when every worker
   * reports none, and they are at least any single worker's count.
   */
  lemma {:induction false} ErrorSumCounts(ws: seq<Option<Worker>>)
    requires AllReadable(ws)
    requires forall j :: 0 <= j < |ws| ==> Snap(ws[j]).errors >= 0
    ensures ErrorSum(ws) >= 0
    ensures ErrorSum(ws) == 0 <==> forall j :: 0 <= j < |ws| ==> Snap(ws[j]).errors == 0
    ensures forall j :: 0 <= j < |ws| ==> Snap(ws[j]).errors <= ErrorSum(ws)
    decreases |ws|
  {
    if ws != [] {
      ErrorSumCounts(ws[..|ws| - 1]);
    }
  }

  function Reporting(coverage: real, errors: int): Option<Worker> {
    Some(Worker(1.0, true, false, false, None, Some(Snapshot(coverage, errors))))
  }

  /** Four workers at 10, 20, 30 and 40 percent without errors give a total of 25 percent. */
  lemma FourWorkerTotal()
    ensures Total([Reporting(10.0, 0), Reporting(20.0, 0), Reporting(30.0, 0), Reporting(40.0, 0)])
         == Snapshot(25.0, 0)
  {
    var ws := [Reporting(10.0, 0), Reporting(20.0, 0), Reporting(30.0, 0), Reporting(40.0, 0)];
    assert ws[..3] == [Reporting(10.0, 0), Reporting(20.0, 0), Reporting(30.0, 0)];
    assert ws[..3][..2] == [Reporting(10.0, 0), Reporting(20.0, 0)];
    assert ws[..3][..2][..1] == [Reporting(10.0, 0)];
    assert CoverageSum(ws[..3][..2][..1]) == 10.0;
    assert CoverageSum(ws[..3][..2]) == 30.0;
    assert CoverageSum(ws[..3]) == 60.0;
    assert CoverageSum(ws) == 100.0;
    assert ErrorSum(ws[..3][..2][..1]) == 0;
    assert ErrorSum(ws[..3][..2]) == 0;
    assert ErrorSum(ws[..3]) == 0;
  }

  /** Only the worker above the stop-at percentage is stopped. */
  lemma OnlyCrossingWorkerStops()
    ensures StopAtRequests([Reporting(51.0, 0), Reporting(40.0, 0), Reporting(49.5, 0)], 50) == [0]
  {
    var ws := [Reporting(51.0, 0), Reporting(40.0, 0), Reporting(49.5, 0)];
    assert ws[..2] == [Reporting(51.0, 0), Reporting(40.0, 0)];
    assert ws[..2][..1] == [Reporting(51.0, 0)];
    assert StopAtRequests(ws[..2][..1], 50) == [0];
  }
}
