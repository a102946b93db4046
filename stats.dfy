/**
 * `UpdateSpeedTime`: the estimate to the next multiple of 100% coverage and the
 * throughput, computed each second from the total record. Coverage is exact `real`
 * arithmetic here in place of `double`.
 */
module Stats {
  import opened Base

  /**
   * What the labels show: the milestone `nextCoverage` (a percentage), the seconds
   * still needed to reach it, and the speed in MB/s. `speed` is `None` when no time has
   * elapsed, where the `double` division gives an infinity that this model does not carry.
   */
  datatype Estimate = Estimate(nextCoverage: int, etaSeconds: real, speed: Option<real>)

  /** `((int)(totalCoverage / 100) + 1) * 100`; the cast truncates, which is the floor here. */
  function NextMilestone(totalCoverage: real): (next: int)
    requires totalCoverage > 0.0
    ensures next % 100 == 0
    ensures totalCoverage < next as real <= totalCoverage + 100.0
  {
    ((totalCoverage / 100.0).Floor + 1) * 100
  }

  /**
   * The estimate for a run that has been going `elapsedSec` seconds with total coverage
   * `totalCoverage` over `ramMB` megabytes; none while coverage is not positive.
   */
  function SpeedTime(elapsedSec: real, totalCoverage: real, ramMB: int): (e: Option<Estimate>)
    ensures e.None? <==> totalCoverage <= 0.0
    ensures e.Some? ==> e.value.nextCoverage == NextMilestone(totalCoverage)
    ensures e.Some? ==> (e.value.speed.Some? <==> elapsedSec != 0.0)
  {
    if totalCoverage <= 0.0 then None
    else
      var next := NextMilestone(totalCoverage);
      var est := elapsedSec / totalCoverage * next as real - elapsedSec;
      var speed := if elapsedSec == 0.0 then None else Some((totalCoverage / 100.0) * ramMB as real / elapsedSec);
      Some(Estimate(next, est, speed))
  }

  /**
   * The estimate extrapolates the rate so far: at `totalCoverage / elapsedSec` percent per
   * second the milestone is reached after `elapsedSec + etaSeconds` seconds, and that is
   * never in the past.
   */
  lemma EstimateKeepsRate(elapsedSec: real, totalCoverage: real, ramMB: int)
    requires totalCoverage > 0.0 && elapsedSec >= 0.0
    ensures var e := SpeedTime(elapsedSec, totalCoverage, ramMB).value;
      && (elapsedSec + e.etaSeconds) * totalCoverage == elapsedSec * e.nextCoverage as real
      && e.etaSeconds >= 0.0
  {
    var e := SpeedTime(elapsedSec, totalCoverage, ramMB).value;
    var n := e.nextCoverage as real;
    var rate := elapsedSec / totalCoverage;
    assert rate * totalCoverage == elapsedSec;
    assert e.etaSeconds == rate * n - elapsedSec;
    assert (elapsedSec + e.etaSeconds) * totalCoverage == (rate * totalCoverage) * n;
    assert rate >= 0.0 && n > totalCoverage;
    assert rate * (n - totalCoverage) >= 0.0;
  }

  /** The speed is the tested fraction of the RAM divided by the time it took. */
  lemma SpeedIsThroughput(elapsedSec: real, totalCoverage: real, ramMB: int)
    requires totalCoverage > 0.0 && elapsedSec != 0.0
    ensures SpeedTime(elapsedSec, totalCoverage, ramMB).value.speed.value * elapsedSec
         == totalCoverage / 100.0 * ramMB as real
  {
  }

  /** Just past a milestone the next one is the following multiple of 100. */
  lemma PastMilestone()
    ensures SpeedTime(60.0, 100.01, 1024).value.nextCoverage == 200
    ensures SpeedTime(60.0, 0.0, 1024).None?
  {
  }
}
