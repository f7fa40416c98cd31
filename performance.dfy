/** `PerformanceHelper` (utils/helpers.py): named timers and the durations
    they measured. The clock is an integer number of ticks supplied by the
    caller. */
module Performance {

  class PerformanceHelper {
    /** When each operation was last started. */
    var startTimes: map<string, int>
    /** The last measured duration of each finished operation. */
    var metrics: map<string, int>

    /** Only an operation that was started can have a duration. */
    ghost predicate Valid()
      reads this
    {
      metrics.Keys <= startTimes.Keys
    }

    constructor ()
      ensures Valid()
      ensures startTimes == map[] && metrics == map[]
    {
      startTimes := map[];
      metrics := map[];
    }

    /** `start_timer`: (re)starts `operation` at `now`. */
    method StartTimer(operation: string, now: int)
      requires Valid()
      modifies this
      ensures Valid()
      ensures startTimes == old(startTimes)[operation := now]
      ensures metrics == old(metrics)
    {
      startTimes := startTimes[operation := now];
    }

    /** `end_timer`: an operation never started gives 0 and changes nothing;
        otherwise the time since its start is recorded as its metric, and
        its start entry stays. */
    method EndTimer(operation: string, now: int) returns (duration: int)
      requires Valid()
      modifies this
      ensures Valid()
      ensures startTimes == old(startTimes)
      ensures operation !in old(startTimes) ==> duration == 0 && metrics == old(metrics)
      ensures operation in old(startTimes) ==>
        && duration == now - old(startTimes)[operation]
        && metrics == old(metrics)[operation := duration]
    {
      if operation !in startTimes {
        return 0;
      }
      duration := now - startTimes[operation];
      metrics := metrics[operation := duration];
    }

    /** `get_metrics`: a copy of the recorded durations. */
    method GetMetrics() returns (copy: map<string, int>)
      ensures copy == metrics
    {
      copy := metrics;
    }

    /** `reset_metrics`: forgets every start time and every duration. */
    method ResetMetrics()
      requires Valid()
      modifies this
      ensures Valid()
      ensures startTimes == map[] && metrics == map[]
    {
      startTimes := map[];
      metrics := map[];
    }
  }

  /** A typical session: the metric of a timed operation is the time between
      its start and its end, and ending an unknown operation records
      nothing. */
  method TimedSession(t0: int, t1: int) returns (m: map<string, int>)
    ensures m == map["load" := t1 - t0]
  {
    var helper := new PerformanceHelper();
    helper.StartTimer("load", t0);
    var d := helper.EndTimer("load", t1);
    var zero := helper.EndTimer("save", t1);
    assert zero == 0;
    m := helper.GetMetrics();
  }
}
