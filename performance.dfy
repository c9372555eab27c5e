/// Performance metrics: sliding windows of the latest system and frame
/// durations, their averages, and a summary over every system measured.
/// Durations and instants are whole nanoseconds.
module Performance {
  import opened Wrappers

  type Nanos = nat

  /// The total of a window of durations.
  function Sum(ds: seq<Nanos>): Nanos
  {
    if ds == [] then 0 else Sum(ds[..|ds| - 1]) + ds[|ds| - 1]
  }

  /// The mean of a window, rounded down; none for an empty window.
  function Average(ds: seq<Nanos>): (r: Option<Nanos>)
    ensures r.Some? <==> ds != []
    ensures r.Some? ==> r.value * |ds| <= Sum(ds) < (r.value + 1) * |ds|
  {
    if ds == [] then None else Some(Sum(ds) / |ds|)
  }

  /// Bounds on every sample bound the total.
  lemma {:induction false} SumBounds(ds: seq<Nanos>, lo: Nanos, hi: Nanos)
    requires forall i :: 0 <= i < |ds| ==> lo <= ds[i] <= hi
    ensures lo * |ds| <= Sum(ds) <= hi * |ds|
  {
    if ds != [] {
      var n := |ds| - 1;
      var prefix := ds[..n];
      SumBounds(prefix, lo, hi);
      assert Sum(ds) == Sum(prefix) + ds[n];
      assert lo * |ds| == lo * n + lo && hi * |ds| == hi * n + hi;
    }
  }

  /// Multiplying by the same count keeps the order.
  lemma MulMonotone(x: nat, y: nat, n: nat)
    requires x <= y
    ensures x * n <= y * n
  {
    assert y * n == x * n + (y - x) * n;
  }

  /// A rounded-down quotient lies between bounds on the dividend.
  lemma QuotientBetween(total: nat, n: nat, a: nat, lo: nat, hi: nat)
    requires n > 0 && a * n <= total < (a + 1) * n
    requires lo * n <= total <= hi * n
    ensures lo <= a <= hi
  {
    assert (hi + 1) * n == hi * n + n;
    assert (a + 1) * n == a * n + n;
    if a > hi {
      MulMonotone(hi + 1, a, n);
    }
    if a < lo {
      MulMonotone(a + 1, lo, n);
    }
  }

  /// The average lies between the smallest and the largest sample.
  lemma AverageBetweenSamples(ds: seq<Nanos>, lo: Nanos, hi: Nanos)
    requires ds != []
    requires forall i :: 0 <= i < |ds| ==> lo <= ds[i] <= hi
    ensures lo <= Average(ds).value <= hi
  {
    SumBounds(ds, lo, hi);
    QuotientBetween(Sum(ds), |ds|, Average(ds).value, lo, hi);
  }

  /// A window after one more sample: the sample goes to the back, and when
  /// the window then holds more than `maxSamples` its oldest sample goes.
  function Recorded(window: seq<Nanos>, d: Nanos, maxSamples: nat): (r: seq<Nanos>)
    ensures |window| <= maxSamples ==> |r| <= maxSamples
    ensures |window| < maxSamples ==> r == window + [d]
    ensures |window| == maxSamples ==> r == (window + [d])[1..]
    ensures maxSamples > 0 ==> |r| > 0 && r[|r| - 1] == d
  {
    var w := window + [d];
    if |w| > maxSamples then w[1..] else w
  }

  /// The last `k` samples of a history, or all of it when shorter.
  function Latest(s: seq<Nanos>, k: nat): (r: seq<Nanos>)
    ensures |r| <= |s| && |r| <= k && r == s[|s| - |r|..]
    ensures |s| <= k ==> r == s
  {
    if |s| <= k then s else s[|s| - k..]
  }

  /// Samples recorded one after the other.
  function RecordedAll(window: seq<Nanos>, ds: seq<Nanos>, maxSamples: nat): seq<Nanos>
  {
    if ds == [] then window
    else Recorded(RecordedAll(window, ds[..|ds| - 1], maxSamples), ds[|ds| - 1], maxSamples)
  }

  /// One sample recorded into the latest `k` of a history gives the latest
  /// `k` of the longer history.
  lemma LatestStep(h: seq<Nanos>, d: Nanos, k: nat)
    ensures Recorded(Latest(h, k), d, k) == Latest(h + [d], k)
  {
    var w := Latest(h, k);
    if |h| > k {
      assert w == h[|h| - k..];
      assert (h + [d])[|h| + 1 - k..] == (w + [d])[1..];
    }
  }

  /// Recording a stream of samples into a window that respects its bound
  /// leaves exactly the latest `maxSamples` samples of the whole history.
  lemma {:induction false} WindowKeepsLatest(window: seq<Nanos>, ds: seq<Nanos>, maxSamples: nat)
    requires |window| <= maxSamples
    ensures RecordedAll(window, ds, maxSamples) == Latest(window + ds, maxSamples)
  {
    if ds != [] {
      var init, d := ds[..|ds| - 1], ds[|ds| - 1];
      WindowKeepsLatest(window, init, maxSamples);
      assert window + ds == (window + init) + [d];
      LatestStep(window + init, d, maxSamples);
    } else {
      assert window + ds == window;
    }
  }

  /// `PerformanceSummary`, without the frames-per-second figure.
  datatype PerformanceSummary = PerformanceSummary(
    averageFrameTime: Option<Nanos>,
    slowestSystems: seq<(string, Nanos)>,
    totalSystems: nat)

  class PerformanceMetrics {
    var systemTimes: map<string, seq<Nanos>>
    var frameTimes: seq<Nanos>
    var maxSamples: nat
    var lastFrameStart: Option<Nanos>

    /// No window holds more than `maxSamples` samples.
    ghost predicate Valid()
      reads this
    {
      |frameTimes| <= maxSamples &&
      forall name :: name in systemTimes ==> |systemTimes[name]| <= maxSamples
    }

    /// `new`: two seconds of samples at sixty frames per second.
    constructor New()
      ensures systemTimes == map[] && frameTimes == [] && lastFrameStart == None
      ensures maxSamples == 120
      ensures Valid()
    {
      systemTimes, frameTimes := map[], [];
      maxSamples := 120;
      lastFrameStart := None;
    }

    /// `Default`: no samples are kept at all.
    constructor Default()
      ensures systemTimes == map[] && frameTimes == [] && lastFrameStart == None
      ensures maxSamples == 0
      ensures Valid()
    {
      systemTimes, frameTimes := map[], [];
      maxSamples := 0;
      lastFrameStart := None;
    }

    /// The window of one system, empty until the first sample.
    function WindowOf(name: string): seq<Nanos>
      reads this
    {
      if name in systemTimes then systemTimes[name] else []
    }

    /// `record_system_time`.
    method RecordSystemTime(systemName: string, duration: Nanos)
      modifies this
      ensures systemTimes == old(systemTimes)[systemName := Recorded(old(WindowOf(systemName)), duration, maxSamples)]
      ensures frameTimes == old(frameTimes) && maxSamples == old(maxSamples)
      ensures lastFrameStart == old(lastFrameStart)
      ensures old(Valid()) ==> Valid()
    {
      var times := WindowOf(systemName);
      times := times + [duration];
      if |times| > maxSamples {
        times := times[1..];
      }
      systemTimes := systemTimes[systemName := times];
    }

    /// `record_frame_time`.
    method RecordFrameTime(duration: Nanos)
      modifies this
      ensures frameTimes == Recorded(old(frameTimes), duration, maxSamples)
      ensures systemTimes == old(systemTimes) && maxSamples == old(maxSamples)
      ensures lastFrameStart == old(lastFrameStart)
      ensures old(Valid()) ==> Valid()
    {
      frameTimes := frameTimes + [duration];
      if |frameTimes| > maxSamples {
        frameTimes := frameTimes[1..];
      }
    }

    /// `get_average_system_time`: none for an unknown system or an empty window.
    function GetAverageSystemTime(systemName: string): (r: Option<Nanos>)
      reads this
      ensures r.Some? <==> systemName in systemTimes && systemTimes[systemName] != []
      ensures r.Some? ==> r == Average(systemTimes[systemName])
    {
      if systemName !in systemTimes then None else Average(systemTimes[systemName])
    }

    /// `get_average_frame_time`.
    function GetAverageFrameTime(): (r: Option<Nanos>)
      reads this
      ensures r.Some? <==> frameTimes != []
      ensures r.Some? ==> r.value * |frameTimes| <= Sum(frameTimes) < (r.value + 1) * |frameTimes|
    {
      Average(frameTimes)
    }

    /// `get_summary`: the average frame time, the average of every system
    /// with samples, once each, and the number of systems known.
    method GetSummary() returns (s: PerformanceSummary)
      ensures s.averageFrameTime == Average(frameTimes)
      ensures s.totalSystems == |systemTimes|
      ensures forall i :: 0 <= i < |s.slowestSystems| ==>
        s.slowestSystems[i].0 in systemTimes && Average(systemTimes[s.slowestSystems[i].0]) == Some(s.slowestSystems[i].1)
      ensures forall name :: name in systemTimes && systemTimes[name] != [] ==>
        exists i :: 0 <= i < |s.slowestSystems| && s.slowestSystems[i].0 == name
      ensures forall i, j :: 0 <= i < j < |s.slowestSystems| ==> s.slowestSystems[i].0 != s.slowestSystems[j].0
    {
      var slowest: seq<(string, Nanos)> := [];
      var remaining := systemTimes.Keys;
      while remaining != {}
        invariant remaining <= systemTimes.Keys
        invariant forall i :: 0 <= i < |slowest| ==>
          slowest[i].0 in systemTimes && slowest[i].0 !in remaining &&
          Average(systemTimes[slowest[i].0]) == Some(slowest[i].1)
        invariant forall name :: name in systemTimes && name !in remaining && systemTimes[name] != [] ==>
          exists i :: 0 <= i < |slowest| && slowest[i].0 == name
        invariant forall i, j :: 0 <= i < j < |slowest| ==> slowest[i].0 != slowest[j].0
        decreases remaining
      {
        var name :| name in remaining;
        var times := systemTimes[name];
        if times != [] {
          var before := slowest;
          slowest := slowest + [(name, Average(times).value)];
          assert slowest[|before|].0 == name;
          assert forall i :: 0 <= i < |before| ==> slowest[i] == before[i];
        }
        remaining := remaining - {name};
      }
      s := PerformanceSummary(GetAverageFrameTime(), slowest, |systemTimes|);
    }

    /// `track_frame_times`, given the current instant: the time since the
    /// previous frame's start (zero if the clock went back) becomes a frame
    /// sample, and this frame's start is remembered.
    method TrackFrameTimes(now: Nanos)
      modifies this
      ensures frameTimes == if old(lastFrameStart).Some? then
        Recorded(old(frameTimes), if now >= old(lastFrameStart).value then now - old(lastFrameStart).value else 0, maxSamples)
        else old(frameTimes)
      ensures lastFrameStart == Some(now)
      ensures systemTimes == old(systemTimes) && maxSamples == old(maxSamples)
      ensures old(Valid()) ==> Valid()
    {
      if lastFrameStart.Some? {
        var lastStart := lastFrameStart.value;
        var frameTime := if now >= lastStart then now - lastStart else 0;
        RecordFrameTime(frameTime);
      }
      lastFrameStart := Some(now);
    }
  }
}
