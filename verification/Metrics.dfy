/**
 The sliding-window histogram and the speed-test metrics of src/metrics/metrics.go. float64 values are reals.
 */
module Metrics {
  import opened Common
  import opened Reals

  const WINDOW := 1000
  const UINT64 := 0x1_0000_0000_0000_0000

  /** The last `n` elements of a list, or all of it. */
  function Last(vs: seq<real>, n: nat): seq<real> {
    if |vs| <= n then vs else vs[|vs| - n..]
  }

  /** Conversion of a float to int: towards zero. */
  function Truncate(x: real): int {
    if x >= 0.0 then x.Floor else -((-x).Floor)
  }

  datatype Reading = Value(value: real) | IndexPanic

  /** The scaled position among n samples. */
  function Position(n: nat, p: real): int {
    Truncate(n as real * p / 100.0)
  }

  function Percentile(vs: seq<real>, p: real): Reading {
    if vs == [] then Value(0.0)
    else
      var idx := Position(|vs|, p);
      var i := if idx >= |vs| then |vs| - 1 else idx;
      if i < 0 then IndexPanic else Value(vs[i])
  }

  class Histogram {
    var samples: seq<real>

    constructor ()
      ensures samples == []
    {
      samples := [];
    }

    method Observe(value: real)
      modifies this
      ensures samples == Last(old(samples) + [value], WINDOW)
    {
      samples := samples + [value];
      if |samples| > WINDOW {
        samples := samples[|samples| - WINDOW..];
      }
    }

    /** An element of the window at its place in order of observation, 0 for an empty one, or a panic. */
    method ReadPercentile(p: real) returns (r: Reading)
      ensures r == Percentile(samples, p)
      ensures Plausible(samples, p, r)
    {
      PercentileIsPlausible(samples, p);
      var n := |samples|;
      if n == 0 { return Value(0.0); }
      var idx := Position(n, p);
      if idx >= n { idx := n - 1; }
      r := if idx < 0 then IndexPanic else Value(samples[idx]);
    }

    method ReadMean() returns (m: real)
      ensures m == Mean(samples)
    {
      if |samples| == 0 { return 0.0; }
      var sum := 0.0;
      for i := 0 to |samples|
        invariant sum == Sum(samples[..i])
      {
        assert samples[..i + 1][..i] == samples[..i];
        sum := sum + samples[i];
      }
      assert samples[..|samples|] == samples;
      return sum / |samples| as real;
    }
  }

  /* ---------- the window ---------- */

  /** The samples after observing these values one after the other. */
  function Observed(vs: seq<real>): seq<real> {
    if vs == [] then [] else Last(Observed(vs[..|vs| - 1]) + [vs[|vs| - 1]], WINDOW)
  }

  lemma {:induction false} ObservedIsLast(vs: seq<real>)
    ensures Observed(vs) == Last(vs, WINDOW)
    decreases |vs|
  {
    if vs != [] {
      var front, v := vs[..|vs| - 1], vs[|vs| - 1];
      ObservedIsLast(front);
      assert vs == front + [v];
      LastAppend(front, v);
    }
  }

  /** Main result: trimming after every observation keeps exactly the last min(n, 1000) values, in order. */
  lemma {:induction false} WindowHoldsTheLast(vs: seq<real>)
    ensures Observed(vs) == if |vs| <= 1000 then vs else vs[|vs| - 1000..]
  {
    ObservedIsLast(vs);
  }

  /** For p between 0 and 100 a non-empty window answers with one of its elements. */
  lemma PercentileIsAnElement(vs: seq<real>, p: real)
    requires vs != [] && 0.0 <= p <= 100.0
    ensures Percentile(vs, p).Value? && Percentile(vs, p).value in vs
  {
    Scaled(|vs| as real, p);
  }

  /** The answer is the latest element of the window with at most p percent of the window before it. */
  lemma PercentilePosition(vs: seq<real>, p: real, k: nat)
    requires k < |vs| && 0.0 <= p
    requires 100.0 * k as real <= |vs| as real * p
    requires k + 1 < |vs| ==> |vs| as real * p < 100.0 * (k + 1) as real
    ensures Percentile(vs, p) == Value(vs[k])
  {
    var x := |vs| as real * p / 100.0;
    assert k as real <= x && (k + 1 < |vs| ==> x < (k + 1) as real);
    assert Truncate(x) == x.Floor && k <= x.Floor;
  }

  /** Truncation is towards zero: slightly negative arguments still name the oldest element. */
  lemma PercentileBelowZero(vs: seq<real>, p: real)
    requires vs != [] && -1.0 < |vs| as real * p / 100.0 < 0.0
    ensures Percentile(vs, p) == Value(vs[0])
  {
    var x := |vs| as real * p / 100.0;
    assert (-x).Floor == 0;
  }

  /** What a caller can rely on: a panic exactly for far negative arguments, and an element for a percentage. */
  predicate Plausible(vs: seq<real>, p: real, r: Reading) {
    && (vs == [] ==> r == Value(0.0))
    && (r.IndexPanic? <==> vs != [] && |vs| as real * p / 100.0 <= -1.0)
    && (vs != [] && 0.0 <= p <= 100.0 ==> r.Value? && r.value in vs)
  }

  lemma PercentileIsPlausible(vs: seq<real>, p: real)
    ensures Plausible(vs, p, Percentile(vs, p))
  {
    PercentilePanicsIff(vs, p);
    if vs != [] && 0.0 <= p <= 100.0 { PercentileIsAnElement(vs, p); }
  }

  lemma Scaled(n: real, p: real)
    requires n > 0.0 && p >= 0.0
    ensures n * p / 100.0 >= 0.0
  {
    assert n * p >= 0.0;
  }

  /** Reading panics exactly when the scaled position of a non-empty window is -1 or less. */
  lemma PercentilePanicsIff(vs: seq<real>, p: real)
    ensures Percentile(vs, p).IndexPanic? <==> vs != [] && |vs| as real * p / 100.0 <= -1.0
  {
    var x := |vs| as real * p / 100.0;
    if x < 0.0 {
      var f := (-x).Floor;
      assert f as real <= -x < f as real + 1.0;
    }
  }

  /* ---------- the metrics object ---------- */

  datatype Test = Test(download: real, upload: real, ping: real)

  /** The recorded tests, each metric's window and the test counter. */
  datatype View = View(total: nat, download: seq<real>, upload: seq<real>, ping: seq<real>)

  const EMPTY := View(0, [], [], [])

  function Recorded(v: View, t: Test): View {
    View((v.total + 1) % UINT64, Last(v.download + [t.download], WINDOW),
         Last(v.upload + [t.upload], WINDOW), Last(v.ping + [t.ping], WINDOW))
  }

  class Metrics {
    var enabled: bool
    var testsTotal: nat
    var downloadSpeed: Histogram
    var uploadSpeed: Histogram
    var pingLatency: Histogram

    ghost predicate Valid()
      reads this
    {
      downloadSpeed != uploadSpeed && uploadSpeed != pingLatency && downloadSpeed != pingLatency
    }

    function Tests(): View
      reads this, downloadSpeed, uploadSpeed, pingLatency
    {
      View(testsTotal, downloadSpeed.samples, uploadSpeed.samples, pingLatency.samples)
    }

    constructor (enabled: bool)
      ensures Valid() && Tests() == EMPTY && this.enabled == enabled
      ensures fresh(downloadSpeed) && fresh(uploadSpeed) && fresh(pingLatency)
    {
      this.enabled := enabled;
      testsTotal := 0;
      downloadSpeed := new Histogram();
      uploadSpeed := new Histogram();
      pingLatency := new Histogram();
    }

    method RecordSpeedTest(t: Test)
      requires Valid()
      modifies this`testsTotal, downloadSpeed, uploadSpeed, pingLatency
      ensures Valid() && Tests() == if enabled then Recorded(old(Tests()), t) else old(Tests())
    {
      if !enabled { return; }
      testsTotal := (testsTotal + 1) % UINT64;
      downloadSpeed.Observe(t.download);
      uploadSpeed.Observe(t.upload);
      pingLatency.Observe(t.ping);
    }

    method Reset()
      modifies this
      ensures Valid() && Tests() == EMPTY && enabled == old(enabled)
      ensures fresh(downloadSpeed) && fresh(uploadSpeed) && fresh(pingLatency)
    {
      testsTotal := 0;
      downloadSpeed := new Histogram();
      uploadSpeed := new Histogram();
      pingLatency := new Histogram();
    }
  }

  datatype Event = Record(test: Test) | Reset | SetEnabled(on: bool)

  datatype State = State(enabled: bool, tests: View)

  function Step(s: State, e: Event): State {
    match e
    case Record(t) => if s.enabled then s.(tests := Recorded(s.tests, t)) else s
    case Reset => s.(tests := EMPTY)
    case SetEnabled(on) => s.(enabled := on)
  }

  function Run(on: bool, es: seq<Event>): State {
    if es == [] then State(on, EMPTY) else Step(Run(on, es[..|es| - 1]), es[|es| - 1])
  }

  /** The tests reported while enabled since the last reset. */
  function Counted(on: bool, es: seq<Event>): seq<Test> {
    if es == [] then [] else
      var before := Counted(on, es[..|es| - 1]);
      match es[|es| - 1]
      case Record(t) => if Run(on, es[..|es| - 1]).enabled then before + [t] else before
      case Reset => []
      case SetEnabled(_) => before
  }

  function Downloads(ts: seq<Test>): (r: seq<real>)
    ensures |r| == |ts|
  {
    seq(|ts|, i requires 0 <= i < |ts| => ts[i].download)
  }

  function Uploads(ts: seq<Test>): (r: seq<real>)
    ensures |r| == |ts|
  {
    seq(|ts|, i requires 0 <= i < |ts| => ts[i].upload)
  }

  function Pings(ts: seq<Test>): (r: seq<real>)
    ensures |r| == |ts|
  {
    seq(|ts|, i requires 0 <= i < |ts| => ts[i].ping)
  }

  lemma LastAppend(vs: seq<real>, v: real)
    ensures Last(Last(vs, WINDOW) + [v], WINDOW) == Last(vs + [v], WINDOW)
  {
  }

  /** The counter is the number of these tests, and each window holds its metric of the last of them. */
  predicate Describes(v: View, ts: seq<Test>) {
    && v.total == |ts| % UINT64
    && v.download == Last(Downloads(ts), WINDOW)
    && v.upload == Last(Uploads(ts), WINDOW)
    && v.ping == Last(Pings(ts), WINDOW)
  }

  lemma RecordedDescribes(v: View, ts: seq<Test>, t: Test)
    requires Describes(v, ts)
    ensures Describes(Recorded(v, t), ts + [t])
  {
    assert Downloads(ts + [t]) == Downloads(ts) + [t.download];
    assert Uploads(ts + [t]) == Uploads(ts) + [t.upload];
    assert Pings(ts + [t]) == Pings(ts) + [t.ping];
    LastAppend(Downloads(ts), t.download);
    LastAppend(Uploads(ts), t.upload);
    LastAppend(Pings(ts), t.ping);
  }

  /** Main result: counter and windows describe the same tests, and the three windows stay equally long. */
  lemma {:induction false} MetricsDescribeTheCountedTests(on: bool, es: seq<Event>)
    ensures var v, ts := Run(on, es).tests, Counted(on, es);
      && Describes(v, ts)
      && |v.download| == |v.upload| == |v.ping|
    decreases |es|
  {
    if es != [] {
      var before, e := es[..|es| - 1], es[|es| - 1];
      MetricsDescribeTheCountedTests(on, before);
      if e.Record? && Run(on, before).enabled {
        RecordedDescribes(Run(on, before).tests, Counted(on, before), e.test);
      }
    }
  }
}
