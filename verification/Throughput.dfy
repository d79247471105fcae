/**
 testDownload and testUpload of src/server/service/speedtest.go: worker goroutines that add chunkSize to a
 mutex-guarded total until the deadline, beside a sampler goroutine that reads the clock and the total.

 A schedule is any sequence of events: the clock advances, one worker or the sampler takes its next atomic
 action. An action that is not possible yet leaves the state alone.
 */
module Throughput {
  import opened Common
  import opened Reals

  /** `start` is the clock reading at the top of the function; clock values are nanoseconds. */
  datatype Config = Config(threads: nat, chunk: nat, durationSec: int, start: int) {
    function End(): int { start + durationSec * SECOND }
  }

  const PAUSE := 10 * MILLISECOND
  const TICK := 200 * MILLISECOND

  datatype Phase = Checking | Adding | Sleeping(until: int) | Done

  datatype Worker = Worker(phase: Phase, iterations: nat)

  /** `elapsed` is the clock reading, from the start; the total was read at `readAt`, which is later. */
  datatype Sample = Sample(elapsed: int, bytes: int, readAt: int)

  datatype Sampler = Waiting | Measuring | Reading(elapsed: int) | Stopped

  datatype State = State(now: int, total: int, workers: seq<Worker>, sampler: Sampler, samples: seq<Sample>)

  datatype Event = Advance(dt: nat) | Work(i: nat) | Observe

  function Init(c: Config): State {
    State(c.start, 0, seq(c.threads, _ => Worker(Checking, 0)), Waiting, [])
  }

  function WorkerStep(c: Config, s: State, i: nat): State
    requires i < |s.workers|
  {
    var w := s.workers[i];
    match w.phase
    case Checking => s.(workers := s.workers[i := w.(phase := if s.now < c.End() then Adding else Done)])
    case Adding =>
      s.(total := s.total + c.chunk,
         workers := s.workers[i := Worker(Sleeping(s.now + PAUSE), w.iterations + 1)])
    case Sleeping(until) =>
      if s.now < until then s else s.(workers := s.workers[i := w.(phase := Checking)])
    case Done => s
  }

  function SamplerStep(c: Config, s: State): State {
    match s.sampler
    case Waiting =>
      if s.now < c.start + TICK then s
      else s.(sampler := if s.now > c.End() then Stopped else Measuring)
    case Measuring => s.(sampler := Reading(s.now - c.start))
    case Reading(elapsed) => s.(sampler := Waiting, samples := s.samples + [Sample(elapsed, s.total, s.now - c.start)])
    case Stopped => s
  }

  function Step(c: Config, s: State, e: Event): State {
    match e
    case Advance(dt) => s.(now := s.now + dt)
    case Work(i) => if i < |s.workers| then WorkerStep(c, s, i) else s
    case Observe => SamplerStep(c, s)
  }

  function Run(c: Config, es: seq<Event>): State {
    if es == [] then Init(c) else Step(c, Run(c, es[..|es| - 1]), es[|es| - 1])
  }

  /** wg.Wait returns. */
  predicate AllDone(s: State) {
    forall i | 0 <= i < |s.workers| :: s.workers[i].phase == Done
  }

  function Iterations(ws: seq<Worker>): nat {
    if ws == [] then 0 else Iterations(ws[..|ws| - 1]) + ws[|ws| - 1].iterations
  }

  lemma {:induction false} IterationsUpdate(ws: seq<Worker>, i: nat, w: Worker)
    requires i < |ws|
    ensures Iterations(ws[i := w]) == Iterations(ws) - ws[i].iterations + w.iterations
    decreases |ws|
  {
    var n := |ws| - 1;
    if i < n {
      IterationsUpdate(ws[..n], i, w);
      assert ws[i := w][..n] == ws[..n][i := w];
    } else {
      assert ws[i := w][..n] == ws[..n];
    }
  }

  lemma {:induction false} IterationsBound(ws: seq<Worker>, most: nat)
    requires forall i | 0 <= i < |ws| :: ws[i].iterations <= most
    ensures Iterations(ws) <= |ws| * most
    decreases |ws|
  {
    if ws != [] { IterationsBound(ws[..|ws| - 1], most); }
  }

  lemma {:induction false} IterationsZero(n: nat)
    ensures Iterations(seq(n, _ => Worker(Checking, 0))) == 0
  {
    if n > 0 {
      IterationsZero(n - 1);
      assert seq(n, _ => Worker(Checking, 0))[..n - 1] == seq(n - 1, _ => Worker(Checking, 0));
    }
  }

  /* ---------- workers ---------- */

  /** Every iteration of a worker has cost it ten milliseconds since the start. */
  ghost predicate Paced(c: Config, now: int, w: Worker) {
    && (w.iterations > 0 ==> PAUSE * (w.iterations - 1) < c.End() - c.start)
    && match w.phase
       case Checking => c.start + PAUSE * w.iterations <= now
       case Adding => c.start + PAUSE * w.iterations <= now && PAUSE * w.iterations < c.End() - c.start
       case Sleeping(until) => c.start + PAUSE * w.iterations <= until
       case Done => c.End() <= now
  }

  ghost predicate Inv(c: Config, s: State) {
    && |s.workers| == c.threads
    && s.now >= c.start
    && s.total == c.chunk * Iterations(s.workers)
    && forall i | 0 <= i < |s.workers| :: Paced(c, s.now, s.workers[i])
  }

  lemma WorkerStepKeepsPace(c: Config, s: State, i: nat)
    requires i < |s.workers| && s.now >= c.start && Paced(c, s.now, s.workers[i])
    ensures var s' := WorkerStep(c, s, i);
      && s'.workers == s.workers[i := s'.workers[i]]
      && s'.now == s.now
      && Paced(c, s.now, s'.workers[i])
      && s'.total - s.total == c.chunk * (s'.workers[i].iterations - s.workers[i].iterations)
  {
  }

  lemma WorkerStepKeepsInv(c: Config, s: State, i: nat)
    requires Inv(c, s) && i < |s.workers|
    ensures Inv(c, WorkerStep(c, s, i))
  {
    WorkerStepKeepsPace(c, s, i);
    var w, w' := s.workers[i], WorkerStep(c, s, i).workers[i];
    IterationsUpdate(s.workers, i, w');
    Distribute(c.chunk, Iterations(s.workers), w'.iterations - w.iterations);
  }

  lemma Distribute(a: int, b: int, d: int)
    ensures a * (b + d) == a * b + a * d
  {
  }

  lemma {:induction false} RunKeepsInv(c: Config, es: seq<Event>)
    ensures Inv(c, Run(c, es))
    decreases |es|
  {
    if es == [] {
      IterationsZero(c.threads);
    } else {
      var before, e := es[..|es| - 1], es[|es| - 1];
      RunKeepsInv(c, before);
      var s := Run(c, before);
      if e.Work? && e.i < |s.workers| { WorkerStepKeepsInv(c, s, e.i); }
    }
  }

  /** Conservation, in every reachable state: the total is chunkSize for each loop iteration of each worker. */
  lemma TotalIsChunkTimesIterations(c: Config, es: seq<Event>)
    ensures Run(c, es).total == c.chunk * Iterations(Run(c, es).workers)
  {
    RunKeepsInv(c, es);
  }

  /** No worker loops more than a hundred times per second of the test, and none at all without a duration. */
  lemma WorkerIterationLimit(c: Config, es: seq<Event>, i: nat)
    requires i < |Run(c, es).workers|
    ensures Run(c, es).workers[i].iterations <= 100 * Max(0, c.durationSec)
  {
    RunKeepsInv(c, es);
    assert Paced(c, Run(c, es).now, Run(c, es).workers[i]);
  }

  /** With at least one worker, the barrier is not passed before the duration is over. */
  lemma BarrierTakesTheDuration(c: Config, es: seq<Event>)
    requires c.threads >= 1 && AllDone(Run(c, es))
    ensures Run(c, es).now - c.start >= c.durationSec * SECOND
  {
    RunKeepsInv(c, es);
    assert Run(c, es).workers[0].phase == Done && Paced(c, Run(c, es).now, Run(c, es).workers[0]);
  }

  /** The rate the function returns for `total` bytes in `elapsed` nanoseconds. */
  function Mbps(total: int, elapsed: int): real
    requires elapsed > 0
  {
    total as real * 8.0 / (elapsed as real / 1_000_000_000.0) / 1_000_000.0
  }

  /** A megabit per second is a bit per microsecond: over this time the rate makes up the bytes again. */
  predicate MakesUp(rate: real, elapsed: int, total: int) {
    rate * elapsed as real == 8000.0 * total as real
  }

  lemma RateMakesUpTheBytes(total: int, elapsed: int)
    requires elapsed > 0
    ensures MakesUp(Mbps(total, elapsed), elapsed, total)
  {
    var t, e := total as real * 8.0, elapsed as real;
    Divide(t, e / 1_000_000_000.0);
    var q := t / (e / 1_000_000_000.0);
    assert e / 1_000_000_000.0 * q == t;
    Scale(e, q, t);
  }

  lemma Scale(e: real, q: real, t: real)
    requires e / 1_000_000_000.0 * q == t
    ensures q / 1_000_000.0 * e == t * 1000.0
  {
  }

  /** Main result: the reported rate, over the time the test took, is exactly chunkSize for every iteration. */
  lemma ReportedRateIsExact(c: Config, es: seq<Event>)
    requires c.threads >= 1 && c.durationSec >= 1 && AllDone(Run(c, es))
    ensures Elapsed(c, es) > 0
    ensures MakesUp(Mbps(Run(c, es).total, Elapsed(c, es)), Elapsed(c, es), Run(c, es).total)
    ensures Run(c, es).total == c.chunk * Iterations(Run(c, es).workers)
  {
    BarrierTakesTheDuration(c, es);
    TotalIsChunkTimesIterations(c, es);
    RateMakesUpTheBytes(Run(c, es).total, Elapsed(c, es));
  }

  function Elapsed(c: Config, es: seq<Event>): int {
    Run(c, es).now - c.start
  }

  /** After any run, a worker that looks at the clock stops exactly from the deadline on, and adds before it. */
  lemma WorkerStopsIff(c: Config, es: seq<Event>, i: nat)
    requires i < |Run(c, es).workers| && Run(c, es).workers[i].phase == Checking
    ensures var s := Run(c, es);
      var t := Step(c, s, Work(i));
      && (t.workers[i].phase == Done <==> s.now - c.start >= c.durationSec * SECOND)
      && (t.workers[i].phase != Done ==> Step(c, t, Work(i)).total == s.total + c.chunk)
  {
  }

  lemma AllIterationsLimit(c: Config, es: seq<Event>)
    requires c.durationSec >= 1
    ensures Iterations(Run(c, es).workers) <= |Run(c, es).workers| * (100 * c.durationSec)
  {
    var ws := Run(c, es).workers;
    forall i | 0 <= i < |ws| ensures ws[i].iterations <= 100 * c.durationSec {
      WorkerIterationLimit(c, es, i);
    }
    IterationsBound(ws, 100 * c.durationSec);
  }

  /** Main result: whatever the schedule, the reported rate is at most threads * chunkSize * 800 / 10^6. */
  lemma ReportedRateIsBounded(c: Config, es: seq<Event>)
    requires c.threads >= 1 && c.durationSec >= 1 && AllDone(Run(c, es))
    ensures var s := Run(c, es);
      && s.now - c.start > 0
      && 0.0 <= Mbps(s.total, s.now - c.start) <= (c.threads * c.chunk * 800) as real / 1_000_000.0
  {
    var s := Run(c, es);
    RunKeepsInv(c, es);
    BarrierTakesTheDuration(c, es);
    var d := c.durationSec;
    AllIterationsLimit(c, es);
    var k := c.threads * c.chunk * 100;
    TotalBound(c.chunk, Iterations(s.workers), c.threads, d);
    assert s.total <= k * d;
    RateBound(s.total, k, d, s.now - c.start);
  }

  lemma TotalBound(chunk: nat, iterations: nat, threads: nat, d: nat)
    requires iterations <= threads * (100 * d)
    ensures chunk * iterations <= threads * chunk * 100 * d
  {
    assert chunk * iterations <= chunk * (threads * (100 * d));
    assert chunk * (threads * (100 * d)) == threads * chunk * 100 * d;
  }

  lemma RateBound(total: int, k: nat, d: int, elapsed: int)
    requires d >= 1 && 0 <= total <= k * d && elapsed >= d * SECOND
    ensures 0.0 <= Mbps(total, elapsed) <= (k * 8) as real / 1_000_000.0
  {
    var seconds := elapsed as real / 1_000_000_000.0;
    assert seconds >= d as real;
    var t, kr := total as real, k as real;
    assert t <= kr * (d as real);
    assert kr * (d as real) <= kr * seconds;
    QuotientBound(t * 8.0, seconds, kr * 8.0);
    assert (k * 8) as real == kr * 8.0;
  }

  lemma QuotientBound(a: real, b: real, q: real)
    requires b > 0.0 && 0.0 <= a <= q * b
    ensures 0.0 <= a / b <= q
  {
    Divide(a, b);
    Quotient(a / b, b, 0.0, q);
  }

  /** Once the barrier is passed nothing changes the total any more. */
  lemma TotalIsFinal(c: Config, s: State, e: Event)
    requires AllDone(s)
    ensures AllDone(Step(c, s, e)) && Step(c, s, e).total == s.total
  {
  }

  /* ---------- sampler ---------- */

  /** The progress value of a sample: the elapsed share of the duration, cut at one. */
  function Progress(c: Config, sample: Sample): real
    requires c.durationSec >= 1
  {
    var share := sample.elapsed as real / 1_000_000_000.0 / c.durationSec as real;
    if share > 1.0 then 1.0 else share
  }

  function ChunksOf(c: Config, k: nat): int { c.chunk * k }

  /** Samples are multiples of chunkSize, grow with time and never pass the running total. */
  ghost predicate Sampled(c: Config, s: State) {
    && (forall k | 0 <= k < |s.samples| ::
          && TICK <= s.samples[k].elapsed <= s.now - c.start
          && s.samples[k].bytes <= s.total
          && exists m: nat :: s.samples[k].bytes == ChunksOf(c, m))
    && (forall j, k | 0 <= j < k < |s.samples| ::
          s.samples[j].elapsed <= s.samples[k].elapsed && s.samples[j].bytes <= s.samples[k].bytes)
    && (s.sampler.Measuring? ==> c.start + TICK <= s.now)
    && (s.sampler.Reading? ==>
          && TICK <= s.sampler.elapsed <= s.now - c.start
          && forall k | 0 <= k < |s.samples| :: s.samples[k].elapsed <= s.sampler.elapsed)
  }

  /** Time passing and workers adding leave the samples alone. */
  lemma OthersKeepSampled(c: Config, s: State, e: Event)
    requires Sampled(c, s) && !e.Observe?
    ensures Sampled(c, Step(c, s, e))
  {
    var s' := Step(c, s, e);
    assert s'.samples == s.samples && s'.sampler == s.sampler && s'.now >= s.now && s'.total >= s.total;
  }

  /** The sampler appends the total it reads, which is a multiple of chunkSize. */
  lemma ObserveKeepsSampled(c: Config, s: State, k: nat)
    requires Sampled(c, s) && s.total == ChunksOf(c, k)
    ensures Sampled(c, SamplerStep(c, s))
  {
  }

  lemma {:induction false} RunKeepsSampled(c: Config, es: seq<Event>)
    ensures Sampled(c, Run(c, es))
    decreases |es|
  {
    if es != [] {
      var before, e := es[..|es| - 1], es[|es| - 1];
      RunKeepsSampled(c, before);
      var s := Run(c, before);
      if e.Observe? {
        RunKeepsInv(c, before);
        ObserveKeepsSampled(c, s, Iterations(s.workers));
      } else {
        OthersKeepSampled(c, s, e);
      }
    }
  }

  /** No worker sleeps longer than one pause. */
  ghost predicate Napping(s: State) {
    forall i | 0 <= i < |s.workers| && s.workers[i].phase.Sleeping? :: s.workers[i].phase.until <= s.now + PAUSE
  }

  lemma {:induction false} RunKeepsNapping(c: Config, es: seq<Event>)
    ensures Napping(Run(c, es))
    decreases |es|
  {
    if es != [] { RunKeepsNapping(c, es[..|es| - 1]); }
  }

  /** At any moment each worker has added at most once per pause since the start, and once more. */
  lemma TotalSoFar(c: Config, es: seq<Event>)
    ensures var s := Run(c, es);
      s.now >= c.start && s.total <= c.threads * c.chunk * ((s.now - c.start) / PAUSE + 1)
  {
    RunKeepsInv(c, es);
    RunKeepsNapping(c, es);
    var s := Run(c, es);
    var most := (s.now - c.start) / PAUSE + 1;
    forall i | 0 <= i < |s.workers| ensures s.workers[i].iterations <= most {
      assert Paced(c, s.now, s.workers[i]);
      assert PAUSE * (s.workers[i].iterations - 1) <= s.now - c.start;
    }
    IterationsBound(s.workers, most);
    ScaleBound(c.chunk, Iterations(s.workers), c.threads, most);
  }

  lemma ScaleBound(chunk: nat, iterations: nat, threads: nat, most: nat)
    requires iterations <= threads * most
    ensures chunk * iterations <= threads * chunk * most
  {
    assert chunk * iterations <= chunk * (threads * most);
    assert chunk * (threads * most) == threads * chunk * most;
  }

  /** What a sample saw was added before its total was read. */
  ghost predicate SeenInTime(c: Config, x: Sample) {
    x.readAt >= 0 && x.bytes <= c.threads * c.chunk * (x.readAt / PAUSE + 1) && x.elapsed <= x.readAt
  }

  lemma {:induction false} SamplesAreSeenInTime(c: Config, es: seq<Event>)
    ensures forall k | 0 <= k < |Run(c, es).samples| :: SeenInTime(c, Run(c, es).samples[k])
    decreases |es|
  {
    if es != [] {
      var before := es[..|es| - 1];
      SamplesAreSeenInTime(c, before);
      TotalSoFar(c, before);
      RunKeepsSampled(c, before);
    }
  }

  /** The speed that a progress update reports. */
  function Speed(x: Sample): real
    requires x.elapsed > 0
  {
    Mbps(x.bytes, x.elapsed)
  }

  /** The bound on the reported rate, threads * chunkSize * 800 / 10^6. */
  function RateLimit(c: Config): real {
    (c.threads * c.chunk * 800) as real / 1_000_000.0
  }

  function TopSpeed(c: Config): real {
    RateLimit(c) * (5 * c.durationSec) as real
  }

  /**
   Main result about progress speeds: a sample reads the clock before the total, so its speed is bounded by what can
   be added until the later reading, not by what the earlier one allows. It never exceeds 5 * durationSec times the
   bound of the final rate.
   */
  lemma SampleSpeedIsBounded(c: Config, es: seq<Event>, k: nat)
    requires c.durationSec >= 1 && k < |Run(c, es).samples|
    ensures var x := Run(c, es).samples[k];
      && TICK <= x.elapsed <= x.readAt
      && x.bytes <= c.threads * c.chunk * (x.readAt / PAUSE + 1)
      && 0.0 <= Speed(x) <= TopSpeed(c)
  {
    SamplesAreSeenInTime(c, es);
    SampleWithinTotal(c, es, k);
    var x := Run(c, es).samples[k];
    assert SeenInTime(c, x);
    SpeedBound(x.bytes, c.threads * c.chunk, c.durationSec, x.elapsed);
  }

  lemma SampleWithinTotal(c: Config, es: seq<Event>, k: nat)
    requires c.durationSec >= 1 && k < |Run(c, es).samples|
    ensures var x := Run(c, es).samples[k];
      TICK <= x.elapsed && 0 <= x.bytes <= c.threads * c.chunk * 100 * c.durationSec
  {
    RunKeepsSampled(c, es);
    SamplesAreMonotone(c, es, k, k);
    WholeTotal(c, es);
  }

  lemma WholeTotal(c: Config, es: seq<Event>)
    requires c.durationSec >= 1
    ensures Run(c, es).total <= c.threads * c.chunk * 100 * c.durationSec
  {
    RunKeepsInv(c, es);
    AllIterationsLimit(c, es);
    TotalBound(c.chunk, Iterations(Run(c, es).workers), c.threads, c.durationSec);
  }

  lemma SpeedBound(bytes: int, k: nat, d: int, elapsed: int)
    requires d >= 1 && 0 <= bytes <= k * 100 * d && elapsed >= TICK
    ensures 0.0 <= Mbps(bytes, elapsed) <= (k * 800) as real / 1_000_000.0 * (5 * d) as real
  {
    var seconds := elapsed as real / 1_000_000_000.0;
    assert seconds >= 0.2;
    var q := (k * 100 * d) as real * 8.0 * 5.0;
    assert bytes as real * 8.0 <= q * 0.2;
    assert q * 0.2 <= q * seconds;
    QuotientBound(bytes as real * 8.0, seconds, q);
    assert q / 1_000_000.0 == (k * 800) as real / 1_000_000.0 * (5 * d) as real by {
      assert q == (k * 800 * (5 * d)) as real;
    }
  }

  /** Main result about progress: samples only move forward, stay at or below 1, and never overtake the final total. */
  lemma SamplesAreMonotone(c: Config, es: seq<Event>, j: nat, k: nat)
    requires c.durationSec >= 1
    requires j <= k < |Run(c, es).samples|
    ensures var s := Run(c, es);
      && 0.0 < Progress(c, s.samples[j]) <= Progress(c, s.samples[k]) <= 1.0
      && 0 <= s.samples[j].bytes <= s.samples[k].bytes <= s.total
      && exists m: nat :: s.samples[k].bytes == ChunksOf(c, m)
  {
    RunKeepsSampled(c, es);
    var s := Run(c, es);
    var a, b := s.samples[j], s.samples[k];
    assert a.elapsed <= b.elapsed;
    var d := c.durationSec as real;
    ShareMonotone(a.elapsed as real / 1_000_000_000.0, b.elapsed as real / 1_000_000_000.0, d);
    var m: nat :| a.bytes == ChunksOf(c, m);
    assert a.bytes >= 0;
  }

  lemma ShareMonotone(a: real, b: real, d: real)
    requires 0.0 < a <= b && d > 0.0
    ensures 0.0 < a / d <= b / d
  {
    Divide(a, d);
    Divide(b, d);
    Quotient(a / d, d, 0.0, b / d);
    assert d * (a / d) != d * 0.0;
  }

  /* ---------- the fastest sample ---------- */

  /** The state after further events. */
  function Runs(c: Config, s: State, es: seq<Event>): State {
    if es == [] then s else Step(c, Runs(c, s, es[..|es| - 1]), es[|es| - 1])
  }

  lemma {:induction false} RunThenRuns(c: Config, es: seq<Event>, more: seq<Event>)
    ensures Run(c, es + more) == Runs(c, Run(c, es), more)
    decreases |more|
  {
    if more == [] {
      assert es + more == es;
    } else {
      RunThenRuns(c, es, more[..|more| - 1]);
      assert (es + more)[..|es + more| - 1] == es + more[..|more| - 1];
    }
  }

  lemma {:induction false} RunsThenRuns(c: Config, s: State, es: seq<Event>, more: seq<Event>)
    ensures Runs(c, s, es + more) == Runs(c, Runs(c, s, es), more)
    decreases |more|
  {
    if more == [] {
      assert es + more == es;
    } else {
      RunsThenRuns(c, s, es, more[..|more| - 1]);
      assert (es + more)[..|es + more| - 1] == es + more[..|more| - 1];
    }
  }

  lemma RunsOne(c: Config, s: State, e: Event)
    ensures Runs(c, s, [e]) == Step(c, s, e)
  {
    assert [e][..0] == [];
  }

  /** One action of each of the first k workers. */
  function Pass(k: nat): seq<Event> {
    if k == 0 then [] else Pass(k - 1) + [Work(k - 1)]
  }

  /** The first k workers are in one state, the others in another. */
  ghost predicate Split(s: State, n: nat, k: nat, after: Worker, before: Worker) {
    && |s.workers| == n && k <= n
    && (forall i | 0 <= i < k :: s.workers[i] == after)
    && (forall i | k <= i < n :: s.workers[i] == before)
  }

  /** A worker in this state moves on to that one and adds so much, at the present clock. */
  ghost predicate MovesOn(c: Config, now: int, before: Worker, after: Worker, added: int) {
    match before.phase
    case Checking => now < c.End() && after == before.(phase := Adding) && added == 0
    case Adding => after == Worker(Sleeping(now + PAUSE), before.iterations + 1) && added == c.chunk
    case Sleeping(until) => now >= until && after == before.(phase := Checking) && added == 0
    case Done => false
  }

  /** t is s after a pass over the first k workers. */
  ghost predicate Passed(c: Config, s: State, t: State, k: nat, before: Worker, after: Worker, added: int) {
    && Split(t, c.threads, k, after, before)
    && t == s.(workers := t.workers, total := t.total) && t.total == s.total + added * k
  }

  lemma {:induction false} PassMovesAll(c: Config, s: State, k: nat, before: Worker, after: Worker, added: int)
    requires k <= c.threads && Split(s, c.threads, 0, after, before) && MovesOn(c, s.now, before, after, added)
    ensures Passed(c, s, Runs(c, s, Pass(k)), k, before, after, added)
  {
    if k > 0 {
      PassMovesAll(c, s, k - 1, before, after, added);
      var t := Runs(c, s, Pass(k - 1));
      OneMoreMoves(c, s, t, k - 1, before, after, added);
      OneMoreWorker(c, s, k);
    }
  }

  lemma OneMoreMoves(c: Config, s: State, t: State, k: nat, before: Worker, after: Worker, added: int)
    requires k < c.threads && MovesOn(c, s.now, before, after, added)
    requires Passed(c, s, t, k, before, after, added)
    ensures Passed(c, s, Step(c, t, Work(k)), k + 1, before, after, added)
  {
    OneMoves(c, t, k, before, after, added);
    Times(added, k);
  }

  lemma OneMoreWorker(c: Config, s: State, k: nat)
    requires k > 0
    ensures Runs(c, s, Pass(k)) == Step(c, Runs(c, s, Pass(k - 1)), Work(k - 1))
  {
    assert Pass(k)[..|Pass(k)| - 1] == Pass(k - 1);
  }

  lemma Times(a: int, k: nat)
    ensures a * (k + 1) == a * k + a
  {
  }

  lemma OneMoves(c: Config, s: State, i: nat, before: Worker, after: Worker, added: int)
    requires i < |s.workers| && s.workers[i] == before && MovesOn(c, s.now, before, after, added)
    ensures Step(c, s, Work(i)) == s.(workers := s.workers[i := after], total := s.total + added)
  {
  }

  /** Every worker checks, adds, sleeps and wakes. */
  function Round(c: Config): seq<Event> {
    (Pass(c.threads) + Pass(c.threads)) + ([Advance(PAUSE)] + Pass(c.threads))
  }

  function Rounds(c: Config, n: nat): seq<Event> {
    if n == 0 then [] else Rounds(c, n - 1) + Round(c)
  }

  /** All workers have gone round n times since the start, without losing time. */
  ghost predicate InStep(c: Config, s: State, n: nat) {
    && Uniform(c, s, Worker(Checking, n))
    && s.now == c.start + n * PAUSE && s.total == c.threads * c.chunk * n
  }

  /** All workers are in one state. */
  ghost predicate Uniform(c: Config, s: State, w: Worker) {
    |s.workers| == c.threads && forall i | 0 <= i < c.threads :: s.workers[i] == w
  }

  lemma FullPass(c: Config, s: State, before: Worker, after: Worker, added: int)
    requires Uniform(c, s, before) && MovesOn(c, s.now, before, after, added)
    ensures var t := Runs(c, s, Pass(c.threads));
      && Uniform(c, t, after)
      && t == s.(workers := t.workers, total := t.total) && t.total == s.total + added * c.threads
  {
    PassMovesAll(c, s, c.threads, before, after, added);
  }

  /** All workers check and add. */
  lemma AllAdd(c: Config, s: State, n: nat)
    requires InStep(c, s, n) && n < 100 * c.durationSec
    ensures var t := Runs(c, s, Pass(c.threads) + Pass(c.threads));
      && Uniform(c, t, Worker(Sleeping(s.now + PAUSE), n + 1))
      && t == s.(workers := t.workers, total := t.total) && t.total == s.total + c.chunk * c.threads
  {
    RunsThenRuns(c, s, Pass(c.threads), Pass(c.threads));
    FullPass(c, s, Worker(Checking, n), Worker(Adding, n), 0);
    FullPass(c, Runs(c, s, Pass(c.threads)), Worker(Adding, n), Worker(Sleeping(s.now + PAUSE), n + 1), c.chunk);
  }

  /** The clock advances by the pause, and all workers wake up. */
  lemma AllWake(c: Config, s: State, n: nat)
    requires Uniform(c, s, Worker(Sleeping(s.now + PAUSE), n + 1))
    ensures var t := Runs(c, s, [Advance(PAUSE)] + Pass(c.threads));
      && Uniform(c, t, Worker(Checking, n + 1))
      && t == s.(workers := t.workers, now := s.now + PAUSE)
  {
    RunsOne(c, s, Advance(PAUSE));
    RunsThenRuns(c, s, [Advance(PAUSE)], Pass(c.threads));
    var d := Step(c, s, Advance(PAUSE));
    FullPass(c, d, Worker(Sleeping(s.now + PAUSE), n + 1), Worker(Checking, n + 1), 0);
  }

  lemma OneRound(c: Config, s: State, n: nat)
    requires InStep(c, s, n) && n < 100 * c.durationSec
    ensures var t := Runs(c, s, Round(c));
      InStep(c, t, n + 1) && t.sampler == s.sampler && t.samples == s.samples
  {
    AllAdd(c, s, n);
    AllWake(c, Runs(c, s, Pass(c.threads) + Pass(c.threads)), n);
    RunsThenRuns(c, s, Pass(c.threads) + Pass(c.threads), [Advance(PAUSE)] + Pass(c.threads));
    RoundTotal(c.threads, c.chunk, n);
  }

  lemma RoundTotal(threads: nat, chunk: nat, n: nat)
    ensures threads * chunk * n + chunk * threads == threads * chunk * (n + 1)
    ensures n * PAUSE + PAUSE == (n + 1) * PAUSE
  {
    Distribute(threads * chunk, n, 1);
    assert chunk * threads == threads * chunk;
  }

  lemma {:induction false} ManyRounds(c: Config, s: State, from: nat, n: nat)
    requires InStep(c, s, from) && from + n <= 100 * c.durationSec
    ensures var t := Runs(c, s, Rounds(c, n));
      InStep(c, t, from + n) && t.sampler == s.sampler && t.samples == s.samples
  {
    if n > 0 {
      ManyRounds(c, s, from, n - 1);
      RunsThenRuns(c, s, Rounds(c, n - 1), Round(c));
      OneRound(c, Runs(c, s, Rounds(c, n - 1)), from + n - 1);
    }
  }

  lemma StartIsInStep(c: Config)
    ensures InStep(c, Init(c), 0)
  {
  }

  /** After n rounds the sampler's first tick is due; it reads the clock at once. */
  lemma FirstTick(c: Config, n: nat) returns (es: seq<Event>)
    requires c.durationSec >= 1 && n * PAUSE == TICK
    ensures InStep(c, Run(c, es), n) && Run(c, es).sampler == Reading(TICK) && Run(c, es).samples == []
  {
    var first := Rounds(c, n);
    StartIsInStep(c);
    ManyRounds(c, Init(c), 0, n);
    FromTheStart(c, first);
    TwoMore(c, first, Observe, Observe);
    ClockIsRead(c, Run(c, first));
    es := first + [Observe] + [Observe];
  }

  lemma FromTheStart(c: Config, es: seq<Event>)
    ensures Run(c, es) == Runs(c, Init(c), es)
  {
    RunThenRuns(c, [], es);
    assert [] + es == es;
  }

  lemma TwoMore(c: Config, es: seq<Event>, e: Event, f: Event)
    ensures Run(c, es + [e] + [f]) == Step(c, Step(c, Run(c, es), e), f)
  {
    var a, b := es + [e], es + [e] + [f];
    assert a[..|a| - 1] == es && b[..|b| - 1] == a;
  }

  lemma ClockIsRead(c: Config, s: State)
    requires s.sampler == Waiting && s.now == c.start + TICK && c.durationSec >= 1
    ensures Step(c, Step(c, s, Observe), Observe) == s.(sampler := Reading(TICK))
  {
  }

  /** The sampler reads the clock at its first tick, and the total when all workers have done all they can. */
  lemma FastestSample(c: Config) returns (es: seq<Event>)
    requires c.durationSec >= 1
    ensures Run(c, es).samples != []
    ensures Run(c, es).samples[0].elapsed == TICK
    ensures Run(c, es).samples[0].bytes == c.threads * c.chunk * (100 * c.durationSec)
  {
    var early: nat := TICK / PAUSE;
    var late: nat := 100 * c.durationSec - early;
    var tick := FirstTick(c, early);
    ManyRounds(c, Run(c, tick), early, late);
    RunThenRuns(c, tick, Rounds(c, late));
    var before := tick + Rounds(c, late);
    es := before + [Observe];
    assert es[..|es| - 1] == before;
    SampleIsTaken(c, Run(c, before));
  }

  lemma SampleIsTaken(c: Config, s: State)
    requires s.sampler == Reading(TICK) && s.samples == []
    ensures Step(c, s, Observe).samples == [Sample(TICK, s.total, s.now - c.start)]
  {
  }

  lemma SpeedOfFastest(k: nat, d: nat)
    ensures Mbps(k * (100 * d), TICK) == (k * 800) as real / 1_000_000.0 * (5 * d) as real
  {
    assert TICK as real / 1_000_000_000.0 == 0.2;
    assert k * 800 * (5 * d) == k * (100 * d) * 40;
    var b, r := (k * (100 * d)) as real, (k * 800) as real * (5 * d) as real;
    assert r == (k * 800 * (5 * d)) as real;
    assert r == b * 40.0;
  }

  /** A sample with this speed is taken in the run. */
  ghost predicate Reports(c: Config, es: seq<Event>, k: nat, speed: real) {
    k < |Run(c, es).samples| && Run(c, es).samples[k].elapsed > 0 && Speed(Run(c, es).samples[k]) == speed
  }

  /** The factor of SampleSpeedIsBounded is attained, with any number of workers and any chunk size. */
  lemma SampleBoundIsAttained(c: Config)
    requires c.durationSec >= 1
    ensures exists es :: Reports(c, es, 0, TopSpeed(c))
  {
    var es := FastestSample(c);
    SpeedOfFastest(c.threads * c.chunk, c.durationSec);
    assert Reports(c, es, 0, TopSpeed(c));
  }

  /** Main result: some schedule reports a speed above the bound of the final rate exactly when anything is sent. */
  lemma SampleExceedsTheRateLimitIff(c: Config)
    requires c.durationSec >= 1
    ensures (exists es, k: nat, speed :: Reports(c, es, k, speed) && speed > RateLimit(c)) <==> c.threads * c.chunk > 0
  {
    if c.threads * c.chunk > 0 {
      SampleBoundIsAttained(c);
      var es :| Reports(c, es, 0, TopSpeed(c));
      MoreThanItself(RateLimit(c), (5 * c.durationSec) as real);
    } else {
      forall es, k: nat, speed | Reports(c, es, k, speed) ensures speed <= RateLimit(c) {
        SampleSpeedIsBounded(c, es, k);
        assert RateLimit(c) == 0.0;
      }
    }
  }

  lemma MoreThanItself(r: real, f: real)
    requires r > 0.0 && f >= 5.0
    ensures r * f > r
  {
    ProductSign(r, f - 1.0);
    Minus(r, f, 1.0);
  }

  /* ---------- what a sample says ---------- */

  /** Progress is the share of the duration that had elapsed, until all of it has. */
  lemma ProgressIsTheElapsedShare(c: Config, x: Sample)
    requires c.durationSec >= 1
    ensures x.elapsed <= c.durationSec * SECOND ==>
      Progress(c, x) * (c.durationSec * SECOND) as real == x.elapsed as real
    ensures x.elapsed >= c.durationSec * SECOND ==> Progress(c, x) == 1.0
  {
    var d, e := c.durationSec as real, x.elapsed as real;
    Divide(e / 1_000_000_000.0, d);
    var share := e / 1_000_000_000.0 / d;
    assert d * share == e / 1_000_000_000.0;
    assert (c.durationSec * SECOND) as real == d * 1_000_000_000.0;
    Seconds(share, d, e);
    assert x.elapsed <= c.durationSec * SECOND ==> e <= d * 1_000_000_000.0;
    assert x.elapsed >= c.durationSec * SECOND ==> e >= d * 1_000_000_000.0;
    if e <= d * 1_000_000_000.0 { ShareAtMost(share, d, e / 1_000_000_000.0); }
    if e >= d * 1_000_000_000.0 { ShareAtLeast(share, d, e / 1_000_000_000.0); }
  }

  lemma Seconds(share: real, d: real, e: real)
    requires d * share == e / 1_000_000_000.0
    ensures share * (d * 1_000_000_000.0) == e
  {
  }

  lemma ShareAtMost(share: real, d: real, seconds: real)
    requires d > 0.0 && d * share == seconds && seconds <= d
    ensures share <= 1.0
  {
    if share > 1.0 {
      ProductSign(d, share - 1.0);
      Minus(d, share, 1.0);
    }
  }

  lemma ShareAtLeast(share: real, d: real, seconds: real)
    requires d > 0.0 && d * share == seconds && seconds >= d
    ensures share >= 1.0
  {
    if share < 1.0 {
      ProductSign(d, 1.0 - share);
      Minus(d, 1.0, share);
    }
  }

  /** The clock was read after the first i events, the total after the first j. */
  ghost predicate ReadOff(c: Config, es: seq<Event>, x: Sample, i: nat, j: nat) {
    && i <= j <= |es|
    && x.elapsed == Run(c, es[..i]).now - c.start
    && x.bytes == Run(c, es[..j]).total && x.readAt == Run(c, es[..j]).now - c.start
  }

  /** The sampler's clock reading was taken after the first i events. */
  ghost predicate ClockRead(c: Config, es: seq<Event>, elapsed: int, i: nat) {
    i <= |es| && elapsed == Run(c, es[..i]).now - c.start
  }

  lemma ReadOffGrows(c: Config, es: seq<Event>, e: Event, x: Sample, i: nat, j: nat)
    requires ReadOff(c, es, x, i, j)
    ensures ReadOff(c, es + [e], x, i, j)
  {
    assert (es + [e])[..i] == es[..i] && (es + [e])[..j] == es[..j];
  }

  lemma ClockReadGrows(c: Config, es: seq<Event>, e: Event, elapsed: int, i: nat)
    requires ClockRead(c, es, elapsed, i)
    ensures ClockRead(c, es + [e], elapsed, i)
  {
    assert (es + [e])[..i] == es[..i];
  }

  ghost predicate WasReadOff(c: Config, es: seq<Event>, x: Sample) {
    exists i: nat, j: nat :: ReadOff(c, es, x, i, j)
  }

  ghost predicate ClockWasRead(c: Config, es: seq<Event>, elapsed: int) {
    exists i: nat :: ClockRead(c, es, elapsed, i)
  }

  /** Every sample of a state was read off in the run, and so was the clock for one that is being taken. */
  ghost predicate AllReadOff(c: Config, es: seq<Event>, s: State) {
    && (forall k | 0 <= k < |s.samples| :: WasReadOff(c, es, s.samples[k]))
    && (s.sampler.Reading? ==> ClockWasRead(c, es, s.sampler.elapsed))
  }

  lemma AllReadOffGrows(c: Config, es: seq<Event>, e: Event, s: State)
    requires AllReadOff(c, es, s)
    ensures AllReadOff(c, es + [e], s)
  {
    forall k | 0 <= k < |s.samples| ensures WasReadOff(c, es + [e], s.samples[k]) {
      var i: nat, j: nat :| ReadOff(c, es, s.samples[k], i, j);
      ReadOffGrows(c, es, e, s.samples[k], i, j);
    }
    if s.sampler.Reading? {
      var i: nat :| ClockRead(c, es, s.sampler.elapsed, i);
      ClockReadGrows(c, es, e, s.sampler.elapsed, i);
    }
  }

  /** A sample taken now, of a clock that was read before. */
  lemma SampleIsReadOff(c: Config, before: seq<Event>, e: Event, elapsed: int)
    requires ClockWasRead(c, before, elapsed)
    ensures var s := Run(c, before); WasReadOff(c, before + [e], Sample(elapsed, s.total, s.now - c.start))
  {
    var s, es, n := Run(c, before), before + [e], |before|;
    var i: nat :| ClockRead(c, before, elapsed, i);
    assert es[..i] == before[..i] && es[..n] == before;
    assert ReadOff(c, es, Sample(elapsed, s.total, s.now - c.start), i, n);
  }

  /** What one step adds to the samples, and how the sampler comes to read. */
  lemma StepReads(c: Config, s: State, e: Event)
    ensures var t := Step(c, s, e);
      && (t.sampler.Reading? ==> t.sampler == s.sampler || t.sampler.elapsed == s.now - c.start)
      && (t.samples == s.samples
          || (s.sampler.Reading? && t.samples == s.samples + [Sample(s.sampler.elapsed, s.total, s.now - c.start)]))
  {
  }

  /** Main result: every sample is what the clock and, no earlier, the total said at two moments of the run. */
  lemma {:induction false} SamplesAreReadOff(c: Config, es: seq<Event>)
    ensures AllReadOff(c, es, Run(c, es))
    decreases |es|
  {
    if es != [] {
      var before, e := es[..|es| - 1], es[|es| - 1];
      var s, t, n := Run(c, before), Run(c, es), |before|;
      SamplesAreReadOff(c, before);
      AllReadOffGrows(c, before, e, s);
      assert es == before + [e] && es[..n] == before;
      StepReads(c, s, e);
      assert ClockRead(c, es, s.now - c.start, n);
      if t.samples != s.samples { SampleIsReadOff(c, before, e, s.sampler.elapsed); }
    }
  }

  /** The sampler can still take a sample: it has begun one, or waits for a tick before the end. */
  predicate CanSample(c: Config, s: State) {
    s.sampler.Measuring? || s.sampler.Reading? || (s.sampler.Waiting? && s.now <= c.End())
  }

  /** Main result: after any run, further samples can follow exactly if one is begun or the deadline is not over. */
  lemma FurtherSamplesIff(c: Config, es: seq<Event>)
    requires c.durationSec >= 1
    ensures var s := Run(c, es);
      (exists more :: |Run(c, es + more).samples| > |s.samples|) <==> CanSample(c, s)
  {
    var s := Run(c, es);
    if CanSample(c, s) {
      var more := SampleSoon(c, es);
    } else {
      forall more ensures Run(c, es + more).samples == s.samples { NoFurtherSample(c, es, more); }
    }
  }

  lemma {:induction false} NoFurtherSample(c: Config, es: seq<Event>, more: seq<Event>)
    requires !CanSample(c, Run(c, es))
    ensures Run(c, es + more).samples == Run(c, es).samples && !CanSample(c, Run(c, es + more))
    decreases |more|
  {
    if more == [] {
      assert es + more == es;
    } else {
      NoFurtherSample(c, es, more[..|more| - 1]);
      assert (es + more)[..|es + more| - 1] == es + more[..|more| - 1];
    }
  }

  /** Wait for the tick if need be, then look at the clock and at the total. */
  lemma SampleSoon(c: Config, es: seq<Event>) returns (more: seq<Event>)
    requires c.durationSec >= 1 && CanSample(c, Run(c, es))
    ensures |Run(c, es + more).samples| > |Run(c, es).samples|
  {
    var s := Run(c, es);
    RunKeepsInv(c, es);
    var wait: nat := if s.sampler.Waiting? then Max(0, c.start + TICK - s.now) else 0;
    more := [Advance(wait), Observe, Observe, Observe];
    RunThenRuns(c, es, more);
    FourMore(c, s, Advance(wait), Observe, Observe, Observe);
  }

  lemma FourMore(c: Config, s: State, e: Event, f: Event, g: Event, h: Event)
    ensures Runs(c, s, [e, f, g, h]) == Step(c, Step(c, Step(c, Step(c, s, e), f), g), h)
  {
    RunsOne(c, s, e);
    assert [e, f][..1] == [e];
    assert Runs(c, s, [e, f]) == Step(c, Step(c, s, e), f);
    assert [e, f, g][..2] == [e, f];
    assert Runs(c, s, [e, f, g]) == Step(c, Step(c, Step(c, s, e), f), g);
    assert [e, f, g, h][..3] == [e, f, g];
  }

  /** A total seen at any moment is never above the one seen later. */
  lemma {:induction false} TotalNeverShrinks(c: Config, es: seq<Event>, more: seq<Event>)
    ensures Run(c, es).total <= Run(c, es + more).total
    decreases |more|
  {
    if more == [] {
      assert es + more == es;
    } else {
      TotalNeverShrinks(c, es, more[..|more| - 1]);
      assert (es + more)[..|es + more| - 1] == es + more[..|more| - 1];
    }
  }
}
