/**
 The sequential loops of src/server/service/speedtest.go: ping statistics, the download generator and the
 upload consumer. float64 values are reals; the square root is a parameter with its defining law.
 */
module SpeedTest {
  import opened Reals

  const SAMPLES := 10
  const BUFFER := 8192

  /* ---------- ping ---------- */

  function Square(d: real): real { d * d }

  function SquaredDeviations(xs: seq<real>, a: real): real {
    if xs == [] then 0.0 else
      var d := xs[|xs| - 1] - a;
      SquaredDeviations(xs[..|xs| - 1], a) + Square(d)
  }

  /** The replies that took a positive number of milliseconds, in order. */
  function Replies(elapsed: seq<int>): seq<real> {
    if elapsed == [] then [] else
      var last := elapsed[|elapsed| - 1];
      Replies(elapsed[..|elapsed| - 1]) + if last > 0 then [last as real] else []
  }

  /** A probe that took a positive time is one reply with that time; the replies of a list come one after the other. */
  lemma {:induction false} RepliesConcat(a: seq<int>, b: seq<int>)
    ensures Replies(a + b) == Replies(a) + Replies(b)
    ensures |b| == 1 ==> Replies(b) == if b[0] > 0 then [b[0] as real] else []
    decreases |b|
  {
    if b == [] {
      assert a + b == a;
    } else {
      RepliesConcat(a, b[..|b| - 1]);
      assert (a + b)[..|a + b| - 1] == a + b[..|b| - 1];
    }
  }

  function SumOfSquares(xs: seq<real>): real {
    if xs == [] then 0.0 else SumOfSquares(xs[..|xs| - 1]) + Square(xs[|xs| - 1])
  }

  /** Squared deviations from a, expanded. */
  ghost predicate Expanded(deviations: real, squares: real, sum: real, a: real, n: real) {
    deviations == squares - 2.0 * (a * sum) + n * (a * a)
  }

  lemma {:induction false} DeviationsExpanded(xs: seq<real>, a: real)
    ensures Expanded(SquaredDeviations(xs, a), SumOfSquares(xs), Sum(xs), a, |xs| as real)
    decreases |xs|
  {
    if xs != [] {
      var front, x := xs[..|xs| - 1], xs[|xs| - 1];
      DeviationsExpanded(front, a);
      assert |xs| as real == |front| as real + 1.0;
      OneMoreDeviation(SquaredDeviations(front, a), SumOfSquares(front), Sum(front), x, a, |front| as real);
    }
  }

  lemma OneMoreDeviation(deviations: real, squares: real, sum: real, x: real, a: real, n: real)
    requires Expanded(deviations, squares, sum, a, n)
    ensures Expanded(deviations + Square(x - a), squares + Square(x), sum + x, a, n + 1.0)
  {
    Expand(x, a, x, a);
    Spread(a, sum, x);
    Spread(a * a, n, 1.0);
  }

  lemma AroundMean(xs: seq<real>, n: real, a: real, v: real)
    requires n == |xs| as real && n * a == Sum(xs) && n * v == SquaredDeviations(xs, a)
    ensures n * (v + a * a) == SumOfSquares(xs)
  {
    DeviationsExpanded(xs, a);
    MeanTakenOut(SquaredDeviations(xs, a), SumOfSquares(xs), Sum(xs), a, n, v);
  }

  lemma MeanTakenOut(deviations: real, squares: real, sum: real, a: real, n: real, v: real)
    requires Expanded(deviations, squares, sum, a, n) && n * a == sum && n * v == deviations
    ensures n * (v + a * a) == squares
  {
    assert a * sum == n * (a * a);
    Spread(n, v, a * a);
  }

  lemma VarianceTimesCount(xs: seq<real>)
    requires xs != []
    ensures |xs| as real * Variance(xs) == SquaredDeviations(xs, Mean(xs))
  {
    Divide(SquaredDeviations(xs, Mean(xs)), |xs| as real);
  }

  /** The variance and the squared mean together are the mean of the squares. */
  lemma VarianceAndMean(xs: seq<real>, n: real, a: real, v: real)
    requires xs != [] && n == |xs| as real && a == Mean(xs) && v == Variance(xs)
    ensures n * a == Sum(xs) && n * (v + a * a) == SumOfSquares(xs)
  {
    MeanTimesCount(xs);
    VarianceTimesCount(xs);
    AroundMean(xs, n, a, v);
  }

  function Variance(xs: seq<real>): real
    requires xs != []
  {
    SquaredDeviations(xs, Mean(xs)) / |xs| as real
  }

  lemma DeviationOfPrefix(xs: seq<real>, i: nat, a: real)
    requires i < |xs|
    ensures SquaredDeviations(xs[..i + 1], a) == SquaredDeviations(xs[..i], a) + (xs[i] - a) * (xs[i] - a)
  {
    assert xs[..i + 1][..i] == xs[..i];
  }

  ghost predicate IsSquareRoot(sqrt: real -> real) {
    forall x: real | x >= 0.0 :: sqrt(x) >= 0.0 && sqrt(x) * sqrt(x) == x
  }

  /**
   What testPing measures: the mean is the sum shared out, the squares of mean and jitter make up the mean square, and
   every reply takes ten percent off the loss.
   */
  ghost predicate Measures(pings: seq<real>, avgMs: real, jitterMs: real, packetLoss: real) {
    var n := |pings| as real;
    && n * avgMs == Sum(pings)
    && jitterMs >= 0.0 && n * (jitterMs * jitterMs + avgMs * avgMs) == SumOfSquares(pings)
    && packetLoss == 100.0 - 10.0 * n
  }

  /** testPing; `elapsed` are the measured milliseconds of the ten probes. */
  method TestPing(elapsed: seq<int>, sqrt: real -> real) returns (avgMs: real, jitterMs: real, packetLoss: real)
    requires |elapsed| == SAMPLES
    ensures var pings := Replies(elapsed);
      if pings == [] then (avgMs, jitterMs, packetLoss) == (0.0, 0.0, 100.0)
      else avgMs == Mean(pings) && jitterMs == sqrt(Variance(pings))
           && packetLoss == (SAMPLES - |pings|) as real / 10.0 * 100.0
    ensures IsSquareRoot(sqrt) ==> Measures(Replies(elapsed), avgMs, jitterMs, packetLoss)
  {
    var pings: seq<real> := [];
    var successful := 0;
    for i := 0 to SAMPLES
      invariant pings == Replies(elapsed[..i])
      invariant successful == |pings|
    {
      assert elapsed[..i + 1][..i] == elapsed[..i];
      if elapsed[i] > 0 {
        pings := pings + [elapsed[i] as real];
        successful := successful + 1;
      }
    }
    assert elapsed[..SAMPLES] == elapsed;
    if |pings| == 0 {
      return 0.0, 0.0, 100.0;
    }

    var sum := 0.0;
    for i := 0 to |pings|
      invariant sum == Sum(pings[..i])
    {
      assert pings[..i + 1][..i] == pings[..i];
      sum := sum + pings[i];
    }
    assert pings[..|pings|] == pings;
    avgMs := sum / |pings| as real;
    assert avgMs == Mean(pings);

    var variance := 0.0;
    for i := 0 to |pings|
      invariant variance == SquaredDeviations(pings[..i], avgMs)
    {
      DeviationOfPrefix(pings, i, avgMs);
      variance := variance + (pings[i] - avgMs) * (pings[i] - avgMs);
    }
    assert variance / |pings| as real == Variance(pings);
    jitterMs := sqrt(variance / |pings| as real);
    packetLoss := (SAMPLES - successful) as real / 10.0 * 100.0;
    if IsSquareRoot(sqrt) { PingIsMeasured(pings, jitterMs, packetLoss, sqrt); }
  }

  lemma PingIsMeasured(pings: seq<real>, jitterMs: real, packetLoss: real, sqrt: real -> real)
    requires pings != [] && IsSquareRoot(sqrt) && jitterMs == sqrt(Variance(pings))
    requires packetLoss == (SAMPLES - |pings|) as real / 10.0 * 100.0
    ensures Measures(pings, Mean(pings), jitterMs, packetLoss)
  {
    VarianceAndMean(pings, |pings| as real, Mean(pings), Variance(pings));
    VarianceSign(pings);
    assert jitterMs * jitterMs == Variance(pings);
  }

  lemma VarianceSign(xs: seq<real>)
    requires xs != []
    ensures Variance(xs) >= 0.0
  {
    DeviationsSign(xs, Mean(xs));
    QuotientSign(SquaredDeviations(xs, Mean(xs)), |xs| as real);
  }

  lemma {:induction false} DeviationsSign(xs: seq<real>, a: real)
    ensures SquaredDeviations(xs, a) >= 0.0
    decreases |xs|
  {
    if xs != [] {
      DeviationsSign(xs[..|xs| - 1], a);
      var d := xs[|xs| - 1] - a;
      if d >= 0.0 { ProductSign(d, d); } else { ProductSign(-d, -d); }
    }
  }

  /** The sum of the values s * x + k. */
  lemma {:induction false} SumOfLine(xs: seq<real>, ys: seq<real>, s: real, k: real)
    requires |xs| == |ys| && forall i | 0 <= i < |xs| :: ys[i] == s * xs[i] + k
    ensures Sum(ys) == s * Sum(xs) + k * |xs| as real
    decreases |xs|
  {
    if xs != [] {
      var front, x := xs[..|xs| - 1], xs[|xs| - 1];
      SumOfLine(front, ys[..|ys| - 1], s, k);
      Spread(s, Sum(front), x);
      Spread(k, |front| as real, 1.0);
    }
  }

  lemma {:induction false} DeviationsAreASum(xs: seq<real>, a: real, ds: seq<real>)
    requires |xs| == |ds| && forall i | 0 <= i < |xs| :: ds[i] == Square(xs[i] - a)
    ensures SquaredDeviations(xs, a) == Sum(ds)
    decreases |xs|
  {
    if xs != [] { DeviationsAreASum(xs[..|xs| - 1], a, ds[..|ds| - 1]); }
  }

  /** One squared deviation lies below the line through the two ends. */
  lemma Between(x: real, lo: real, hi: real, a: real, s: real, k: real)
    requires lo <= x <= hi && s == hi + lo - 2.0 * a && k == a * a - hi * lo
    ensures 0.0 <= Square(x - a) <= s * x + k
  {
    ProductSign(hi - x, x - lo);
    Expand(hi, x, x, lo);
    Expand(x, a, x, a);
    Spread(x, hi + lo, -2.0 * a);
    Spread(x, hi, lo);
    if x >= a { ProductSign(x - a, x - a); } else { ProductSign(a - x, a - x); }
  }

  /** The sum of the squared deviations ds is at most the sum of the line's values ls. */
  lemma DeviationsBelowLine(pings: seq<real>, a: real, s: real, k: real, ds: seq<real>, ls: seq<real>)
    requires |ds| == |ls| == |pings|
    requires forall i | 0 <= i < |pings| :: ds[i] == Square(pings[i] - a)
    requires forall i | 0 <= i < |pings| :: ls[i] == s * pings[i] + k
    requires forall i | 0 <= i < |pings| :: 0.0 <= ds[i] <= ls[i]
    ensures 0.0 <= SquaredDeviations(pings, a) <= s * Sum(pings) + k * |pings| as real
  {
    DeviationsAreASum(pings, a, ds);
    SumMonotone(ds, ls);
    SumMonotone(seq(|pings|, _ => 0.0), ds);
    SumOfConstant(|pings|, 0.0);
    SumOfLine(pings, ls, s, k);
  }

  lemma DeviationsAround(pings: seq<real>, lo: real, hi: real, a: real, s: real, k: real)
    requires Within(pings, lo, hi) && s == hi + lo - 2.0 * a && k == a * a - hi * lo
    ensures 0.0 <= SquaredDeviations(pings, a) <= s * Sum(pings) + k * |pings| as real
  {
    var n := |pings|;
    var ds := seq(n, i requires 0 <= i < n => Square(pings[i] - a));
    var ls := seq(n, i requires 0 <= i < n => s * pings[i] + k);
    forall i | 0 <= i < n ensures 0.0 <= ds[i] <= ls[i] {
      Between(pings[i], lo, hi, a, s, k);
    }
    DeviationsBelowLine(pings, a, s, k, ds, ls);
  }

  lemma DeviationsAroundMean(pings: seq<real>, lo: real, hi: real, n: real, a: real, p: real)
    requires Within(pings, lo, hi) && n == |pings| as real
    requires n * a == Sum(pings) && p == (hi - a) * (a - lo)
    ensures 0.0 <= SquaredDeviations(pings, a) <= n * p
  {
    var s, k: real :| s == hi + lo - 2.0 * a && k == a * a - hi * lo;
    DeviationsAround(pings, lo, hi, a, s, k);
    LineAtMean(lo, hi, a, s, k, n, Sum(pings), p);
  }

  /** Main result: the mean lies between the extremes and the variance obeys (hi - mean) * (mean - lo). */
  lemma PingStatistics(pings: seq<real>, lo: real, hi: real)
    requires pings != [] && Within(pings, lo, hi)
    ensures lo <= Mean(pings) <= hi
    ensures 0.0 <= Variance(pings) <= (hi - Mean(pings)) * (Mean(pings) - lo)
  {
    var n, a: real := |pings| as real, Mean(pings);
    var p: real :| p == (hi - a) * (a - lo);
    Divide(Sum(pings), n);
    MeanIsWithin(pings, lo, hi);
    assert 0.0 <= Variance(pings) <= p by {
      Divide(SquaredDeviations(pings, a), n);
      DeviationsAroundMean(pings, lo, hi, n, a, p);
      Quotient(Variance(pings), n, 0.0, p);
    }
  }

  lemma LineAtMean(lo: real, hi: real, a: real, s: real, k: real, n: real, sum: real, p: real)
    requires s == hi + lo - 2.0 * a && k == a * a - hi * lo
    requires sum == n * a && p == (hi - a) * (a - lo)
    ensures s * sum + k * n == n * p
  {
    assert s * sum == n * (s * a);
    Spread(n, s * a, k);
    Spread(a, hi + lo, -2.0 * a);
    Spread(a, hi, lo);
    Expand(hi, a, a, lo);
  }

  lemma HalfWay(lo: real, hi: real, a: real)
    ensures (hi - a) * (a - lo) <= Square(hi - lo) / 4.0
  {
    var u, v := hi - a, a - lo;
    Expand(u, v, u, v);
    Expand(u, -v, u, -v);
    if u >= v { ProductSign(u - v, u - v); } else { ProductSign(v - u, v - u); }
    assert hi - lo == u - -v;
  }

  /** Jitter is at most half the spread of the replies. */
  lemma JitterIsAtMostHalfTheSpread(pings: seq<real>, lo: real, hi: real, sqrt: real -> real)
    requires pings != [] && Within(pings, lo, hi) && IsSquareRoot(sqrt)
    ensures var jitter := sqrt(Variance(pings));
      && jitter * jitter == Variance(pings)
      && 0.0 <= 2.0 * jitter <= hi - lo
  {
    PingStatistics(pings, lo, hi);
    HalfWay(lo, hi, Mean(pings));
    var jitter, w := sqrt(Variance(pings)), hi - lo;
    assert 4.0 * (jitter * jitter) <= Square(w);
    assert w >= 0.0;
    assert (2.0 * jitter) * (2.0 * jitter) == 4.0 * (jitter * jitter);
    if 2.0 * jitter > w { SquareGrows(w, 2.0 * jitter); }
  }

  lemma SquareGrows(a: real, b: real)
    requires 0.0 <= a < b
    ensures a * a < b * b
  {
    ProductSign(b - a, b + a);
    Expand(b, a, b, -a);
  }

  /** Loss is a percentage, and it is 100 exactly when no probe was answered. */
  lemma LossIsAPercentage(elapsed: seq<int>)
    requires |elapsed| == SAMPLES
    ensures var loss := (SAMPLES - |Replies(elapsed)|) as real / 10.0 * 100.0;
      && 0.0 <= loss <= 100.0
      && (loss == 100.0 <==> forall i | 0 <= i < SAMPLES :: elapsed[i] <= 0)
  {
    RepliesCount(elapsed);
    var lost := SAMPLES - |Replies(elapsed)|;
    assert 0 <= lost <= SAMPLES;
    assert 0.0 <= lost as real <= 10.0;
    assert lost as real / 10.0 * 100.0 == lost as real * 10.0;
    assert lost == SAMPLES <==> lost as real == 10.0;
    assert lost == SAMPLES <==> Replies(elapsed) == [];
  }

  lemma {:induction false} RepliesCount(elapsed: seq<int>)
    ensures |Replies(elapsed)| <= |elapsed|
    ensures Replies(elapsed) == [] <==> forall i | 0 <= i < |elapsed| :: elapsed[i] <= 0
    ensures forall i | 0 <= i < |Replies(elapsed)| :: Replies(elapsed)[i] >= 1.0
    decreases |elapsed|
  {
    if elapsed != [] { RepliesCount(elapsed[..|elapsed| - 1]); }
  }

  /* ---------- download and upload bodies ---------- */

  function Total(sizes: seq<nat>): nat {
    if sizes == [] then 0 else Total(sizes[..|sizes| - 1]) + sizes[|sizes| - 1]
  }

  /** GenerateRandomData: the sizes of the successive writes to the response. */
  method GenerateRandomData(size: int) returns (writes: seq<nat>)
    ensures Total(writes) == if size > 0 then size else 0
    ensures forall i | 0 <= i < |writes| :: 1 <= writes[i] <= BUFFER
    ensures forall i | 0 <= i < |writes| - 1 :: writes[i] == BUFFER
  {
    writes := [];
    var remaining := size;
    while remaining > 0
      invariant Total(writes) + remaining == size
      invariant if size > 0 then remaining >= 0 else writes == []
      invariant forall i | 0 <= i < |writes| :: 1 <= writes[i] <= BUFFER
      invariant remaining > 0 ==> forall i | 0 <= i < |writes| :: writes[i] == BUFFER
      invariant forall i | 0 <= i < |writes| - 1 :: writes[i] == BUFFER
    {
      var toWrite := remaining;
      if toWrite > BUFFER {
        toWrite := BUFFER;
      }
      assert (writes + [toWrite])[..|writes|] == writes;
      writes := writes + [toWrite];
      remaining := remaining - toWrite;
    }
  }

  datatype Ending = More | EOF | Failure

  datatype Chunk = Chunk(n: nat, ending: Ending)

  /** The number of chunks up to and including the first one that reports an end or an error. */
  function Taken(chunks: seq<Chunk>): (k: nat)
    ensures k <= |chunks|
  {
    if chunks == [] then 0 else if chunks[0].ending.More? then 1 + Taken(chunks[1..]) else 1
  }

  function Sizes(chunks: seq<Chunk>): (r: seq<nat>)
    ensures |r| == |chunks| && forall i | 0 <= i < |chunks| :: r[i] == chunks[i].n
  {
    seq(|chunks|, i requires 0 <= i < |chunks| => chunks[i].n)
  }

  lemma {:induction false} TakenEndsTheBody(chunks: seq<Chunk>)
    ensures forall i | 0 <= i < Taken(chunks) - 1 :: chunks[i].ending.More?
    ensures Taken(chunks) < |chunks| ==> Taken(chunks) > 0 && !chunks[Taken(chunks) - 1].ending.More?
    ensures (exists i :: 0 <= i < |chunks| && !chunks[i].ending.More?) ==>
      Taken(chunks) > 0 && !chunks[Taken(chunks) - 1].ending.More?
    decreases |chunks|
  {
    if chunks != [] && chunks[0].ending.More? { TakenEndsTheBody(chunks[1..]); }
  }

  /** ConsumeUploadData; the reader returns `chunks` in turn, and some read reports an end. */
  method ConsumeUploadData(chunks: seq<Chunk>) returns (total: nat, failed: bool)
    requires exists i :: 0 <= i < |chunks| && !chunks[i].ending.More?
    ensures total == Total(Sizes(chunks[..Taken(chunks)]))
    ensures failed <==> chunks[Taken(chunks) - 1].ending.Failure?
    ensures forall k | FirstEnd(chunks, k) ::
      total == Total(Sizes(chunks[..k + 1])) && (failed <==> chunks[k].ending.Failure?)
  {
    forall k | FirstEnd(chunks, k) ensures k + 1 == Taken(chunks) { TakenIsFirstEnd(chunks, k); }
    TakenEndsTheBody(chunks);
    total, failed := 0, false;
    var k := 0;
    while true
      invariant k < Taken(chunks)
      invariant total == Total(Sizes(chunks[..k]))
      invariant !failed
      decreases |chunks| - k
    {
      assert Sizes(chunks[..k + 1])[..k] == Sizes(chunks[..k]);
      total := total + chunks[k].n;
      if chunks[k].ending.EOF? {
        TakenIsFirstEnd(chunks, k);
        break;
      }
      if chunks[k].ending.Failure? {
        TakenIsFirstEnd(chunks, k);
        failed := true;
        return;
      }
      k := k + 1;
    }
  }

  /** The k-th read is the first that reports an end or an error. */
  ghost predicate FirstEnd(chunks: seq<Chunk>, k: int) {
    0 <= k < |chunks| && !chunks[k].ending.More? && forall j | 0 <= j < k :: chunks[j].ending.More?
  }

  lemma TakenIsFirstEnd(chunks: seq<Chunk>, k: nat)
    requires (k < Taken(chunks) && !chunks[k].ending.More?) || FirstEnd(chunks, k)
    ensures Taken(chunks) == k + 1
  {
    TakenEndsTheBody(chunks);
  }

  /** What the generator sends, read back in the same pieces and closed by EOF, is counted completely. */
  method DownloadThenUpload(size: nat) returns (total: nat, failed: bool)
    ensures total == size && !failed
  {
    var writes := GenerateRandomData(size);
    var chunks := seq(|writes|, i requires 0 <= i < |writes| => Chunk(writes[i], More)) + [Chunk(0, EOF)];
    assert FirstEnd(chunks, |writes|);
    total, failed := ConsumeUploadData(chunks);
    assert chunks[..|writes| + 1] == chunks;
    assert Sizes(chunks)[..|writes|] == writes;
  }
}
