/** The stream processor's detector (stream_processor/faust_app.py): a
    per-product event counter fed by the event stream, and a periodic step
    that appends each counter to a bounded list of past samples, compares it
    with the mean and standard deviation of the earlier samples, and emits an
    alert (resetting the counter) on a spike. */
module StreamProcessor {
  import opened Common

  /** `min_count`: a window with fewer events never alerts. */
  const MIN_COUNT: nat := 5
  /** `z_threshold`. */
  const Z_THRESHOLD: real := 3.0
  /** `epsilon`, added to the standard deviation before dividing. */
  const EPSILON: real := 0.000001
  /** The baseline list drops its oldest sample once it exceeds this length. */
  const BASELINE_CAP: nat := 60
  /** Fewer earlier samples than this and no statistics are computed. */
  const MIN_SAMPLES: nat := 5

  // ---------------------------------------------------------------------
  // Baseline statistics, exact over the reals

  function Sum(s: seq<nat>): nat
  {
    if s == [] then 0 else Sum(s[..|s| - 1]) + s[|s| - 1]
  }

  /** `statistics.mean`. */
  function Mean(s: seq<nat>): real
    requires |s| > 0
  {
    Sum(s) as real / |s| as real
  }

  lemma SquareNonNegative(x: real)
    ensures 0.0 <= x * x
  {
    if x < 0.0 {
      assert x * x == (-x) * (-x);
    }
  }

  function SquaredDeviations(s: seq<nat>, m: real): (r: real)
    ensures 0.0 <= r
  {
    if s == [] then 0.0
    else
      var d := s[|s| - 1] as real - m;
      SquareNonNegative(d);
      SquaredDeviations(s[..|s| - 1], m) + d * d
  }

  /** The population variance, whose square root is `statistics.pstdev`. */
  function Variance(s: seq<nat>): (v: real)
    requires |s| > 0
    ensures 0.0 <= v
  {
    SquaredDeviations(s, Mean(s)) / |s| as real
  }

  /** `n` samples all equal to `c`. */
  function Constant(c: nat, n: nat): seq<nat>
  {
    seq(n, _ => c)
  }

  lemma {:induction false} SumConstant(c: nat, n: nat)
    ensures Sum(Constant(c, n)) == c * n
  {
    if n > 0 {
      assert Constant(c, n)[..n - 1] == Constant(c, n - 1);
      SumConstant(c, n - 1);
    }
  }

  lemma {:induction false} DeviationsConstant(c: nat, n: nat)
    ensures SquaredDeviations(Constant(c, n), c as real) == 0.0
  {
    if n > 0 {
      assert Constant(c, n)[..n - 1] == Constant(c, n - 1);
      DeviationsConstant(c, n - 1);
    }
  }

  /** A constant history has itself as mean and no spread. */
  lemma ConstantStatistics(c: nat, n: nat)
    requires n > 0
    ensures Mean(Constant(c, n)) == c as real
    ensures Variance(Constant(c, n)) == 0.0
  {
    SumConstant(c, n);
    assert (c * n) as real == c as real * n as real;
    DeviationsConstant(c, n);
  }

  // ---------------------------------------------------------------------
  // The alert rule for one product

  datatype StreamAlert = StreamAlert(
    productId: ProductId,
    currentCount: nat,
    baselineMean: real,
    baselineStd: real,
    zScore: real,
    detectedAt: int)

  /** `bl.append(curr)`, then `bl.pop(0)` when the list is longer than the cap. */
  function AppendSample(bl: seq<nat>, curr: nat): seq<nat>
  {
    var s := bl + [curr];
    if |s| > BASELINE_CAP then s[1..] else s
  }

  /** `bl[:-1] if len(bl) > 1 else []`. */
  function PriorSamples(bl: seq<nat>): seq<nat>
  {
    if |bl| > 1 then bl[..|bl| - 1] else []
  }

  /** The decision on the current count `curr` against the earlier samples
      `hist`; `root` is the square root taken by `pstdev`. */
  function Assess(productId: ProductId, curr: nat, hist: seq<nat>, now: int, root: real -> real): Option<StreamAlert>
    requires IsSqrt(root)
  {
    if |hist| < MIN_SAMPLES then None
    else
      var m := Mean(hist);
      var s := if |hist| > 1 then root(Variance(hist)) else 0.0;
      if curr >= MIN_COUNT then
        var z := (curr as real - m) / (s + EPSILON);
        if (s < 1.0 && curr as real >= m * 3.0) || z > Z_THRESHOLD then
          Some(StreamAlert(productId, curr, m, s, z, now))
        else None
      else None
  }

  datatype KeyOutcome = KeyOutcome(baseline: seq<nat>, alert: Option<StreamAlert>)

  /** One product's turn in the periodic step: the new baseline list and the
      alert, if any. */
  function DetectKey(productId: ProductId, curr: nat, bl: seq<nat>, now: int, root: real -> real): KeyOutcome
    requires IsSqrt(root)
  {
    var next := AppendSample(bl, curr);
    KeyOutcome(next, Assess(productId, curr, PriorSamples(next), now, root))
  }

  /** The list grows by the new sample at its end and loses its oldest sample
      only when it was already full, so it never exceeds the cap. */
  lemma AppendSampleShape(bl: seq<nat>, curr: nat)
    requires |bl| <= BASELINE_CAP
    ensures AppendSample(bl, curr) == (if |bl| < BASELINE_CAP then bl else bl[1..]) + [curr]
    ensures |AppendSample(bl, curr)| <= BASELINE_CAP
  {
    if |bl| == BASELINE_CAP {
      assert (bl + [curr])[1..] == bl[1..] + [curr];
    }
  }

  /** The statistics are taken over the old list (without its oldest sample
      when it was full): the current sample never enters its own baseline. */
  lemma PriorSamplesExcludeCurrent(bl: seq<nat>, curr: nat)
    requires |bl| <= BASELINE_CAP
    ensures PriorSamples(AppendSample(bl, curr)) == if |bl| < BASELINE_CAP then bl else bl[1..]
  {
    AppendSampleShape(bl, curr);
    var kept := if |bl| < BASELINE_CAP then bl else bl[1..];
    assert (kept + [curr])[..|kept|] == kept;
  }

  /** No alert with fewer than `MIN_SAMPLES` earlier samples or a count below
      `MIN_COUNT`. */
  lemma ColdStartNoAlert(productId: ProductId, curr: nat, bl: seq<nat>, now: int, root: real -> real)
    requires IsSqrt(root) && |bl| <= BASELINE_CAP
    requires |bl| < MIN_SAMPLES || curr < MIN_COUNT
    ensures DetectKey(productId, curr, bl, now, root).alert == None
  {
    PriorSamplesExcludeCurrent(bl, curr);
  }

  /** The z-score's denominator is strictly positive. */
  lemma DenominatorPositive(hist: seq<nat>, root: real -> real)
    requires IsSqrt(root) && |hist| > 0
    ensures root(Variance(hist)) >= 0.0
    ensures root(Variance(hist)) + EPSILON > 0.0
  {
    var v := Variance(hist);
    assert 0.0 <= root(v);
  }

  lemma RootBelowOne(s: real, v: real)
    requires 0.0 <= s && s * s == v
    ensures s < 1.0 <==> v < 1.0
  {
    if s >= 1.0 {
      assert s * s >= s * 1.0;
    } else {
      assert s * s <= s * 1.0;
    }
  }

  lemma DivAbove(a: real, b: real, c: real)
    requires b > 0.0
    ensures a / b > c <==> a > c * b
  {
    assert a / b * b == a;
    if a / b > c {
      assert a / b * b > c * b;
    } else {
      assert a / b * b <= c * b;
    }
  }

  lemma MulPositive(x: real, y: real)
    requires 0.0 < x && 0.0 < y
    ensures 0.0 < x * y
  {
  }

  lemma SquareStrict(a: real, b: real)
    requires 0.0 <= a < b
    ensures a * a < b * b
  {
    MulPositive(b - a, b + a);
    assert (b - a) * (b + a) == b * b - a * a;
  }

  /** Past the guards, an alert is raised exactly when the spread is below 1
      and `curr >= 3 * mean`, or when `curr - mean > 3 * (std + epsilon)`;
      `std < 1` is the same as `variance < 1`. */
  lemma AssessDecision(productId: ProductId, curr: nat, hist: seq<nat>, now: int, root: real -> real)
    requires IsSqrt(root) && |hist| >= MIN_SAMPLES && curr >= MIN_COUNT
    ensures Assess(productId, curr, hist, now, root).Some? <==>
      || (Variance(hist) < 1.0 && curr as real >= 3.0 * Mean(hist))
      || curr as real - Mean(hist) > 3.0 * (root(Variance(hist)) + EPSILON)
  {
    var v := Variance(hist);
    var s := root(v);
    RootBelowOne(s, v);
    DivAbove(curr as real - Mean(hist), s + EPSILON, Z_THRESHOLD);
  }

  /** The same decision without a square root: with `d = curr - mean - 3 * epsilon`,
      the z test holds exactly when `d > 0` and `d * d > 9 * variance`. */
  lemma AssessDecisionExact(productId: ProductId, curr: nat, hist: seq<nat>, now: int, root: real -> real)
    requires IsSqrt(root) && |hist| >= MIN_SAMPLES && curr >= MIN_COUNT
    ensures var d := curr as real - Mean(hist) - 3.0 * EPSILON;
      Assess(productId, curr, hist, now, root).Some? <==>
        || (Variance(hist) < 1.0 && curr as real >= 3.0 * Mean(hist))
        || (d > 0.0 && d * d > 9.0 * Variance(hist))
  {
    AssessDecision(productId, curr, hist, now, root);
    var m, v := Mean(hist), Variance(hist);
    var d := curr as real - m - 3.0 * EPSILON;
    ZTestSquared(d, root(v), v);
    assert curr as real - m > 3.0 * (root(v) + EPSILON) <==> d > 3.0 * root(v);
  }

  /** For a non-negative square root s of v, `d > 3 s` holds exactly when
      `d > 0` and `d * d > 9 v`. */
  lemma ZTestSquared(d: real, s: real, v: real)
    requires 0.0 <= s && s * s == v
    ensures d > 3.0 * s <==> d > 0.0 && d * d > 9.0 * v
  {
    assert (3.0 * s) * (3.0 * s) == 9.0 * v;
    if d > 3.0 * s {
      SquareStrict(3.0 * s, d);
    } else if d > 0.0 {
      if d < 3.0 * s {
        SquareStrict(d, 3.0 * s);
      }
    }
  }

  /** A raised alert carries the count, the baseline mean and deviation and
      the z-score. */
  lemma AlertFields(productId: ProductId, curr: nat, hist: seq<nat>, now: int, root: real -> real)
    requires IsSqrt(root)
    ensures var r := Assess(productId, curr, hist, now, root);
      r.Some? ==>
        && |hist| >= MIN_SAMPLES
        && curr >= MIN_COUNT
        && r.value.productId == productId
        && r.value.currentCount == curr
        && r.value.baselineMean == Mean(hist)
        && r.value.baselineStd == root(Variance(hist))
        && r.value.baselineStd * r.value.baselineStd == Variance(hist)
        && r.value.zScore * (r.value.baselineStd + EPSILON) == curr as real - Mean(hist)
        && r.value.detectedAt == now
  {
    var r := Assess(productId, curr, hist, now, root);
    if r.Some? {
      var s := root(Variance(hist));
      assert r.value.zScore == (curr as real - Mean(hist)) / (s + EPSILON);
    }
  }

  /** A count equal to every earlier sample never alerts. */
  lemma SteadyStateNoAlert(productId: ProductId, curr: nat, n: nat, now: int, root: real -> real)
    requires IsSqrt(root)
    ensures Assess(productId, curr, Constant(curr, n), now, root) == None
  {
    if n >= MIN_SAMPLES && curr >= MIN_COUNT {
      ConstantStatistics(curr, n);
      var s := root(Variance(Constant(curr, n)));
      assert s * s == 0.0;
      if s > 0.0 {
        SquareStrict(0.0, s);
      }
      DivAbove(0.0, EPSILON, Z_THRESHOLD);
    }
  }

  // ---------------------------------------------------------------------
  // The periodic step over all products

  function CountOf(counts: map<ProductId, nat>, p: ProductId): nat
  {
    if p in counts then counts[p] else 0
  }

  function BaselineOf(baselines: map<ProductId, seq<nat>>, p: ProductId): seq<nat>
  {
    if p in baselines then baselines[p] else []
  }

  datatype Round = Round(counts: map<ProductId, nat>, baselines: map<ProductId, seq<nat>>, sent: seq<StreamAlert>)

  /** The tables after the periodic step has visited `keys` in order, and the
      alerts it sent. */
  function DetectAll(keys: seq<ProductId>, counts: map<ProductId, nat>, baselines: map<ProductId, seq<nat>>,
                     now: int, root: real -> real): Round
    requires IsSqrt(root)
  {
    if keys == [] then Round(counts, baselines, [])
    else Visit(DetectAll(keys[..|keys| - 1], counts, baselines, now, root), keys[|keys| - 1], now, root)
  }

  /** Visiting the next key extends the step by one product. */
  lemma DetectAllStep(keys: seq<ProductId>, i: nat, counts: map<ProductId, nat>,
                      baselines: map<ProductId, seq<nat>>, now: int, root: real -> real)
    requires IsSqrt(root) && i < |keys|
    ensures Visit(DetectAll(keys[..i], counts, baselines, now, root), keys[i], now, root)
         == DetectAll(keys[..i + 1], counts, baselines, now, root)
  {
    assert keys[..i + 1][..i] == keys[..i];
  }

  /** One iteration of the step's loop, for product `p`. */
  function Visit(prev: Round, p: ProductId, now: int, root: real -> real): Round
    requires IsSqrt(root)
  {
    var o := DetectKey(p, CountOf(prev.counts, p), BaselineOf(prev.baselines, p), now, root);
    if o.alert.Some? then Round(prev.counts[p := 0], prev.baselines[p := o.baseline], prev.sent + [o.alert.value])
    else Round(prev.counts, prev.baselines[p := o.baseline], prev.sent)
  }

  /** The alerts of the products `keys`, each judged on its own entries. */
  function Fired(keys: seq<ProductId>, counts: map<ProductId, nat>, baselines: map<ProductId, seq<nat>>,
                 now: int, root: real -> real): seq<StreamAlert>
    requires IsSqrt(root)
  {
    if keys == [] then []
    else
      var p := keys[|keys| - 1];
      var o := DetectKey(p, CountOf(counts, p), BaselineOf(baselines, p), now, root);
      Fired(keys[..|keys| - 1], counts, baselines, now, root) + (if o.alert.Some? then [o.alert.value] else [])
  }

  /** The step never adds or removes a counter. */
  lemma {:induction false} DetectAllKeys(keys: seq<ProductId>, counts: map<ProductId, nat>,
                                         baselines: map<ProductId, seq<nat>>, now: int, root: real -> real)
    requires IsSqrt(root)
    requires forall p :: p in keys ==> p in counts
    ensures DetectAll(keys, counts, baselines, now, root).counts.Keys == counts.Keys
  {
    if keys != [] {
      var front := keys[..|keys| - 1];
      assert forall q :: q in front ==> q in keys;
      DetectAllKeys(front, counts, baselines, now, root);
    }
  }

  /** A product not visited keeps its count and its baseline list. */
  lemma {:induction false} DetectAllUntouched(keys: seq<ProductId>, counts: map<ProductId, nat>,
                                              baselines: map<ProductId, seq<nat>>, now: int, root: real -> real,
                                              p: ProductId)
    requires IsSqrt(root) && p !in keys
    ensures p in DetectAll(keys, counts, baselines, now, root).counts <==> p in counts
    ensures p in DetectAll(keys, counts, baselines, now, root).baselines <==> p in baselines
    ensures CountOf(DetectAll(keys, counts, baselines, now, root).counts, p) == CountOf(counts, p)
    ensures BaselineOf(DetectAll(keys, counts, baselines, now, root).baselines, p) == BaselineOf(baselines, p)
  {
    if keys != [] {
      var front := keys[..|keys| - 1];
      DetectAllUntouched(front, counts, baselines, now, root, p);
    }
  }

  /** A visited product gets the baseline list and count of its own turn,
      judged on its own entries: a zero count after an alert, else the old one. */
  lemma {:induction false} DetectAllVisited(keys: seq<ProductId>, counts: map<ProductId, nat>,
                                            baselines: map<ProductId, seq<nat>>, now: int, root: real -> real,
                                            p: ProductId)
    requires IsSqrt(root) && Distinct(keys) && p in keys
    ensures p in DetectAll(keys, counts, baselines, now, root).baselines
    ensures BaselineOf(DetectAll(keys, counts, baselines, now, root).baselines, p)
         == DetectKey(p, CountOf(counts, p), BaselineOf(baselines, p), now, root).baseline
    ensures CountOf(DetectAll(keys, counts, baselines, now, root).counts, p)
         == if DetectKey(p, CountOf(counts, p), BaselineOf(baselines, p), now, root).alert.Some?
            then 0 else CountOf(counts, p)
  {
    var front, last := keys[..|keys| - 1], keys[|keys| - 1];
    if p == last {
      assert p !in front;
      DetectAllUntouched(front, counts, baselines, now, root, p);
    } else {
      assert p in front by {
        var k :| 0 <= k < |keys| && keys[k] == p;
        assert k < |keys| - 1;
        assert front[k] == p;
      }
      assert Distinct(front) by {
        forall i, j | 0 <= i < j < |front| ensures front[i] != front[j] {
          assert front[i] == keys[i] && front[j] == keys[j];
        }
      }
      DetectAllVisited(front, counts, baselines, now, root, p);
    }
  }

  /** The alerts sent are those of the visited products, in visiting order,
      each judged on its own entries. */
  lemma {:induction false} DetectAllSent(keys: seq<ProductId>, counts: map<ProductId, nat>,
                                         baselines: map<ProductId, seq<nat>>, now: int, root: real -> real)
    requires IsSqrt(root) && Distinct(keys)
    ensures DetectAll(keys, counts, baselines, now, root).sent == Fired(keys, counts, baselines, now, root)
  {
    if keys != [] {
      var front, last := keys[..|keys| - 1], keys[|keys| - 1];
      assert last !in front;
      assert Distinct(front) by {
        forall i, j | 0 <= i < j < |front| ensures front[i] != front[j] {
          assert front[i] == keys[i] && front[j] == keys[j];
        }
      }
      DetectAllUntouched(front, counts, baselines, now, root, last);
      DetectAllSent(front, counts, baselines, now, root);
    }
  }

  // ---------------------------------------------------------------------
  // Counting events

  /** `short_counts`: its key order and its counters. */
  datatype Counter = Counter(keys: seq<ProductId>, counts: map<ProductId, nat>)

  ghost predicate CounterValid(c: Counter)
  {
    Distinct(c.keys) && forall p :: p in c.counts <==> p in c.keys
  }

  /** `short_counts[pid] += 1`. */
  function Bump(c: Counter, p: ProductId): Counter
  {
    if p in c.counts then Counter(c.keys, c.counts[p := c.counts[p] + 1])
    else Counter(c.keys + [p], c.counts[p := 1])
  }

  /** The counter after the events `events`, records without a product skipped. */
  function Ingest(c: Counter, events: seq<RawEvent>): Counter
  {
    if events == [] then c
    else
      var prev := Ingest(c, events[..|events| - 1]);
      var key := EventKey(events[|events| - 1]);
      if key.Some? then Bump(prev, key.value) else prev
  }

  /** The events counted against `p`. */
  function Occurrences(events: seq<RawEvent>, p: ProductId): nat
  {
    if events == [] then 0
    else Occurrences(events[..|events| - 1], p) + (if EventKey(events[|events| - 1]) == Some(p) then 1 else 0)
  }

  /** Each product's count grows by exactly its number of events, a product
      is known exactly when it was known before or had an event, and the key
      order only grows at its end. */
  lemma {:induction false} IngestCounts(c: Counter, events: seq<RawEvent>)
    requires CounterValid(c)
    ensures CounterValid(Ingest(c, events))
    ensures c.keys <= Ingest(c, events).keys
    ensures forall p :: CountOf(Ingest(c, events).counts, p) == CountOf(c.counts, p) + Occurrences(events, p)
    ensures forall p :: p in Ingest(c, events).counts <==> p in c.counts || Occurrences(events, p) > 0
  {
    if events != [] {
      IngestCounts(c, events[..|events| - 1]);
    }
  }

  // ---------------------------------------------------------------------
  // The detector's state

  class Detector {
    var keys: seq<ProductId>
    var counts: map<ProductId, nat>
    var baselines: map<ProductId, seq<nat>>

    ghost predicate Valid()
      reads this
    {
      && CounterValid(Counter(keys, counts))
      && (forall p :: p in baselines ==> p in counts)
      && (forall p :: p in baselines ==> |baselines[p]| <= BASELINE_CAP)
    }

    constructor ()
      ensures Valid() && keys == [] && counts == map[] && baselines == map[]
    {
      keys := [];
      counts := map[];
      baselines := map[];
    }

    /** The agent `process`: count every event that names a product. */
    method Process(stream: seq<RawEvent>)
      requires Valid()
      modifies this
      ensures Valid()
      ensures Counter(keys, counts) == Ingest(Counter(old(keys), old(counts)), stream)
      ensures baselines == old(baselines)
    {
      var i := 0;
      while i < |stream|
        invariant 0 <= i <= |stream|
        invariant Valid()
        invariant Counter(keys, counts) == Ingest(Counter(old(keys), old(counts)), stream[..i])
        invariant baselines == old(baselines)
      {
        var key := EventKey(stream[i]);
        if key.Some? {
          var p := key.value;
          if p !in counts {
            keys := keys + [p];
          }
          counts := counts[p := CountOf(counts, p) + 1];
        }
        assert stream[..i + 1][..i] == stream[..i];
        i := i + 1;
      }
      assert stream[..i] == stream;
    }

    /** The timer `detect`: one pass over a snapshot of the keys.  The
        returned alerts are those published, in order. */
    method Detect(now: int, root: real -> real) returns (sent: seq<StreamAlert>)
      requires Valid() && IsSqrt(root)
      modifies this
      ensures Valid() && keys == old(keys)
      ensures Round(counts, baselines, sent) == DetectAll(old(keys), old(counts), old(baselines), now, root)
    {
      var snapshot := keys;
      ghost var counts0, baselines0 := counts, baselines;
      sent := [];
      var i := 0;
      while i < |snapshot|
        invariant 0 <= i <= |snapshot|
        invariant keys == snapshot
        invariant Valid()
        invariant Round(counts, baselines, sent) == DetectAll(snapshot[..i], counts0, baselines0, now, root)
      {
        DetectAllStep(snapshot, i, counts0, baselines0, now, root);
        sent := VisitKey(snapshot[i], sent, now, root);
        i := i + 1;
      }
      assert snapshot[..i] == snapshot;
    }

    /** The body of the step's loop for product `p`: append the current count
        to the baseline list (dropping the oldest sample past the cap), judge
        it against the earlier samples and, on an alert, publish it and reset
        the counter. */
    method VisitKey(p: ProductId, sent0: seq<StreamAlert>, now: int, root: real -> real) returns (sent: seq<StreamAlert>)
      requires Valid() && IsSqrt(root) && p in counts
      modifies this
      ensures Valid() && keys == old(keys)
      ensures Round(counts, baselines, sent) == Visit(Round(old(counts), old(baselines), sent0), p, now, root)
    {
      sent := sent0;
      var curr := counts[p];
      var bl := BaselineOf(baselines, p);
      AppendSampleShape(bl, curr);
      bl := bl + [curr];
      if |bl| > BASELINE_CAP {
        bl := bl[1..];
      }
      baselines := baselines[p := bl];
      var hist := if |bl| > 1 then bl[..|bl| - 1] else [];
      var alert := Assess(p, curr, hist, now, root);
      if alert.Some? {
        sent := sent + [alert.value];
        counts := counts[p := 0];
      }
    }
  }
}
