/** The backend service's local fallback detector (backend/main.py): a bounded
    history of event timestamps per product, the multi-window rate-spike rule
    `detect_anomaly`, and the two listing endpoints built on it. */
module Backend {
  import opened Common

  /** `deque(maxlen=100)`: the most timestamps kept per product. */
  const HISTORY_CAP: nat := 100
  /** Below this many timestamps no analysis is attempted. */
  const MIN_HISTORY: nat := 20
  /** The four look-back windows, in seconds. */
  const RECENT_30S: int := 30
  const RECENT_1M: int := 60
  const BASELINE_2M: int := 120
  const BASELINE_5M: int := 300
  /** Activity guards and the absolute trigger threshold. */
  const MIN_BASELINE: nat := 3
  const MIN_RECENT: nat := 10
  const ABSOLUTE_THRESHOLD: nat := 15
  /** Events appended by one call of the spike simulation endpoint. */
  const SPIKE_SIZE: nat := 15

  // ---------------------------------------------------------------------
  // The bounded history

  /** The last `k` elements of `s` (all of `s` when it is shorter). */
  function Newest<T>(s: seq<T>, k: nat): (r: seq<T>)
  {
    if |s| <= k then s else s[|s| - k..]
  }

  /** `deque.append` on a full deque drops the oldest entry first. */
  function Push(history: seq<int>, t: int): (r: seq<int>)
    requires |history| <= HISTORY_CAP
    ensures |r| <= HISTORY_CAP
  {
    if |history| == HISTORY_CAP then history[1..] + [t] else history + [t]
  }

  /** Appending the timestamps `ts` one after the other. */
  function PushAll(history: seq<int>, ts: seq<int>): (r: seq<int>)
    requires |history| <= HISTORY_CAP
    ensures |r| <= HISTORY_CAP
  {
    if ts == [] then history else Push(PushAll(history, ts[..|ts| - 1]), ts[|ts| - 1])
  }

  /** `n` copies of the timestamp `t`. */
  function Repeat(t: int, n: nat): (r: seq<int>)
  {
    seq(n, _ => t)
  }

  /** One append keeps exactly the newest `HISTORY_CAP` timestamps. */
  lemma PushKeepsNewest(history: seq<int>, t: int)
    requires |history| <= HISTORY_CAP
    ensures Push(history, t) == Newest(history + [t], HISTORY_CAP)
  {
    if |history| == HISTORY_CAP {
      assert (history + [t])[1..] == history[1..] + [t];
    }
  }

  lemma NewestSnoc<T>(s: seq<T>, t: T, k: nat)
    requires 1 <= k
    ensures |Newest(s, k)| <= k
    ensures Newest(Newest(s, k) + [t], k) == Newest(s + [t], k)
  {
    if |s| > k {
      var w := s[|s| - k..];
      assert (w + [t])[1..] == s[|s| - k + 1..] + [t];
      assert (s + [t])[|s| + 1 - k..] == s[|s| - k + 1..] + [t];
    }
  }

  /** Any run of appends keeps exactly the newest `HISTORY_CAP` timestamps,
      the oldest being dropped first. */
  lemma {:induction false} PushAllKeepsNewest(history: seq<int>, ts: seq<int>)
    requires |history| <= HISTORY_CAP
    ensures PushAll(history, ts) == Newest(history + ts, HISTORY_CAP)
  {
    if ts == [] {
      assert history + ts == history;
    } else {
      var front, t := ts[..|ts| - 1], ts[|ts| - 1];
      PushAllKeepsNewest(history, front);
      PushKeepsNewest(PushAll(history, front), t);
      NewestSnoc(history + front, t, HISTORY_CAP);
      assert history + front + [t] == history + ts;
    }
  }

  // ---------------------------------------------------------------------
  // Window counts

  /** Timestamps at most `seconds` before `now` (`diff <= seconds`). */
  function CountWithin(history: seq<int>, now: int, seconds: int): (n: nat)
    ensures n <= |history|
  {
    if history == [] then 0
    else (if now - history[0] <= seconds then 1 else 0) + CountWithin(history[1..], now, seconds)
  }

  /** A wider window holds every timestamp a narrower one holds. */
  lemma {:induction false} CountWithinMonotone(history: seq<int>, now: int, narrow: int, wide: int)
    requires narrow <= wide
    ensures CountWithin(history, now, narrow) <= CountWithin(history, now, wide)
  {
    if history != [] {
      CountWithinMonotone(history[1..], now, narrow, wide);
    }
  }

  lemma {:induction false} CountWithinAppend(a: seq<int>, b: seq<int>, now: int, seconds: int)
    ensures CountWithin(a + b, now, seconds) == CountWithin(a, now, seconds) + CountWithin(b, now, seconds)
  {
    if a == [] {
      assert a + b == b;
    } else {
      assert (a + b)[1..] == a[1..] + b;
      CountWithinAppend(a[1..], b, now, seconds);
    }
  }

  lemma {:induction false} CountWithinRepeat(t: int, n: nat, seconds: int)
    requires 0 <= seconds
    ensures CountWithin(Repeat(t, n), t, seconds) == n
  {
    if n > 0 {
      assert Repeat(t, n)[1..] == Repeat(t, n - 1);
      CountWithinRepeat(t, n - 1, seconds);
    }
  }

  datatype WindowCounts = WindowCounts(recent30s: nat, recent1m: nat, baseline2m: nat, baseline5m: nat)

  function Windows(history: seq<int>, now: int): WindowCounts
  {
    WindowCounts(CountWithin(history, now, RECENT_30S), CountWithin(history, now, RECENT_1M),
                 CountWithin(history, now, BASELINE_2M), CountWithin(history, now, BASELINE_5M))
  }

  /** The four windows are nested, so their counts are ordered. */
  lemma WindowsNested(history: seq<int>, now: int)
    ensures var c := Windows(history, now);
      c.recent30s <= c.recent1m <= c.baseline2m <= c.baseline5m <= |history|
  {
    CountWithinMonotone(history, now, RECENT_30S, RECENT_1M);
    CountWithinMonotone(history, now, RECENT_1M, BASELINE_2M);
    CountWithinMonotone(history, now, BASELINE_2M, BASELINE_5M);
  }

  // ---------------------------------------------------------------------
  // detect_anomaly

  datatype Trigger = RatioTrigger | VelocityTrigger | AbsoluteTrigger

  datatype Alert = Alert(
    productId: ProductId,
    currentCount: nat,
    zScore: real,
    mean: real,
    ratio: real,
    velocity1m: nat,
    velocity5m: real,
    confidence: real,
    detectedAt: int,
    triggerType: Trigger)

  /** `min(100, max(0, z * 15 + 50))`. */
  function Confidence(z: real): (c: real)
    ensures 0.0 <= c <= 100.0
    ensures 0.0 <= z * 15.0 + 50.0 <= 100.0 ==> c == z * 15.0 + 50.0
    ensures z * 15.0 + 50.0 < 0.0 ==> c == 0.0
    ensures z * 15.0 + 50.0 > 100.0 ==> c == 100.0
  {
    var raw := z * 15.0 + 50.0;
    if raw < 0.0 then 0.0 else if raw > 100.0 then 100.0 else raw
  }

  /** A confidence of 0 for an alert whose z-score is far below its
      baseline: the counts (15, 15, 100, 100) pass both guards, fire the
      absolute trigger and give `15 z + 50 = -77.5`. */
  lemma ConfidenceClampsLow(root: real -> real)
    requires IsSqrt(root)
    ensures var r := Evaluate("p", WindowCounts(15, 15, 100, 100), 0, root);
      r.Some? && r.value.zScore == -8.5 && r.value.confidence == 0.0
  {
    var spread := root(100.0);
    RootUnique(spread, 10.0);
  }

  /** Non-negative reals with equal squares are equal. */
  lemma RootUnique(s: real, r: real)
    requires 0.0 <= s && 0.0 <= r && s * s == r * r
    ensures s == r
  {
    assert (s - r) * (s + r) == 0.0;
    if s + r != 0.0 {
      assert s - r == 0.0;
    }
  }

  /** The rule applied to a product's history at time `now`; `root` is the
      square root used for the z-score's denominator. */
  function DetectAnomaly(productId: ProductId, history: seq<int>, now: int, root: real -> real): Option<Alert>
    requires IsSqrt(root)
  {
    if |history| < MIN_HISTORY then None
    else Evaluate(productId, Windows(history, now), now, root)
  }

  /** The part of the rule after the history-length guard. */
  function Evaluate(productId: ProductId, c: WindowCounts, now: int, root: real -> real): Option<Alert>
    requires IsSqrt(root)
  {
    var recent, baseline := c.recent30s, c.baseline2m;
    if baseline >= MIN_BASELINE && recent >= MIN_RECENT then
      // baseline > 0 here, so the `float('inf')` branch is never taken
      var ratio := recent as real / baseline as real;
      var spread := root(if baseline > 1 then baseline as real else 1.0);
      assert spread * spread >= 1.0;
      var z := (recent - baseline) as real / spread;
      var velocity1m := c.recent1m;
      var velocity5m := c.baseline5m as real / 5.0;
      var ratioTrigger := ratio >= 2.5;
      var velocityTrigger := velocity1m as real >= velocity5m * 3.0;
      var absoluteTrigger := recent >= ABSOLUTE_THRESHOLD;
      if ratioTrigger || velocityTrigger || absoluteTrigger then
        Some(Alert(productId, recent, z, baseline as real, ratio, velocity1m, velocity5m,
                   Confidence(z), now,
                   if ratioTrigger then RatioTrigger
                   else if velocityTrigger then VelocityTrigger
                   else AbsoluteTrigger))
      else None
    else None
  }

  /** Fewer than `MIN_HISTORY` timestamps: never an alert. */
  lemma ShortHistoryNoAlert(productId: ProductId, history: seq<int>, now: int, root: real -> real)
    requires IsSqrt(root) && |history| < MIN_HISTORY
    ensures DetectAnomaly(productId, history, now, root) == None
  {
  }

  lemma DivNonPositive(a: real, b: real)
    requires a <= 0.0 && b > 0.0
    ensures a / b <= 0.0
  {
    assert a / b * b == a;
  }

  lemma DivAtMostOne(a: real, b: real)
    requires 0.0 <= a <= b && b > 0.0
    ensures a / b <= 1.0
  {
    assert a / b * b == a;
  }

  /** The decision in integers: an alert is raised exactly when the history
      is long enough, both activity guards hold and the velocity
      (5 * count_1m >= 3 * count_5m) or the absolute trigger holds; the ratio
      trigger adds nothing because the 30 s window lies inside the 2 min one. */
  lemma DetectAnomalyDecision(productId: ProductId, history: seq<int>, now: int, root: real -> real)
    requires IsSqrt(root)
    ensures var c := Windows(history, now);
      DetectAnomaly(productId, history, now, root).Some? <==>
        && |history| >= MIN_HISTORY
        && c.baseline2m >= MIN_BASELINE
        && c.recent30s >= MIN_RECENT
        && (5 * c.recent1m >= 3 * c.baseline5m || c.recent30s >= ABSOLUTE_THRESHOLD)
  {
    var c := Windows(history, now);
    WindowsNested(history, now);
    if c.baseline2m >= MIN_BASELINE {
      DivAtMostOne(c.recent30s as real, c.baseline2m as real);
    }
  }

  /** The fields of a raised alert, and which trigger it names: velocity when
      that holds, else absolute (the ratio trigger never holds). */
  lemma AlertFields(productId: ProductId, history: seq<int>, now: int, root: real -> real)
    requires IsSqrt(root)
    ensures var r := DetectAnomaly(productId, history, now, root);
      var c := Windows(history, now);
      r.Some? ==>
        && r.value.productId == productId
        && r.value.currentCount == c.recent30s
        && r.value.mean == c.baseline2m as real
        && r.value.velocity1m == c.recent1m
        && r.value.velocity5m * 5.0 == c.baseline5m as real
        && r.value.detectedAt == now
        && r.value.triggerType == (if 5 * c.recent1m >= 3 * c.baseline5m then VelocityTrigger else AbsoluteTrigger)
        && r.value.ratio * c.baseline2m as real == c.recent30s as real
        && r.value.zScore * root(c.baseline2m as real) == (c.recent30s - c.baseline2m) as real
  {
    var c := Windows(history, now);
    WindowsNested(history, now);
    if |history| >= MIN_HISTORY {
      EvaluateFields(productId, c, now, root);
      EvaluateStatistics(productId, c, now, root);
    }
  }

  /** The counts and the trigger type of a raised alert, given recent <= baseline. */
  lemma EvaluateFields(productId: ProductId, c: WindowCounts, now: int, root: real -> real)
    requires IsSqrt(root) && c.recent30s <= c.baseline2m
    ensures var r := Evaluate(productId, c, now, root);
      r.Some? ==>
        && r.value.productId == productId
        && r.value.currentCount == c.recent30s
        && r.value.mean == c.baseline2m as real
        && r.value.velocity1m == c.recent1m
        && r.value.velocity5m * 5.0 == c.baseline5m as real
        && r.value.detectedAt == now
        && r.value.triggerType == (if 5 * c.recent1m >= 3 * c.baseline5m then VelocityTrigger else AbsoluteTrigger)
  {
    if c.baseline2m >= MIN_BASELINE {
      DivAtMostOne(c.recent30s as real, c.baseline2m as real);
    }
  }

  /** The ratio and the z-score of a raised alert: the guard makes the
      baseline count at least 3, so `max(1, baseline)` is the count itself. */
  lemma EvaluateStatistics(productId: ProductId, c: WindowCounts, now: int, root: real -> real)
    requires IsSqrt(root)
    ensures var r := Evaluate(productId, c, now, root);
      r.Some? ==>
        && r.value.ratio * c.baseline2m as real == c.recent30s as real
        && r.value.zScore * root(c.baseline2m as real) == (c.recent30s - c.baseline2m) as real
  {
    if c.baseline2m >= MIN_BASELINE && c.recent30s >= MIN_RECENT {
      var spread := root(c.baseline2m as real);
      assert spread * spread == c.baseline2m as real;
      assert spread != 0.0;
    }
  }

  /** Because recent <= baseline, a raised alert has ratio at most 1, a
      z-score that is never positive, and a confidence in [0, 50]. */
  lemma ZScoreNonPositive(productId: ProductId, history: seq<int>, now: int, root: real -> real)
    requires IsSqrt(root)
    ensures var r := DetectAnomaly(productId, history, now, root);
      r.Some? ==>
        && r.value.ratio <= 1.0
        && r.value.zScore <= 0.0
        && r.value.confidence == Confidence(r.value.zScore)
        && 0.0 <= r.value.confidence <= 50.0
  {
    var c := Windows(history, now);
    WindowsNested(history, now);
    if |history| >= MIN_HISTORY {
      EvaluateNonPositive(productId, c, now, root);
    }
  }

  lemma EvaluateNonPositive(productId: ProductId, c: WindowCounts, now: int, root: real -> real)
    requires IsSqrt(root) && c.recent30s <= c.baseline2m
    ensures var r := Evaluate(productId, c, now, root);
      r.Some? ==>
        && r.value.ratio <= 1.0
        && r.value.zScore <= 0.0
        && r.value.confidence == Confidence(r.value.zScore)
        && 0.0 <= r.value.confidence <= 50.0
  {
    var recent, baseline := c.recent30s, c.baseline2m;
    if baseline >= MIN_BASELINE && recent >= MIN_RECENT {
      DivAtMostOne(recent as real, baseline as real);
      var spread := root(if baseline > 1 then baseline as real else 1.0);
      assert spread * spread >= 1.0;
      DivNonPositive((recent - baseline) as real, spread);
      var z := (recent - baseline) as real / spread;
      assert z * 15.0 + 50.0 <= 50.0;
    }
  }

  // ---------------------------------------------------------------------
  // The listing endpoints

  datatype Trend = Up | Down

  /** An entry of `GET /alerts`. */
  datatype AlertRow = AlertRow(product: ProductId, trend: Trend, views: int)

  /** An entry of `GET /alerts/trending`. */
  datatype TrendingRow = TrendingRow(product: ProductId, trend: Trend, views: int, zScore: real, mean: real)

  /** The demo entries returned when nothing is flagged. */
  const MOCK_ALERTS: seq<AlertRow> :=
    [AlertRow("Limited Edition Sneakers", Up, 132), AlertRow("Wireless Headphones", Down, 59)]
  const MOCK_TRENDING: seq<TrendingRow> :=
    [TrendingRow("Limited Edition Sneakers", Up, 132, 4.5, 40.0)]

  /** `product_activity[p]` of the defaultdict. */
  function HistoryOf(activity: map<ProductId, seq<int>>, p: ProductId): seq<int>
  {
    if p in activity then activity[p] else []
  }

  ghost predicate Flagged(p: ProductId, activity: map<ProductId, seq<int>>, now: int, root: real -> real)
    requires IsSqrt(root)
  {
    DetectAnomaly(p, HistoryOf(activity, p), now, root).Some?
  }

  /** The real entries of `GET /alerts`, in key order. */
  function FlaggedRows(products: seq<ProductId>, activity: map<ProductId, seq<int>>, now: int, root: real -> real): seq<AlertRow>
    requires IsSqrt(root)
  {
    if products == [] then []
    else
      var p := products[|products| - 1];
      var rest := FlaggedRows(products[..|products| - 1], activity, now, root);
      var a := DetectAnomaly(p, HistoryOf(activity, p), now, root);
      if a.Some? then rest + [AlertRow(p, Up, a.value.currentCount)] else rest
  }

  function AlertsResponse(products: seq<ProductId>, activity: map<ProductId, seq<int>>, now: int, root: real -> real): seq<AlertRow>
    requires IsSqrt(root)
  {
    var rows := FlaggedRows(products, activity, now, root);
    if rows == [] then MOCK_ALERTS else rows
  }

  /** `rows` lists exactly the flagged products of `products`, trending up
      with the alert's current count, in the order of `products`. */
  ghost predicate ListsFlagged(rows: seq<AlertRow>, products: seq<ProductId>, activity: map<ProductId, seq<int>>, now: int, root: real -> real)
    requires IsSqrt(root)
  {
    CoversFlagged(rows, products, activity, now, root) && InKeyOrder(rows, products)
  }

  /** Every row is an up-trending row of a flagged product of `products`
      with its alert's current count, and every flagged product has a row. */
  ghost predicate CoversFlagged(rows: seq<AlertRow>, products: seq<ProductId>, activity: map<ProductId, seq<int>>, now: int, root: real -> real)
    requires IsSqrt(root)
  {
    && (forall k :: 0 <= k < |rows| ==>
          && rows[k].product in products
          && rows[k].trend == Up
          && Flagged(rows[k].product, activity, now, root)
          && rows[k].views == DetectAnomaly(rows[k].product, HistoryOf(activity, rows[k].product), now, root).value.currentCount)
    && (forall p :: p in products && Flagged(p, activity, now, root) ==>
          exists k :: 0 <= k < |rows| && rows[k].product == p)
  }

  /** The rows' products occur in `products` in the same order as the rows. */
  ghost predicate InKeyOrder(rows: seq<AlertRow>, products: seq<ProductId>) {
    forall k, l :: 0 <= k < l < |rows| ==> Precedes(rows[k].product, rows[l].product, products)
  }

  /** `x` occurs in `products` at an earlier position than `y`. */
  ghost predicate Precedes(x: ProductId, y: ProductId, products: seq<ProductId>) {
    exists i, j :: 0 <= i < j < |products| && products[i] == x && products[j] == y
  }

  /** `GET /alerts` yields one up-trending entry per flagged product, in the
      order of the keys; entries for distinct keys never repeat a product. */
  lemma {:induction false} FlaggedRowsExact(products: seq<ProductId>, activity: map<ProductId, seq<int>>, now: int, root: real -> real)
    requires IsSqrt(root)
    ensures ListsFlagged(FlaggedRows(products, activity, now, root), products, activity, now, root)
    ensures var rows := FlaggedRows(products, activity, now, root);
      Distinct(products) ==>
        forall k, l :: 0 <= k < l < |rows| ==> rows[k].product != rows[l].product
  {
    FlaggedRowsListed(products, activity, now, root);
    FlaggedRowsOrdered(products, activity, now, root);
    var rows := FlaggedRows(products, activity, now, root);
    if Distinct(products) {
      forall k, l | 0 <= k < l < |rows|
        ensures rows[k].product != rows[l].product
      {
        assert Precedes(rows[k].product, rows[l].product, products);
        var i, j :| 0 <= i < j < |products| && products[i] == rows[k].product && products[j] == rows[l].product;
      }
    }
  }

  /** Every row comes from an earlier key than every later row. */
  lemma {:induction false} FlaggedRowsOrdered(products: seq<ProductId>, activity: map<ProductId, seq<int>>, now: int, root: real -> real)
    requires IsSqrt(root)
    ensures InKeyOrder(FlaggedRows(products, activity, now, root), products)
  {
    if products != [] {
      var front := products[..|products| - 1];
      var p := products[|products| - 1];
      assert products == front + [p];
      FlaggedRowsOrdered(front, activity, now, root);
      FlaggedRowsListed(front, activity, now, root);
      var rest := FlaggedRows(front, activity, now, root);
      var a := DetectAnomaly(p, HistoryOf(activity, p), now, root);
      if a.Some? {
        InKeyOrderSnoc(rest, front, AlertRow(p, Up, a.value.currentCount));
      } else {
        InKeyOrderExtend(rest, front, p);
      }
    }
  }

  /** Appending a key keeps the order of rows drawn from the earlier keys. */
  lemma InKeyOrderExtend(rows: seq<AlertRow>, products: seq<ProductId>, p: ProductId)
    requires InKeyOrder(rows, products)
    ensures InKeyOrder(rows, products + [p])
  {
    var ext := products + [p];
    forall k, l | 0 <= k < l < |rows|
      ensures Precedes(rows[k].product, rows[l].product, ext)
    {
      assert Precedes(rows[k].product, rows[l].product, products);
      var i, j :| 0 <= i < j < |products| && products[i] == rows[k].product && products[j] == rows[l].product;
      assert ext[i] == products[i] && ext[j] == products[j];
    }
    assert InKeyOrder(rows, ext);
  }

  /** A row for a new last key goes after all rows drawn from the earlier keys. */
  lemma InKeyOrderSnoc(rows: seq<AlertRow>, products: seq<ProductId>, row: AlertRow)
    requires InKeyOrder(rows, products)
    requires forall k :: 0 <= k < |rows| ==> rows[k].product in products
    ensures InKeyOrder(rows + [row], products + [row.product])
  {
    var ext := products + [row.product];
    var rs := rows + [row];
    forall k, l | 0 <= k < l < |rs|
      ensures Precedes(rs[k].product, rs[l].product, ext)
    {
      assert rs[k] == rows[k];
      if l < |rows| {
        assert rs[l] == rows[l];
        assert Precedes(rows[k].product, rows[l].product, products);
        var i, j :| 0 <= i < j < |products| && products[i] == rows[k].product && products[j] == rows[l].product;
        assert ext[i] == products[i] && ext[j] == products[j];
      } else {
        var i :| 0 <= i < |products| && products[i] == rows[k].product;
        assert ext[i] == products[i] && ext[|ext| - 1] == rs[l].product;
      }
    }
    assert InKeyOrder(rs, ext);
  }

  /** Every row is a flagged key's row, and every flagged key has a row. */
  lemma {:induction false} FlaggedRowsListed(products: seq<ProductId>, activity: map<ProductId, seq<int>>, now: int, root: real -> real)
    requires IsSqrt(root)
    ensures CoversFlagged(FlaggedRows(products, activity, now, root), products, activity, now, root)
  {
    if products != [] {
      var front := products[..|products| - 1];
      FlaggedRowsListed(front, activity, now, root);
      var rest := FlaggedRows(front, activity, now, root);
      var rows := FlaggedRows(products, activity, now, root);
      assert forall q :: q in front ==> q in products;
      assert forall q :: q in products ==> q in front || q == products[|products| - 1];
      assert forall k :: 0 <= k < |rest| ==> rows[k] == rest[k];
      forall p | p in products && Flagged(p, activity, now, root)
        ensures exists k :: 0 <= k < |rows| && rows[k].product == p
      {
        if p in front {
          var k :| 0 <= k < |rest| && rest[k].product == p;
          assert rows[k] == rest[k];
        } else {
          assert rows[|rows| - 1].product == p;
        }
      }
    }
  }

  /** The two demo entries come back exactly when no product is flagged. */
  lemma AlertsResponseMockIff(products: seq<ProductId>, activity: map<ProductId, seq<int>>, now: int, root: real -> real)
    requires IsSqrt(root)
    ensures AlertsResponse(products, activity, now, root) == MOCK_ALERTS <==>
      forall p :: p in products ==> !Flagged(p, activity, now, root)
  {
    FlaggedRowsExact(products, activity, now, root);
    var rows := FlaggedRows(products, activity, now, root);
    if rows != [] {
      assert rows[0].product in products && Flagged(rows[0].product, activity, now, root);
      assert rows != MOCK_ALERTS by {
        if |rows| == 2 {
          assert rows[1].trend == Up != MOCK_ALERTS[1].trend;
        }
      }
    }
  }

  /** The real entries of `GET /alerts/trending`: flagged products whose
      z-score exceeds 3. */
  function TrendingRows(products: seq<ProductId>, activity: map<ProductId, seq<int>>, now: int, root: real -> real): seq<TrendingRow>
    requires IsSqrt(root)
  {
    if products == [] then []
    else
      var p := products[|products| - 1];
      var rest := TrendingRows(products[..|products| - 1], activity, now, root);
      var a := DetectAnomaly(p, HistoryOf(activity, p), now, root);
      if a.Some? && a.value.zScore > 3.0 then
        rest + [TrendingRow(p, Up, a.value.currentCount, a.value.zScore, a.value.mean)]
      else rest
  }

  function TrendingResponse(products: seq<ProductId>, activity: map<ProductId, seq<int>>, now: int, root: real -> real): seq<TrendingRow>
    requires IsSqrt(root)
  {
    var rows := TrendingRows(products, activity, now, root);
    if rows == [] then MOCK_TRENDING else rows
  }

  /** No product ever passes the z > 3 filter. */
  lemma {:induction false} NoTrendingRows(products: seq<ProductId>, activity: map<ProductId, seq<int>>, now: int, root: real -> real)
    requires IsSqrt(root)
    ensures TrendingRows(products, activity, now, root) == []
  {
    if products != [] {
      var p := products[|products| - 1];
      NoTrendingRows(products[..|products| - 1], activity, now, root);
      ZScoreNonPositive(p, HistoryOf(activity, p), now, root);
    }
  }

  /** Hence `GET /alerts/trending` always answers with its demo entry. */
  lemma TrendingAlwaysMock(products: seq<ProductId>, activity: map<ProductId, seq<int>>, now: int, root: real -> real)
    requires IsSqrt(root)
    ensures TrendingResponse(products, activity, now, root) == MOCK_TRENDING
  {
    NoTrendingRows(products, activity, now, root);
  }

  /** With at least 5 earlier timestamps, a spike of 15 simultaneous events
      always raises an alert; with fewer the history is too short. */
  lemma SpikeAlerts(productId: ProductId, history: seq<int>, now: int, root: real -> real)
    requires IsSqrt(root) && |history| <= HISTORY_CAP
    ensures DetectAnomaly(productId, PushAll(history, Repeat(now, SPIKE_SIZE)), now, root).Some? <==>
      |history| + SPIKE_SIZE >= MIN_HISTORY
  {
    var after := PushAll(history, Repeat(now, SPIKE_SIZE));
    SpikeShape(history, now);
    WindowsNested(after, now);
    DetectAnomalyDecision(productId, after, now, root);
  }

  /** After the spike the deque holds the 15 new timestamps at its end, all
      inside the 30 s window. */
  lemma SpikeShape(history: seq<int>, now: int)
    requires |history| <= HISTORY_CAP
    ensures var after := PushAll(history, Repeat(now, SPIKE_SIZE));
      && |after| == (if |history| + SPIKE_SIZE <= HISTORY_CAP then |history| + SPIKE_SIZE else HISTORY_CAP)
      && CountWithin(after, now, RECENT_30S) >= SPIKE_SIZE
  {
    var spike := Repeat(now, SPIKE_SIZE);
    var after := PushAll(history, spike);
    PushAllKeepsNewest(history, spike);
    var whole := history + spike;
    var pre: seq<int>;
    if |whole| <= HISTORY_CAP {
      pre := history;
    } else {
      pre := whole[|whole| - HISTORY_CAP..|history|];
    }
    assert after == pre + spike;
    CountWithinAppend(pre, spike, now, RECENT_30S);
    CountWithinRepeat(now, SPIKE_SIZE, RECENT_30S);
  }

  // ---------------------------------------------------------------------
  // The per-product activity store and the request handlers

  /** `product_activity`: the key order of the dict and its deques. */
  class ActivityLog {
    var products: seq<ProductId>
    var activity: map<ProductId, seq<int>>

    ghost predicate Valid()
      reads this
    {
      && Distinct(products)
      && (forall p :: p in activity <==> p in products)
      && (forall p :: p in activity ==> |activity[p]| <= HISTORY_CAP)
    }

    constructor ()
      ensures Valid() && products == [] && activity == map[]
    {
      products := [];
      activity := map[];
    }

    function History(p: ProductId): (h: seq<int>)
      reads this
      requires Valid()
      ensures |h| <= HISTORY_CAP
    {
      HistoryOf(activity, p)
    }

    /** `product_activity[p].append(t)`: only `p`'s deque changes. */
    method Record(p: ProductId, t: int)
      requires Valid()
      modifies this
      ensures Valid()
      ensures activity == old(activity)[p := Push(old(History(p)), t)]
      ensures products == if p in old(activity) then old(products) else old(products) + [p]
    {
      if p !in activity {
        products := products + [p];
      }
      activity := activity[p := Push(HistoryOf(activity, p), t)];
    }

    /** One event from the broker consumer or the `/track` endpoint: a
        record that did not decode or has no product is skipped; otherwise the
        current time is appended and the rule is evaluated.  The returned alert
        is what gets broadcast. */
    method OnEvent(ev: RawEvent, now: int, root: real -> real) returns (alert: Option<Alert>)
      requires Valid() && IsSqrt(root)
      modifies this
      ensures Valid()
      ensures EventKey(ev).None? ==>
        activity == old(activity) && products == old(products) && alert == None
      ensures EventKey(ev).Some? ==>
        var p := EventKey(ev).value;
        && activity == old(activity)[p := Push(old(History(p)), now)]
        && products == (if p in old(activity) then old(products) else old(products) + [p])
        && alert == DetectAnomaly(p, activity[p], now, root)
    {
      alert := None;
      var key := EventKey(ev);
      if key.Some? {
        var p := key.value;
        Record(p, now);
        alert := DetectAnomaly(p, activity[p], now, root);
      }
    }

    /** `POST /simulate/spike/{p}`: append `now` fifteen times, then evaluate. */
    method SimulateSpike(p: ProductId, now: int, root: real -> real) returns (alert: Option<Alert>)
      requires Valid() && IsSqrt(root)
      modifies this
      ensures Valid()
      ensures activity == old(activity)[p := PushAll(old(History(p)), Repeat(now, SPIKE_SIZE))]
      ensures products == if p in old(activity) then old(products) else old(products) + [p]
      ensures alert == DetectAnomaly(p, activity[p], now, root)
      ensures alert.Some? <==> |old(History(p))| + SPIKE_SIZE >= MIN_HISTORY
    {
      ghost var start := History(p);
      ghost var activity0, products0 := activity, products;
      var i := 0;
      while i < SPIKE_SIZE
        invariant 0 <= i <= SPIKE_SIZE
        invariant Valid()
        invariant i == 0 ==> activity == activity0 && products == products0
        invariant i > 0 ==> activity == activity0[p := PushAll(start, Repeat(now, i))]
        invariant i > 0 ==> products == if p in activity0 then products0 else products0 + [p]
      {
        assert Repeat(now, i + 1)[..i] == Repeat(now, i);
        Record(p, now);
        i := i + 1;
      }
      alert := DetectAnomaly(p, activity[p], now, root);
      SpikeAlerts(p, start, now, root);
    }

    /** `GET /alerts`. */
    method GetAlerts(now: int, root: real -> real) returns (rows: seq<AlertRow>)
      requires Valid() && IsSqrt(root)
      ensures rows == AlertsResponse(products, activity, now, root)
    {
      var keys := products;
      var alerts: seq<AlertRow> := [];
      var i := 0;
      while i < |keys|
        invariant 0 <= i <= |keys|
        invariant alerts == FlaggedRows(keys[..i], activity, now, root)
      {
        var p := keys[i];
        var a := DetectAnomaly(p, activity[p], now, root);
        if a.Some? {
          alerts := alerts + [AlertRow(p, Up, a.value.currentCount)];
        }
        assert keys[..i + 1][..i] == keys[..i];
        i := i + 1;
      }
      assert keys[..i] == keys;
      rows := if alerts == [] then MOCK_ALERTS else alerts;
    }

    /** `GET /alerts/trending`; it can only ever return its demo entry. */
    method GetTrendingAlerts(now: int, root: real -> real) returns (rows: seq<TrendingRow>)
      requires Valid() && IsSqrt(root)
      ensures rows == TrendingResponse(products, activity, now, root)
      ensures rows == MOCK_TRENDING
    {
      var keys := products;
      var trending: seq<TrendingRow> := [];
      var i := 0;
      while i < |keys|
        invariant 0 <= i <= |keys|
        invariant trending == TrendingRows(keys[..i], activity, now, root)
      {
        var p := keys[i];
        var a := DetectAnomaly(p, activity[p], now, root);
        if a.Some? && a.value.zScore > 3.0 {
          trending := trending + [TrendingRow(p, Up, a.value.currentCount, a.value.zScore, a.value.mean)];
        }
        assert keys[..i + 1][..i] == keys[..i];
        i := i + 1;
      }
      assert keys[..i] == keys;
      rows := if trending == [] then MOCK_TRENDING else trending;
      TrendingAlwaysMock(products, activity, now, root);
    }
  }
}
