# Herd-behaviour rate-spike detectors, modelled in Dafny

This project models the two spike detectors of the herd-behaviour alerter.
Both work on per-product event counts.

- **The backend's local fallback detector** (`backend/main.py`). Each product
  keeps a deque of at most 100 event timestamps. `detect_anomaly` counts the
  timestamps that fall in four nested look-back windows (30 s, 1 min, 2 min,
  5 min). It applies two integer guards and fires on a ratio, velocity or
  absolute trigger. `GET /alerts` and `GET /alerts/trending` list the flagged
  products, or fixed demo entries when none are flagged.
- **The stream processor's detector** (`stream_processor/faust_app.py`).
  The agent `process` counts events per product. The periodic step `detect`
  appends each product's count to a baseline list capped at 60 samples. It
  computes the mean and population standard deviation of the earlier samples
  and applies the guards `min_count = 5` and "at least 5 earlier samples". It
  alerts when `(std < 1 and curr >= 3 * mean) or z > 3`, and then resets that
  product's counter.

The model is split into three modules:

- `Common` (`common.dfy`): the event record, the `if not product_id` test, an
  exact square root `IsSqrt`, and distinct key lists.
- `Backend` (`backend.dfy`): the bounded history as pure functions over
  `seq<int>`; `detect_anomaly` as the function `DetectAnomaly`; the store
  `product_activity` as the class `ActivityLog`. The class holds a map from
  product to history and the dict's key order as a `seq`. Its methods are the
  request and event handlers.
- `StreamProcessor` (`stream_processor.dfy`): exact real-valued `Mean` and
  `Variance`; the per-product rule `Assess`; the step's effect on one product
  (`DetectKey`, `Visit`); the whole step (`DetectAll`); and the class
  `Detector`. `Detector` holds the two tables `short_counts` and
  `baseline_store` as maps, plus the key order. Its methods `Process`,
  `Detect` and `VisitKey` keep the source's loops.

Timestamps are integer seconds, and the current time is a parameter `now`.
Square roots (`** 0.5`, and the one inside `pstdev`) are a parameter `root`,
required to be the exact non-negative square root (`IsSqrt`). Counts, means
and variances are exact integers and reals.

The windows are nested, so the 30 s count never exceeds the 2 min count. Three
consequences are proved:

- the ratio trigger can never fire;
- the backend z-score is never positive;
- `GET /alerts/trending` always returns its demo entry.

In the stream processor, the z test `z > 3` is proved equivalent to
`curr - mean > 3 * (std + epsilon)`. It is also proved equivalent to a form
with no square root, in which `d = curr - mean - 3 * epsilon`. That form holds
when `d > 0` and `d * d > 9 * variance`.

## Model

| member | source | states |
|---|---|---|
| `Backend.Push` | backend/main.py:31 | appending to a product's deque never takes it past 100 entries |
| `Backend.PushKeepsNewest` | backend/main.py:31 | one append leaves exactly the newest 100 entries of the old history followed by the new timestamp, so the oldest entry is dropped first |
| `Backend.PushAllKeepsNewest` | backend/main.py:361-362 | any run of appends leaves exactly the newest 100 entries of the old history followed by the appended timestamps |
| `Backend.CountWithin` | backend/main.py:98-101 | a window count never exceeds the history's length |
| `Backend.CountWithinMonotone` | backend/main.py:97-101 | a wider window counts at least as many timestamps as a narrower one |
| `Backend.WindowsNested` | backend/main.py:89-104 | count_30s <= count_1m <= count_2m <= count_5m <= length of the history |
| `Backend.Confidence` | backend/main.py:123 | the confidence is `15 z + 50` clamped to [0, 100]: exactly 0 when that value is negative, exactly 100 when it exceeds 100, the value itself otherwise |
| `Backend.ConfidenceClampsLow` | backend/main.py:108-123 | the counts 15, 15, 100, 100 pass both guards and fire the absolute trigger with z-score -8.5, so the alert carries confidence 0 |
| `Backend.ShortHistoryNoAlert` | backend/main.py:83-84 | with fewer than 20 timestamps no alert is returned |
| `Backend.DetectAnomalyDecision` | backend/main.py:103-122 | an alert is returned exactly when the history has at least 20 entries, baseline >= 3, recent >= 10, and either 5 * count_1m >= 3 * count_5m (the velocity trigger) or recent >= 15 (the absolute trigger); otherwise the result is None |
| `Backend.AlertFields` | backend/main.py:108-139 | a returned alert carries the product, current_count = the 30 s count, mean = the 2 min count, velocity_1m = the 1 min count, velocity_5m = the 5 min count / 5, ratio with ratio * baseline = recent, z_score with z_score * sqrt(baseline) = recent - baseline (the guard makes `max(1, baseline)` the baseline itself) and the detection time; its trigger type is velocity when that holds, else absolute, and never ratio |
| `Backend.ZScoreNonPositive` | backend/main.py:108-123 | a returned alert has ratio <= 1, z-score <= 0 and confidence `Confidence(z)`, which lies in [0, 50] |
| `Backend.FlaggedRowsExact` | backend/main.py:276-284 | every real `/alerts` entry is an up-trending row for a flagged product, with views equal to its alert's current count; every flagged product has an entry; the entries follow the key order, and for distinct keys no product appears twice |
| `Backend.AlertsResponseMockIff` | backend/main.py:286-291 | `/alerts` answers with the two demo entries exactly when no product is flagged |
| `Backend.NoTrendingRows` | backend/main.py:319-329 | no product ever passes the trending filter `z_score > 3` |
| `Backend.TrendingAlwaysMock` | backend/main.py:331-336 | `/alerts/trending` always answers with its single demo entry |
| `Backend.SpikeAlerts` | backend/main.py:360-364 | after the 15 simulated events, an alert is raised exactly when the product already had at least 5 timestamps |
| `Backend.ActivityLog.constructor` | backend/main.py:31 | the store starts with no products |
| `Backend.ActivityLog.Record` | backend/main.py:187 | only the recorded product's history changes, to the bounded append of the timestamp; a new product goes to the end of the key order; the store invariant (distinct keys, at most 100 entries each) is kept |
| `Backend.ActivityLog.OnEvent` | backend/main.py:175-190 | an undecodable event, or one without a product, changes nothing and yields no alert; otherwise the current time is appended to that product's history and the returned alert is `detect_anomaly` of the new history |
| `Backend.ActivityLog.SimulateSpike` | backend/main.py:356-369 | the product's history becomes the old one with 15 copies of `now` appended through the deque; the result is `detect_anomaly` of it, present exactly when the old history had at least 5 entries |
| `Backend.ActivityLog.GetAlerts` | backend/main.py:274-293 | the answer is one up-trending row per flagged product, in key order and without repeats, or the two demo entries when there are none |
| `Backend.ActivityLog.GetTrendingAlerts` | backend/main.py:317-336 | the answer is the rows with z > 3 in key order, or the demo entry; it is always the demo entry |
| `StreamProcessor.Variance` | stream_processor/faust_app.py:62 | the population variance of the earlier samples is never negative, so its square root exists |
| `StreamProcessor.ConstantStatistics` | stream_processor/faust_app.py:61-62 | samples that are all equal to c have mean c and variance 0 |
| `StreamProcessor.AppendSampleShape` | stream_processor/faust_app.py:49-54 | the new baseline list is the old one with the current count appended; the first sample is dropped only when the old list was full; the length stays <= 60 |
| `StreamProcessor.PriorSamplesExcludeCurrent` | stream_processor/faust_app.py:57 | the statistics are taken over the old list (without its oldest sample when it was full), never over the current count |
| `StreamProcessor.ColdStartNoAlert` | stream_processor/faust_app.py:58-64 | no alert when the old list has fewer than 5 samples or the current count is below 5 |
| `StreamProcessor.DenominatorPositive` | stream_processor/faust_app.py:62-65 | the standard deviation is >= 0, so `std + epsilon` is > 0 and the z-score never divides by zero |
| `StreamProcessor.RootBelowOne` | stream_processor/faust_app.py:66 | for a non-negative square root s of v, `s < 1` holds exactly when `v < 1` |
| `StreamProcessor.AssessDecision` | stream_processor/faust_app.py:64-66 | past the guards, an alert is raised exactly when (variance < 1 and curr >= 3 * mean) or curr - mean > 3 * (std + epsilon) |
| `StreamProcessor.AssessDecisionExact` | stream_processor/faust_app.py:65-66 | the same decision without a square root: with d = curr - mean - 3 * epsilon, the z test holds exactly when d > 0 and d * d > 9 * variance |
| `StreamProcessor.AlertFields` | stream_processor/faust_app.py:66-74 | an alert occurs only past both guards; it carries the product, current_count = curr, baseline_mean = mean, baseline_std = std (whose square is the variance), z_score with z * (std + epsilon) = curr - mean, and the detection time |
| `StreamProcessor.SteadyStateNoAlert` | stream_processor/faust_app.py:57-66 | a count equal to every earlier sample never alerts |
| `StreamProcessor.DetectAllKeys` | stream_processor/faust_app.py:45-77 | the step never adds or removes a counter |
| `StreamProcessor.DetectAllUntouched` | stream_processor/faust_app.py:45-54 | a product that is not visited keeps its count and its baseline list |
| `StreamProcessor.DetectAllVisited` | stream_processor/faust_app.py:46-77 | a visited product gets the baseline list of its own turn, judged on its own old entries; its count becomes 0 after an alert and is otherwise unchanged |
| `StreamProcessor.DetectAllSent` | stream_processor/faust_app.py:46-75 | the alerts sent are those of the visited products in visiting order, each judged on that product's own old entries |
| `StreamProcessor.IngestCounts` | stream_processor/faust_app.py:29-36 | each product's count grows by exactly its number of decodable events that name it; a product is known afterwards exactly when it was known before or had such an event; the key order only grows at its end |
| `StreamProcessor.Detector.constructor` | stream_processor/faust_app.py:23-25 | both tables start empty |
| `StreamProcessor.Detector.Process` | stream_processor/faust_app.py:28-38 | the counters become `Ingest` of the stream; the baseline lists are untouched |
| `StreamProcessor.Detector.Detect` | stream_processor/faust_app.py:43-77 | the tables and the published alerts become `DetectAll` over the snapshot of keys; the key order is unchanged; every baseline list stays at most 60 long |
| `StreamProcessor.Detector.VisitKey` | stream_processor/faust_app.py:47-77 | one loop iteration changes the tables and the published alerts exactly as `Visit` describes |

## Left out

- Kafka consumers, their connect-and-retry loops and the Faust app, topic and table wiring are network I/O. The model begins at an already-received record decoded to `RawEvent`, and JSON decoding is reduced to `Malformed` or `Parsed`.
- `alerts_topic.send` is not modelled as I/O. `Detect` returns the sequence of alerts it would publish.
- The WebSocket `ConnectionManager`, the `/ws` endpoint and the Slack webhook are async network sends. The handlers return the alert that would be broadcast.
- FastAPI setup, CORS and the routes `/`, `/health` and `/alerts/history` are framework plumbing that returns constants. `/alerts/active` simply returns `get_alerts()`.
- The Faust timer (every 5 s) and the tumbling-window expiry of `short_counts` are runtime scheduling. `short_counts[pid].now()` is a plain per-product counter.
- `datetime.utcnow()` is the parameter `now`, in integer seconds rather than microsecond-precision datetimes. Each handler reads the clock once, where the source reads it again inside every `detect_anomaly` call (backend/main.py:86):
  - `OnEvent` appends and evaluates at the same `now`;
  - `SimulateSpike` appends `current_time` (backend/main.py:358) and evaluates at that same `now`;
  - `GetAlerts` and `GetTrendingAlerts` judge every product at one `now`.
- Floating point is not modelled: `round(...)`, IEEE `sqrt`/`pstdev`/`mean` and `float('inf')` are left out in favour of exact values. The `float('inf')` ratio branch cannot be reached, because the ratio is computed only when the 2 min count is at least 3.
- Backend.ActivityLog.GetTrendingAlerts: filters on the exact z-score rather than on `round(z_score, 2)`. Any rounding of a z-score that is at most 0 stays at most 0, so the answer is the same.
- Common.PresentId: only `None` and the empty string count as a missing product id. Other Python falsy values, such as `0` or `False`, are not modelled because ids are strings here.
- `POST /track` (backend/main.py:296-313) does what `OnEvent` does for an event that decoded. Its status reply and its exception handler are not modelled.
- Concurrency between the two asyncio consumers and the HTTP handlers is not modelled. Each handler is one atomic method on `ActivityLog`.
- Backend.ActivityLog.OnEvent: does not model the consumer stopping on bad input. In the source, only a `json.loads` failure is skipped (backend/main.py:175-179). A record that decodes to a non-object (`null`, `42`, a list) raises at `event.get` (backend/main.py:181). A `product_id` that cannot be a dict key raises at backend/main.py:187. Both exceptions reach the outer handler at backend/main.py:200-203, which ends the consumer loop, so no later event is recorded. The model skips such a record and keeps going.
- StreamProcessor.Detector.Detect: is atomic. In the source, `detect` awaits `alerts_topic.send` (stream_processor/faust_app.py:75) before resetting `short_counts[pid] = 0` (stream_processor/faust_app.py:77). The `process` agent can run during that await, and the reset then erases the increments it made. The model does not capture that interleaving.
