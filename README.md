# Fire-alarm telemetry bridge, modelled in Dafny

This project models the core of `receiveAndUpload.py`. That program reads
`key=value` telemetry lines from a Zigbee serial link, keeps the latest valid
reading, classifies it as a fire/gas risk, and uploads it to ThingSpeak on a
fixed-delay cadence. The model covers four parts:

- `parse_kv_line`: the line parser.
- `compute_decision`: the risk classifier.
- The body of the `main` loop: the ingestion and batching scheduler.
- The constants these use: `POST_INTERVAL_SEC = 15`, `MQ2_WARN = 250`,
  `MQ2_DANGER = 400`, `FLAME_DETECTED_VALUE = 1`.

Modules:

- `Wrappers` (`wrappers.dfy`): `Option`.
- `Text` (`text.dfy`): the Python string built-ins the parser needs. `str.strip` uses Python's `isspace` code points; `str.split(sep)` and `str.split(sep, 1)` become `Split` and `SplitAtFirst`.
- `Numerals` (`numerals.dfy`): `int(str)` and `float(str)` over a decimal-literal grammar, and `int(float)`, which truncates toward zero. Temperatures are exact `real`s.
- `LineParser` (`line_parser.dfy`):
  - a specification function `Parse`, defined through `Pairs`, the dictionary the loop builds;
  - the imperative `ParseKvLine`, which keeps the source's loop and is proved equal to `Parse`;
  - lemmas for each rule of the line format.
- `Classifier` (`classifier.dfy`): `ComputeDecision`.
  - Decision and reason labels are datatypes, with the source's label strings given by `DecisionLabel` and `ReasonLabel`. Only the decision label leaves the program, as the upload's `field6`; the reason is computed but not used by the loop.
  - The risk score is in per-mille: 1000, 900, 550 and 50 stand for 1.0, 0.9, 0.55 and 0.05.
- `Ingestion` (`ingestion.dfy`): the class `Scheduler`.
  - Its fields are the loop's three state variables: `latest`, `nextPost` and `lastCountdown`.
  - Its `Step` method is one loop iteration at an integer time `now`. It returns what the iteration shows: the countdown value, and the publish attempt with its upload outcome.
  - `Step` is `Receive` (read, strip, parse, then `Keep` the result) followed by `Tick` (countdown, publish, reschedule).
  - The scenario methods are concrete runs from start-up. They start from what the parser returned, so an iteration that read a line is `Keep` followed by `Tick`.

The `ms` field is optional but not forgiving:

- `int(kv.get("ms", 0))` (`receiveAndUpload.py:34`) is inside the same `try` as the required fields (`receiveAndUpload.py:32-42`). An `ms` that is present but not an integer therefore rejects the whole line.
- Only an absent `ms` gives 0. `LineParser.MalformedNumberRejected` and `LineParser.WellFormedAccepted` state both cases.

## Model

| member | source | states |
|---|---|---|
| Text.StripSpec | receiveAndUpload.py:18-20 | `strip` removes exactly a whitespace prefix and suffix: the result is a slice with all-whitespace margins; it is empty iff the input is all whitespace; otherwise its first and last characters are not whitespace |
| Text.StripIdempotent | receiveAndUpload.py:18 | stripping twice is stripping once |
| Text.SplitSpec | receiveAndUpload.py:22 | no piece of `split(',')` contains the separator, and joining the pieces with it gives back the input |
| Text.SplitJoin | receiveAndUpload.py:22 | splitting a join of separator-free pieces gives back those pieces |
| Text.IndexOf | receiveAndUpload.py:25-26 | the index found holds the character and is its first occurrence |
| Text.SplitAtFirst | receiveAndUpload.py:26 | `split('=', 1)` gives the text before the first `=` (which has no `=`) and everything after it, and the two halves rebuild the token |
| Text.SplitAtFirstOf | receiveAndUpload.py:26 | splitting `a + "=" + b` with `=` not in `a` gives `(a, b)`, so later `=` stay in the value |
| Numerals.ParseIntRoundTrip | receiveAndUpload.py:34 | `int()` of an integer's decimal rendering gives that integer back, for negative values too |
| Numerals.ParseDecimalPointed | receiveAndUpload.py:35-37 | `float()` of an unsigned or `-`-signed literal `w.f` (either side may be empty, not both) is value(w) + value(f) / 10^len(f), negated for `-` |
| Numerals.IntLiteralIsDecimal | receiveAndUpload.py:35-37 | `float()` of any literal `int()` accepts (optional sign, digits) is that integer's value |
| Numerals.PointValueExact | receiveAndUpload.py:35-37 | that value is exactly the integer spelled by all the digits `wf` divided by 10^len(f) |
| Numerals.TruncateTowardZeroSpec | receiveAndUpload.py:36-37 | `int(float)` truncates toward zero: for x >= 0 the result is the largest integer <= x; for x < 0 it is the smallest integer >= x |
| Numerals.TruncatedFraction | receiveAndUpload.py:36 | `int(float("400.7"))` is 400 |
| Numerals.TruncatedOne | receiveAndUpload.py:37 | `int(float("1.0"))` is 1, so a flame written `1.0` still counts as detected |
| Numerals.TruncatedNegative | receiveAndUpload.py:36-37 | `int(float("-0.5"))` is 0: truncation, not flooring |
| LineParser.ParseKvLine | receiveAndUpload.py:17-42 | the loop over the tokens after the tag computes exactly `Parse(line)` |
| LineParser.PairsKeys | receiveAndUpload.py:24-27 | a key is in the dictionary iff some token after the tag is a pair with that (stripped) key |
| LineParser.PairsLastWins | receiveAndUpload.py:24-27 | for a repeated key, the value of its last occurrence is kept |
| LineParser.LastPair | receiveAndUpload.py:24-27 | every key present has a last occurrence, and the lemma names it |
| LineParser.PairsSkipsPlainToken | receiveAndUpload.py:25 | a token without `=` leaves the dictionary unchanged, wherever it stands |
| LineParser.PairAtFirstEquals | receiveAndUpload.py:25-27 | `k=v` with no `=` in `k` is a pair whose key is `strip(k)` and whose value is `strip(v)` |
| LineParser.BlankLineRejected | receiveAndUpload.py:18-20 | an empty or all-whitespace line gives no reading |
| LineParser.ParseIgnoresSurroundingSpace | receiveAndUpload.py:18 | leading and trailing whitespace does not change the result |
| LineParser.TagIgnored | receiveAndUpload.py:22-24 | the first token is never read as a pair: the result depends only on what follows the first comma |
| LineParser.PlainTokenIgnored | receiveAndUpload.py:24-25 | inserting a token without `=` after the tag does not change the result |
| LineParser.MissingRequiredKeyRejected | receiveAndUpload.py:29-30 | a line lacking `tempC`, `mq2` or `flame` gives no reading |
| LineParser.MalformedNumberRejected | receiveAndUpload.py:32-42 | a last `tempC`, `mq2` or `flame` value that is not a number, or a last `ms` value that is not an integer, rejects the line |
| LineParser.WellFormedAccepted | receiveAndUpload.py:32-40 | with numeric required fields and an acceptable `ms`, a reading is returned; it holds `tempC` as parsed, `mq2` and `flame` truncated toward zero, and `ms`, `gas` and `light` as the stripped values of their last pairs; an absent `ms` gives 0 and an absent `gas` or `light` gives empty text |
| Classifier.ComputeDecision | receiveAndUpload.py:44-66 | flame detected iff the raw value is 1; the reason is the most severe hazard present; decision and score are the ones that reason carries; the alarm is raised iff the decision is high risk |
| Classifier.LabelsDistinct | receiveAndUpload.py:49-57 | distinct decisions and distinct reasons have distinct labels |
| Classifier.FlamePreempts | receiveAndUpload.py:52-53 | a flame gives HIGH_RISK/FLAME with score 1.0 and the alarm raised, whatever the gas level |
| Classifier.GasTiers | receiveAndUpload.py:46-64 | without a flame: mq2 >= 400 gives HIGH_RISK/MQ2_DANGER/0.9 with the alarm; 250 <= mq2 < 400 gives WARNING/MQ2_WARN/0.55; below 250 gives NORMAL/NORMAL/0.05; no alarm in either case |
| Classifier.RiskOrderedByRank | receiveAndUpload.py:61-64 | a more severe reason has a strictly higher score |
| Classifier.RiskMonotoneInGas | receiveAndUpload.py:46-64 | with the same flame value, more gas never lowers the score |
| Classifier.RiskInUnitInterval | receiveAndUpload.py:61-64 | the score lies in (0, 1] |
| Ingestion.Scheduler.constructor | receiveAndUpload.py:87-89 | start-up: no reading, first deadline one interval away, countdown reset |
| Ingestion.Scheduler.Step | receiveAndUpload.py:92-133 | one iteration is `Receive` then `Tick`: the latest slot becomes `Kept(old latest, line)`, which is replaced only by a line that parses; the countdown is shown only when non-negative and changed; at or after the deadline there is one attempt with the latest reading and its classification if there is a reading, then the deadline becomes now + 15 and the countdown resets; before the deadline there is no attempt and the deadline is kept; the countdown stays in step with the deadline, and the deadline stays at most one interval ahead when time does not go back |
| Ingestion.Scheduler.Receive | receiveAndUpload.py:94-99 | a line that was read is stripped and parsed; the slot takes the result only if it is a reading; nothing else changes |
| Ingestion.Scheduler.Keep | receiveAndUpload.py:98-99 | a reading replaces the slot; no reading leaves it; nothing else changes |
| Ingestion.Scheduler.Tick | receiveAndUpload.py:101-133 | the countdown, publish and reschedule half of `Step`, with the same clauses, and the latest slot unchanged |
| Ingestion.IdleDeadlineScenario | receiveAndUpload.py:109-133 | with no reading, the first deadline publishes nothing but still reschedules 15 after now |
| Ingestion.RepublishScenario | receiveAndUpload.py:109-133 | a stored reading is published at the deadline; a failed upload does not stop the loop; the same reading is published again, unchanged, at the next deadline |
| Ingestion.RejectedLineScenario | receiveAndUpload.py:94-99 | after a line the parser rejects, the next deadline still publishes the earlier reading |
| Ingestion.LateDeadlineScenario | receiveAndUpload.py:101-133 | a late step publishes and schedules 15 after itself, not on the original grid (fixed delay), so a step at the old grid time publishes nothing |
| Ingestion.CountdownOnceScenario | receiveAndUpload.py:101-107 | a countdown value is shown once: a second step in the same second shows nothing |

## Left out

- The upload (`post_to_thingspeak`, `receiveAndUpload.py:68-80`) is not modelled. Its outcome is the `delivered` parameter of `Step`, reported in the attempt; it does not affect the loop state, just as the source catches any exception. The payload, `round(risk, 3)`, the HTTP request and its timeout are left out: they are network I/O.
- Serial I/O is not modelled: opening the port, `readline` with its timeout, UTF-8 decoding with replacement, and `reset_input_buffer`. The decoded line is the `line` parameter of `Step`, with `None` for an empty read.
- `print` output and its formatting are not modelled. The countdown value and the attempt are returned in the `StepReport` instead.
- The infinite `while True`, and its end by Ctrl+C, are not modelled. Each iteration is one `Step` call.
- Ingestion.Scheduler.Step: the wall clock is an integer parameter `now`, not a float. `remaining` is therefore `next_post - now` exactly, rather than `int()` of a float difference.
- Ingestion.Scheduler.Step: the deadline is kept within one interval ahead only when `now` does not move backwards. The source makes no such promise for a clock that goes back.
- Numerals.ParseDecimal: accepts only `[+-]digits`, `[+-]digits.digits`, `[+-]digits.` and `[+-].digits`, with ASCII digits. Values reach it already stripped (`receiveAndUpload.py:27`), so surrounding whitespace cannot occur.
  - Python's `float()` also accepts exponents, `_` separators, non-ASCII digits and `inf`/`nan`. The model rejects such lines. The source accepts them, except that `inf`/`nan` in `mq2` or `flame` are rejected there as well, because `int()` of them raises.
  - Values are exact rationals, so the binary rounding of `float` is not modelled. This applies to `tempC`, and also to `mq2` and `flame` before they are truncated. `mq2=399.99999999999999999` rounds to 400.0 in the source, giving 400 and `MQ2_DANGER`; the model gives 399 and `MQ2_WARN`. `flame=0.99999999999999999` is a flame in the source and not in the model.
  - A literal too large for a double becomes `inf` in the source. For `mq2` or `flame`, `int()` then raises `OverflowError` and the source rejects the line; the model accepts it with the exact value.
- Numerals.ParseInt: accepts only an optional sign followed by ASCII digits. Python's `int()` also accepts `_` separators and non-ASCII digits; the model rejects those lines and the source accepts them. Surrounding whitespace cannot occur, since values are stripped at `receiveAndUpload.py:27`. The model also has no limit on the number of digits. CPython 3.11 and later (and the 3.7-3.10 security releases) refuse by default `int()` of a decimal string longer than 4300 digits. So the source rejects a line whose `ms` value is that long, while the model accepts it; the limit depends on the Python version and its configuration.
