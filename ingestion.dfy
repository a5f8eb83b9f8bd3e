/**
 * The ingestion and batching scheduler: one iteration of the main loop.
 * Each step takes the line the serial link delivered, if any, and the
 * current time; it keeps the latest valid reading, updates the countdown
 * display, and once the deadline is reached classifies and publishes the
 * latest reading (if there is one) and schedules the next deadline
 * POST_INTERVAL_SEC after now (fixed delay, not fixed rate).
 */
module Ingestion {
  import opened Wrappers
  import Text
  import opened LineParser
  import opened Classifier

  const PostIntervalSec := 15

  /** One publish attempt: the reading sent, its classification, and
      whether the upload was acknowledged. */
  datatype Attempt = Attempt(reading: Reading, classification: Classification, delivered: bool)

  /** What one step shows: the countdown value printed, if any, and the
      publish attempt made, if any. */
  datatype StepReport = StepReport(countdown: Option<int>, attempt: Option<Attempt>)

  /** The latest-reading slot after a read: a line that parses replaces
      it, anything else (no line, a rejected line) leaves it as it was. */
  function Kept(prev: Option<Reading>, line: Option<string>): Option<Reading> {
    match line
    case None => prev
    case Some(l) => var d := Parse(l); if d.Some? then d else prev
  }

  class Scheduler {
    var latest: Option<Reading>
    var nextPost: int
    var lastCountdown: int
    /** The time of the most recent step (of construction before any). */
    ghost var clock: int

    /** The countdown is either reset or the time that was left until the
        deadline at the most recent step, which is then still ahead. */
    ghost predicate Valid()
      reads this
    {
      lastCountdown == -1 || (0 < lastCountdown && lastCountdown == nextPost - clock)
    }

    /** The deadline is at most one interval after the most recent step. */
    ghost predicate Paced()
      reads this
    {
      nextPost <= clock + PostIntervalSec
    }

    /** Start-up: no reading yet, the first deadline one interval away. */
    constructor (now: int)
      ensures Valid() && Paced()
      ensures latest == None && nextPost == now + PostIntervalSec && lastCountdown == -1
      ensures clock == now
    {
      latest := None;
      nextPost := now + PostIntervalSec;
      lastCountdown := -1;
      clock := now;
    }

    /** One iteration of the loop. `line` is the decoded text of what the
        serial read returned (`None` when it returned nothing); `delivered`
        is the outcome the upload would have, which is only reported. */
    method Step(line: Option<string>, now: int, delivered: bool) returns (report: StepReport)
      modifies this
      ensures Valid()
      ensures old(Paced()) && old(clock) <= now ==> Paced()
      ensures clock == now
      ensures latest == Kept(old(latest), line)
      // the countdown is shown when it is non-negative and has changed
      ensures var remaining := old(nextPost) - now;
        report.countdown == if remaining != old(lastCountdown) && remaining >= 0 then Some(remaining) else None
      // at the deadline: one attempt if there is a reading, then reschedule
      ensures now >= old(nextPost) ==>
        && report.attempt == (if latest.Some? then Some(Attempt(latest.value, ComputeDecision(latest.value), delivered)) else None)
        && nextPost == now + PostIntervalSec
        && lastCountdown == -1
      // before it: nothing published and the deadline kept
      ensures now < old(nextPost) ==>
        && report.attempt == None
        && nextPost == old(nextPost)
        && lastCountdown == (if old(nextPost) - now != old(lastCountdown) then old(nextPost) - now else old(lastCountdown))
    {
      Receive(line);
      report := Tick(now, delivered);
    }

    /** The read half of an iteration: strip the line and keep what it
        parses to, if anything. */
    method Receive(line: Option<string>)
      modifies this
      ensures latest == Kept(old(latest), line)
      ensures nextPost == old(nextPost) && lastCountdown == old(lastCountdown) && clock == old(clock)
    {
      if line.Some? {
        var text := Text.Strip(line.value);
        var d := ParseKvLine(text);
        ParseIgnoresSurroundingSpace(line.value);
        Keep(d);
      }
    }

    /** Keep what the parser returned, when it returned a reading. */
    method Keep(d: Option<Reading>)
      modifies this
      ensures latest == if d.Some? then d else old(latest)
      ensures nextPost == old(nextPost) && lastCountdown == old(lastCountdown) && clock == old(clock)
    {
      if d.Some? {
        latest := d;
      }
    }

    /** The clock half of an iteration: update the countdown and, at the
        deadline, publish the latest reading and reschedule. */
    method Tick(now: int, delivered: bool) returns (report: StepReport)
      modifies this
      ensures Valid()
      ensures old(Paced()) && old(clock) <= now ==> Paced()
      ensures clock == now && latest == old(latest)
      ensures var remaining := old(nextPost) - now;
        report.countdown == if remaining != old(lastCountdown) && remaining >= 0 then Some(remaining) else None
      ensures now >= old(nextPost) ==>
        && report.attempt == (if latest.Some? then Some(Attempt(latest.value, ComputeDecision(latest.value), delivered)) else None)
        && nextPost == now + PostIntervalSec
        && lastCountdown == -1
      ensures now < old(nextPost) ==>
        && report.attempt == None
        && nextPost == old(nextPost)
        && lastCountdown == (if old(nextPost) - now != old(lastCountdown) then old(nextPost) - now else old(lastCountdown))
    {
      var remaining := nextPost - now;
      var countdown: Option<int> := None;
      if remaining != lastCountdown && remaining >= 0 {
        countdown := Some(remaining);
        lastCountdown := remaining;
      }

      var attempt: Option<Attempt> := None;
      if now >= nextPost {
        if latest.Some? {
          var c := ComputeDecision(latest.value);
          attempt := Some(Attempt(latest.value, c, delivered));
        }
        nextPost := now + PostIntervalSec;
        lastCountdown := -1;
      }
      clock := now;
      report := StepReport(countdown, attempt);
    }
  }

  // Runs of the loop from start-up at time `t`. An iteration that reads a
  // line is `Keep` of what the parser returned followed by `Tick`; one that
  // reads nothing is `Tick` alone, which is what `Step` does in each case.

  /**
   * With no reading yet, the first deadline publishes nothing but still
   * moves the deadline one interval on.
   */
  method IdleDeadlineScenario(t: int) returns (reports: seq<StepReport>)
    ensures reports == [StepReport(Some(0), None), StepReport(Some(10), None)]
  {
    var s := new Scheduler(t);
    var r0 := s.Tick(t + 15, true);
    var r1 := s.Tick(t + 20, true);
    reports := [r0, r1];
  }

  /**
   * A stored reading is published at the deadline even though that upload
   * fails, and it is published again, unchanged, at the next deadline.
   */
  method RepublishScenario(r: Reading, t: int) returns (reports: seq<StepReport>)
    ensures reports == [
      StepReport(Some(14), None),
      StepReport(Some(0), Some(Attempt(r, ComputeDecision(r), false))),
      StepReport(Some(0), Some(Attempt(r, ComputeDecision(r), true)))]
  {
    var s := new Scheduler(t);
    s.Keep(Some(r));
    var r0 := s.Tick(t + 1, true);
    var r1 := s.Tick(t + 15, false);
    var r2 := s.Tick(t + 30, true);
    reports := [r0, r1, r2];
  }

  /**
   * A line the parser rejects does not replace the stored reading: the
   * deadline after it publishes the earlier reading.
   */
  method RejectedLineScenario(r: Reading, t: int) returns (reports: seq<StepReport>)
    ensures reports == [
      StepReport(Some(14), None),
      StepReport(Some(13), None),
      StepReport(Some(0), Some(Attempt(r, ComputeDecision(r), true)))]
  {
    var s := new Scheduler(t);
    s.Keep(Some(r));
    var r0 := s.Tick(t + 1, true);
    s.Keep(None);
    var r1 := s.Tick(t + 2, true);
    var r2 := s.Tick(t + 15, true);
    reports := [r0, r1, r2];
  }

  /**
   * A late step publishes, and the next deadline is one interval after
   * that step (t+67), not on the t+15k grid: the step at t+60 publishes
   * nothing and shows 7 seconds left.
   */
  method LateDeadlineScenario(r: Reading, t: int) returns (reports: seq<StepReport>)
    ensures reports == [
      StepReport(Some(14), None),
      StepReport(None, Some(Attempt(r, ComputeDecision(r), true))),
      StepReport(Some(7), None)]
  {
    var s := new Scheduler(t);
    s.Keep(Some(r));
    var r0 := s.Tick(t + 1, true);
    var r1 := s.Tick(t + 52, true);
    var r2 := s.Tick(t + 60, true);
    reports := [r0, r1, r2];
  }

  /** A countdown value is shown once: a second step in the same second
      shows nothing, the next second shows the new value. */
  method CountdownOnceScenario(t: int) returns (reports: seq<StepReport>)
    ensures reports == [StepReport(Some(14), None), StepReport(None, None), StepReport(Some(13), None)]
  {
    var s := new Scheduler(t);
    var r0 := s.Tick(t + 1, true);
    var r1 := s.Tick(t + 1, true);
    var r2 := s.Tick(t + 2, true);
    reports := [r0, r1, r2];
  }
}
