/** The performance calculation of the record form: two wall-clock times, a
    target, breaks and delays become the elapsed, actual and effective minutes
    and the performance percentage that are stored with the record. Times are
    whole minutes; every other quantity is an exact `real` (no float rounding). */
module Calculator {
  import opened Wrappers
  import Clock

  /** The record form as the save handler reads it. The numeric fields hold
      what `float()` made of the text inputs. */
  datatype RecordForm = RecordForm(
    taskName: string,
    target: real,
    start: string,
    finish: string,
    hasBreak: bool,
    paidBreak: real,
    unpaidBreak: real,
    hasDelays: bool,
    delays: real,
    delayNotes: string)

  datatype Metrics = Metrics(
    totalElapsed: int,
    totalBreak: real,
    delays: real,
    actualWork: real,
    effectiveTime: real,
    performance: real)

  /** strptime's ValueError, carrying the text that did not parse. */
  datatype FormatError = BadTime(text: string)

  function Max(a: real, b: real): real {
    if a >= b then a else b
  }

  /** Minutes from `start` to `finish`; a finish earlier than the start lies on
      the next day. */
  function Elapsed(start: int, finish: int): (r: int)
    requires 0 <= start < Clock.MinutesPerDay && 0 <= finish < Clock.MinutesPerDay
    ensures 0 <= r < Clock.MinutesPerDay
    ensures r == (finish - start) % Clock.MinutesPerDay
  {
    if finish < start then finish + Clock.MinutesPerDay - start else finish - start
  }

  /** The performance percentage of a target over an effective time. */
  function Performance(target: real, effective: real): (p: real)
    requires effective >= 1.0
    ensures p * effective == target * 100.0
  {
    var p := target / effective * 100.0;
    assert p * effective == target * 100.0 by {
      assert target / effective * effective == target;
    }
    p
  }

  /** The metrics of a record whose times parsed as `s` and `e` minutes. */
  function MetricsOf(f: RecordForm, s: int, e: int): (m: Metrics)
    requires 0 <= s < Clock.MinutesPerDay && 0 <= e < Clock.MinutesPerDay
    ensures 0 <= m.totalElapsed < Clock.MinutesPerDay
    ensures m.totalElapsed == (e - s) % Clock.MinutesPerDay
    ensures m.totalBreak == (if f.hasBreak then f.paidBreak + f.unpaidBreak else 0.0)
    ensures m.delays == (if f.hasDelays then f.delays else 0.0)
    ensures m.actualWork >= 0.0 && m.actualWork >= m.totalElapsed as real - m.totalBreak
    ensures m.actualWork == 0.0 || m.actualWork == m.totalElapsed as real - m.totalBreak
    ensures m.effectiveTime >= 1.0 && m.effectiveTime >= m.actualWork - m.delays
    ensures m.effectiveTime == 1.0 || m.effectiveTime == m.actualWork - m.delays
    ensures m.performance * m.effectiveTime == f.target * 100.0
  {
    var elapsed := Elapsed(s, e);
    var totalBreak := if f.hasBreak then f.paidBreak + f.unpaidBreak else 0.0;
    var delays := if f.hasDelays then f.delays else 0.0;
    var actual := Max(0.0, elapsed as real - totalBreak);
    var effective := Max(1.0, actual - delays);
    Metrics(elapsed, totalBreak, delays, actual, effective, Performance(f.target, effective))
  }

  /** The metrics of one record, or the first time field strptime rejects. */
  function ComputeMetrics(f: RecordForm): (r: Result<Metrics, FormatError>)
    ensures r.Failure? <==> Clock.ParseHHMM(f.start).None? || Clock.ParseHHMM(f.finish).None?
    ensures Clock.ParseHHMM(f.start).None? ==> r == Failure(BadTime(f.start))
    ensures Clock.ParseHHMM(f.start).Some? && Clock.ParseHHMM(f.finish).None? ==> r == Failure(BadTime(f.finish))
    ensures r.Success? ==> r.value == MetricsOf(f, Clock.ParseHHMM(f.start).value, Clock.ParseHHMM(f.finish).value)
  {
    match Clock.ParseHHMM(f.start)
    case None => Failure(BadTime(f.start))
    case Some(s) =>
      match Clock.ParseHHMM(f.finish)
      case None => Failure(BadTime(f.finish))
      case Some(e) => Success(MetricsOf(f, s, e))
  }

  /** The elapsed time is the clock difference modulo a day; without a wrap it
      is the plain difference and the actual work is that difference less the
      break, floored at zero. */
  lemma ElapsedFollowsClock(f: RecordForm)
    requires ComputeMetrics(f).Success?
    ensures var s, e := Clock.ParseHHMM(f.start).value, Clock.ParseHHMM(f.finish).value;
      && ComputeMetrics(f).value.totalElapsed == (e - s) % Clock.MinutesPerDay
      && (e >= s ==> ComputeMetrics(f).value.totalElapsed == e - s)
      && (e >= s ==> ComputeMetrics(f).value.actualWork ==
                     Max(0.0, (e - s) as real - ComputeMetrics(f).value.totalBreak))
  {
  }

  /** With a positive target, the performance reaches 100 exactly when the
      effective time does not exceed the target. */
  lemma PerformanceReachesHundred(target: real, effective: real)
    requires target > 0.0 && effective >= 1.0
    ensures Performance(target, effective) >= 100.0 <==> effective <= target
  {
    var p := Performance(target, effective);
    if p >= 100.0 {
      MulMonotone(p - 100.0, effective);
    } else {
      MulMonotone(100.0 - p, effective);
    }
  }

  lemma MulMonotone(a: real, b: real)
    requires a >= 0.0 && b > 0.0
    ensures a * b >= 0.0
    ensures a > 0.0 ==> a * b > 0.0
  {
  }

  function Form(start: string, finish: string, target: real, breakMinutes: real, delays: real): RecordForm {
    RecordForm("task", target, start, finish, breakMinutes > 0.0, breakMinutes, 0.0, delays > 0.0, delays, "")
  }

  /** 23:30 to 00:15 crosses midnight and lasts 45 minutes. */
  lemma DayWrapExample()
    ensures ComputeMetrics(Form("23:30", "00:15", 30.0, 0.0, 0.0)).Success?
    ensures ComputeMetrics(Form("23:30", "00:15", 30.0, 0.0, 0.0)).value.totalElapsed == 45
  {
    assert "23:30"[3..] == "30" && "00:15"[3..] == "15";
  }

  /** An empty interval still divides by one minute, not zero. */
  lemma ZeroLengthExample()
    ensures ComputeMetrics(Form("09:00", "09:00", 30.0, 0.0, 0.0)).Success?
    ensures ComputeMetrics(Form("09:00", "09:00", 30.0, 0.0, 0.0)).value.effectiveTime == 1.0
    ensures ComputeMetrics(Form("09:00", "09:00", 30.0, 0.0, 0.0)).value.performance == 3000.0
  {
    assert "09:00"[3..] == "00";
  }

  /** Thirty minutes on a thirty-minute target is exactly 100 percent. */
  lemma OnTargetExample()
    ensures ComputeMetrics(Form("09:00", "09:30", 30.0, 0.0, 0.0)).Success?
    ensures ComputeMetrics(Form("09:00", "09:30", 30.0, 0.0, 0.0)).value.actualWork == 30.0
    ensures ComputeMetrics(Form("09:00", "09:30", 30.0, 0.0, 0.0)).value.performance == 100.0
  {
    assert "09:00"[3..] == "00" && "09:30"[3..] == "30";
  }

  /** An hour with a fifteen-minute break against a thirty-minute target:
      45 minutes of work, performance 200/3 (about 66.7). */
  lemma BreakExample()
    ensures ComputeMetrics(Form("09:00", "10:00", 30.0, 15.0, 0.0)).Success?
    ensures ComputeMetrics(Form("09:00", "10:00", 30.0, 15.0, 0.0)).value.actualWork == 45.0
    ensures ComputeMetrics(Form("09:00", "10:00", 30.0, 15.0, 0.0)).value.effectiveTime == 45.0
    ensures ComputeMetrics(Form("09:00", "10:00", 30.0, 15.0, 0.0)).value.performance == 200.0 / 3.0
  {
    assert "09:00"[3..] == "00" && "10:00"[3..] == "00";
  }

  /** A malformed start is reported, whatever the finish. */
  lemma BadStartExample(finish: string)
    ensures ComputeMetrics(Form("9.00", finish, 30.0, 0.0, 0.0)) == Failure(BadTime("9.00"))
  {
  }
}
