/** The tracker application's handlers that reach the store: saving the
    record form (through the performance calculation), deleting a record,
    and starting and finishing a shift behind the `HH:MM` gate. Dialogs and
    view switching are not modelled; a user's answer to a confirmation
    dialog is a parameter. */
module App {
  import opened Wrappers
  import opened Tables
  import Clock
  import Calculator
  import Store

  /** The skill every record and shift is saved with. */
  const Skill: string := "Picker"

  /** The `record_data` dict the save handler builds from the form and its
      metrics. */
  function RecordDataFor(f: Calculator.RecordForm, m: Calculator.Metrics): RecordData {
    RecordData(f.taskName, f.target, m.actualWork, m.performance, f.start, f.finish,
               m.totalBreak, f.hasBreak, m.delays, f.hasDelays, f.delayNotes, Skill,
               f.paidBreak, f.unpaidBreak)
  }

  /** What a saved record holds, for times parsed as `s` and `e` minutes (the
      metrics `ComputeMetrics` returns for an accepted form): the times as
      typed, the computed work and performance, the break total (0 when the
      break switch is off, while the paid and unpaid inputs are kept as
      typed), and the skill. */
  lemma RecordFollowsMetrics(f: Calculator.RecordForm, s: int, e: int)
    requires 0 <= s < Clock.MinutesPerDay && 0 <= e < Clock.MinutesPerDay
    ensures var m := Calculator.MetricsOf(f, s, e);
      var d := RecordDataFor(f, m);
      && d.startTime == f.start && d.endTime == f.finish
      && d.actualTime >= 0.0
      && d.performancePercentage * m.effectiveTime == d.targetTime * 100.0
      && d.breakTime == (if f.hasBreak then f.paidBreak + f.unpaidBreak else 0.0)
      && d.paidBreakTime == f.paidBreak && d.unpaidBreakTime == f.unpaidBreak
      && d.delaysTime == (if f.hasDelays then f.delays else 0.0)
      && d.skill == Skill
  {
  }

  /** The shift duration never wraps midnight while the record's elapsed time
      does: on times in order both are the clock difference, and across
      midnight the shift counts 0. */
  lemma ShiftDurationVersusElapsed(start: string, finish: string)
    requires Clock.ParseHHMM(start).Some? && Clock.ParseHHMM(finish).Some?
    ensures var s, e := Clock.ParseHHMM(start).value, Clock.ParseHHMM(finish).value;
      var d := ShiftDuration(Some(ShiftInfo(Some(start), Some(finish))));
      && (e >= s ==> d == Calculator.Elapsed(s, e))
      && (e < s ==> d == 0 && Calculator.Elapsed(s, e) == e + Clock.MinutesPerDay - s)
  {
  }

  class TrackerApp {
    const db: Store.Database
    /** The record the form edits, None for a new record. */
    var editingRecordId: Option<int>

    ghost predicate Valid()
      reads this, db
    {
      db.Valid()
    }

    constructor ()
      ensures Valid() && fresh(db)
      ensures db.records == map[] && db.shifts == [] && db.tasks == [] && editingRecordId.None?
    {
      db := new Store.Database();
      editingRecordId := None;
    }

    /** `save_record_async` on the day `today`: when both times parse, the
        record is saved (updating the edited one when there is one);
        otherwise the error is reported and the store is untouched. */
    method SaveRecordAsync(f: Calculator.RecordForm, today: int) returns (r: Result<Calculator.Metrics, Calculator.FormatError>)
      requires Valid()
      modifies db
      ensures Valid()
      ensures r == Calculator.ComputeMetrics(f)
      ensures r.Failure? ==> db.records == old(db.records) && db.nextId == old(db.nextId) && db.clock == old(db.clock)
      ensures r.Success? ==>
                db.records == Upsert(old(db.records), old(db.nextId), old(db.clock), RecordDataFor(f, r.value), editingRecordId, today)
      ensures r.Success? && IsUpdate(editingRecordId) ==> db.nextId == old(db.nextId) && db.clock == old(db.clock)
      ensures r.Success? && !IsUpdate(editingRecordId) ==> db.nextId == old(db.nextId) + 1 && db.clock == old(db.clock) + 1
      ensures db.shifts == old(db.shifts) && db.tasks == old(db.tasks)
    {
      r := Calculator.ComputeMetrics(f);
      if r.Success? {
        db.SaveRecord(RecordDataFor(f, r.value), editingRecordId, today);
      }
    }

    /** `delete_record_async`: deletes only when the user confirms. */
    method DeleteRecordAsync(id: int, confirmed: bool)
      requires Valid()
      modifies db
      ensures Valid()
      ensures db.records == if confirmed then old(db.records) - {id} else old(db.records)
      ensures db.nextId == old(db.nextId) && db.clock == old(db.clock)
      ensures db.shifts == old(db.shifts) && db.tasks == old(db.tasks)
    {
      if confirmed {
        db.DeleteRecord(id);
      }
    }

    /** `start_shift_async`: the stripped input reaches the store only when it
        parses as `HH:MM`. */
    method StartShiftAsync(input: string) returns (ok: bool)
      requires Valid()
      modifies db
      ensures Valid()
      ensures ok <==> Clock.ParseHHMM(Clock.Strip(input)).Some?
      ensures ok ==> db.shifts == old(db.shifts) + [Shift(|old(db.shifts)| + 1, Clock.Strip(input), None, Skill, old(db.clock))]
      ensures ok ==> db.clock == old(db.clock) + 1
      ensures !ok ==> db.shifts == old(db.shifts) && db.clock == old(db.clock)
      ensures db.records == old(db.records) && db.nextId == old(db.nextId) && db.tasks == old(db.tasks)
    {
      var startTime := Clock.Strip(input);
      ok := Clock.ParseHHMM(startTime).Some?;
      if ok {
        db.StartShift(startTime, Skill);
      }
    }

    /** `finish_shift_async`: the stripped input reaches the store only when it
        parses as `HH:MM` and the user confirms. */
    method FinishShiftAsync(input: string, confirmed: bool) returns (ok: bool)
      requires Valid()
      modifies db
      ensures Valid()
      ensures ok <==> Clock.ParseHHMM(Clock.Strip(input)).Some?
      ensures ok && confirmed ==> db.shifts == Finish(old(db.shifts), Clock.Strip(input))
      ensures !(ok && confirmed) ==> db.shifts == old(db.shifts)
      ensures db.records == old(db.records) && db.nextId == old(db.nextId) && db.tasks == old(db.tasks) && db.clock == old(db.clock)
    {
      var finishTime := Clock.Strip(input);
      ok := Clock.ParseHHMM(finishTime).Some?;
      if ok && confirmed {
        db.FinishShift(finishTime);
      }
    }
  }
}
