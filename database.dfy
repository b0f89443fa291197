/** The tracker's store: the three tables held in memory by one `Database`
    object whose methods change them in place. `records` maps ids to rows,
    `nextId` is the id AUTOINCREMENT hands out next, `shifts` and `tasks` are
    in creation order, and `clock` stamps each insert so that `created_at`
    strictly increases. */
module Store {
  import opened Wrappers
  import opened Tables
  import opened Stats

  /** The record table's invariant: keys lie in [1, nextId) and agree with
      the rows' ids, stamps lie before `clock` and follow the ids. */
  ghost predicate RecordsValid(m: map<int, Row>, nextId: int, clock: nat) {
    && nextId >= 1
    && (forall k :: k in m ==> 1 <= k < nextId && m[k].createdAt < clock)
    && IdsAgree(m)
    && StampsFollowIds(m)
  }

  /** Rewriting one row, keeping its id and stamp, keeps the invariant. */
  lemma RewriteKeepsValid(m: map<int, Row>, nextId: int, clock: nat, id: int, r: Row)
    requires RecordsValid(m, nextId, clock) && id in m
    requires r.id == m[id].id && r.createdAt == m[id].createdAt
    ensures RecordsValid(m[id := r], nextId, clock)
  {
  }

  /** Inserting a row under `nextId`, stamped `clock`, keeps the invariant
      with both counters advanced. */
  lemma InsertKeepsValid(m: map<int, Row>, nextId: int, clock: nat, r: Row)
    requires RecordsValid(m, nextId, clock)
    requires r.id == nextId && r.createdAt == clock
    ensures nextId !in m
    ensures RecordsValid(m[nextId := r], nextId + 1, clock + 1)
  {
  }

  /** A later clock keeps the invariant. */
  lemma LaterClockKeepsValid(m: map<int, Row>, nextId: int, clock: nat)
    requires RecordsValid(m, nextId, clock)
    ensures RecordsValid(m, nextId, clock + 1)
  {
  }

  /** The window of the listing of ids `a` .. `b - 1` holds one row per
      stored id in that range whose date lies in `lo` .. `hi`. */
  lemma {:induction false} DescWindowSize(m: map<int, Row>, a: int, b: int, lo: int, hi: int)
    ensures |InWindow(Desc(m, a, b), lo, hi)| == |set k | k in m && a <= k < b && lo <= m[k].day <= hi|
    decreases b - a
  {
    var s := set k | k in m && a <= k < b && lo <= m[k].day <= hi;
    if a < b {
      var s' := set k | k in m && a + 1 <= k < b && lo <= m[k].day <= hi;
      var last := if a in m then [m[a]] else [];
      DescWindowSize(m, a + 1, b, lo, hi);
      InWindowAppend(Desc(m, a + 1, b), last, lo, hi);
      if a in m && lo <= m[a].day <= hi {
        assert s == s' + {a};
      } else {
        assert s == s';
      }
    } else {
      assert s == {};
    }
  }

  class Database {
    var records: map<int, Row>
    var nextId: int
    var shifts: seq<Shift>
    var tasks: seq<Task>
    var clock: nat

    /** Ids are below `nextId` and agree with their keys, a row inserted later
        has a later stamp, every stamp lies in the past, and shifts and tasks
        carry the ids 1, 2, ... in list order. */
    ghost predicate Valid()
      reads this
    {
      && RecordsValid(records, nextId, clock)
      && (forall i :: 0 <= i < |shifts| ==> shifts[i].id == i + 1 && shifts[i].createdAt < clock)
      && CreatedInOrder(shifts)
      && (forall i :: 0 <= i < |tasks| ==> tasks[i].id == i + 1)
    }

    /** A store whose tables are empty. */
    constructor ()
      ensures Valid()
      ensures records == map[] && shifts == [] && tasks == [] && nextId == 1 && clock == 0
    {
      records := map[];
      nextId := 1;
      shifts := [];
      tasks := [];
      clock := 0;
    }

    // -------------------------------------------------------------------
    // Performance records

    /** `save_record(record_data, record_id)` on the day `today`: an update of
        the fourteen columns when `record_id` is truthy, else an insert under
        a fresh id. */
    method SaveRecord(d: RecordData, recordId: Option<int>, today: int)
      requires Valid()
      modifies this
      ensures Valid()
      ensures records == Upsert(old(records), old(nextId), old(clock), d, recordId, today)
      ensures IsUpdate(recordId) ==> nextId == old(nextId) && clock == old(clock)
      ensures !IsUpdate(recordId) ==> nextId == old(nextId) + 1 && clock == old(clock) + 1
      ensures !IsUpdate(recordId) ==> old(nextId) !in old(records) && |records| == |old(records)| + 1
      ensures !IsUpdate(recordId) ==>
                GetRecordById(old(nextId)).Some? && FlatFields(GetRecordById(old(nextId)).value) == Some(d)
      ensures shifts == old(shifts) && tasks == old(tasks)
    {
      if IsUpdate(recordId) {
        var id := recordId.value;
        if id in records {
          RewriteKeepsValid(records, nextId, clock, id, WithRecordData(records[id], d));
        }
        records := Overwrite(records, id, d);
      } else {
        var row := FlatRow(nextId, d, clock, today);
        InsertKeepsValid(records, nextId, clock, row);
        records := records[nextId := row];
        nextId := nextId + 1;
        clock := clock + 1;
      }
    }

    /** `get_record_by_id`: the row stored under `id`, if any. */
    function GetRecordById(id: int): (r: Option<Row>)
      reads this
      requires Valid()
      ensures r.Some? <==> id in records
      ensures r.Some? ==> r.value.id == id && r.value == records[id]
    {
      if id in records then Some(records[id]) else None
    }

    /** `delete_record`: removes that row and no other; an absent id is a
        no-op, so deleting twice is deleting once. */
    method DeleteRecord(id: int)
      requires Valid()
      modifies this
      ensures Valid()
      ensures records == old(records) - {id}
      ensures id !in records && GetRecordById(id).None?
      ensures id !in old(records) ==> records == old(records)
      ensures nextId == old(nextId) && clock == old(clock) && shifts == old(shifts) && tasks == old(tasks)
    {
      records := records - {id};
    }

    /** `get_all_records`: every stored row exactly once, newest first. */
    function GetAllRecords(): (all: seq<Row>)
      reads this
      requires Valid()
      ensures forall r :: r in all <==> r.id in records && records[r.id] == r
      ensures forall i, j :: 0 <= i < j < |all| ==> all[i].createdAt > all[j].createdAt
    {
      DescSpec(records, 1, nextId);
      Desc(records, 1, nextId)
    }

    /** The rows with `lo <= date(created_at) <= hi`. */
    function Window(lo: int, hi: int): (w: seq<Row>)
      reads this
      requires Valid()
      ensures forall r :: r in w <==> r.id in records && records[r.id] == r && lo <= r.day <= hi
    {
      InWindowCounts(GetAllRecords(), lo, hi);
      InWindow(GetAllRecords(), lo, hi)
    }

    /** The window holds exactly one row per stored record dated in it. */
    lemma WindowSize(lo: int, hi: int)
      requires Valid()
      ensures |Window(lo, hi)| == |set k | k in records && lo <= records[k].day <= hi|
    {
      DescWindowSize(records, 1, nextId, lo, hi);
      assert (set k | k in records && 1 <= k < nextId && lo <= records[k].day <= hi)
          == (set k | k in records && lo <= records[k].day <= hi);
    }

    /** The window is empty exactly when no stored row falls in it. */
    lemma WindowEmpty(lo: int, hi: int)
      requires Valid()
      ensures Window(lo, hi) == [] <==> forall k :: k in records ==> !(lo <= records[k].day <= hi)
    {
      var w := Window(lo, hi);
      if w != [] {
        assert w[0] in w;
      }
      forall k | k in records && lo <= records[k].day <= hi
        ensures records[k] in w
      {
        assert records[records[k].id] == records[k];
      }
    }

    /** `insert_record(data, metrics)`: looks up or creates the task, then
        inserts a row linked to it. */
    method InsertRecord(f: TaskForm, m: WorkMetrics, today: int)
      requires Valid()
      modifies this
      ensures Valid()
      ensures tasks == WithTask(old(tasks), f.taskName, f.targetTime)
      ensures FirstMatch(tasks, f.taskName, f.targetTime).Some?
      ensures records == old(records)[old(nextId) := LinkedRow(old(nextId),
                FirstMatch(tasks, f.taskName, f.targetTime).value, f, m, old(clock), today)]
      ensures old(nextId) !in old(records)
      ensures nextId == old(nextId) + 1 && clock == old(clock) + 1 && shifts == old(shifts)
    {
      var taskId := GetOrCreateTask(f.taskName, f.targetTime);
      var row := LinkedRow(nextId, taskId, f, m, clock, today);
      InsertKeepsValid(records, nextId, clock, row);
      records := records[nextId := row];
      nextId := nextId + 1;
      clock := clock + 1;
    }

    /** `update_record(record_id, data, metrics)`. */
    method UpdateRecord(id: int, f: TaskForm, m: WorkMetrics)
      requires Valid()
      modifies this
      ensures Valid()
      ensures records == OverwriteLinked(old(records), id, f, m)
      ensures nextId == old(nextId) && clock == old(clock) && shifts == old(shifts) && tasks == old(tasks)
    {
      if id in records {
        RewriteKeepsValid(records, nextId, clock, id, WithLinkedColumns(records[id], f, m));
      }
      records := OverwriteLinked(records, id, f, m);
    }

    // -------------------------------------------------------------------
    // Shifts

    /** `start_shift(start_time, skill)`: always appends an open shift, even
        when another one is open. */
    method StartShift(startTime: string, skill: string)
      requires Valid()
      modifies this
      ensures Valid()
      ensures shifts == old(shifts) + [Shift(|old(shifts)| + 1, startTime, None, skill, old(clock))]
      ensures GetCurrentShift() == Some(shifts[|shifts| - 1])
      ensures clock == old(clock) + 1
      ensures records == old(records) && nextId == old(nextId) && tasks == old(tasks)
    {
      LaterClockKeepsValid(records, nextId, clock);
      shifts := shifts + [Shift(|shifts| + 1, startTime, None, skill, clock)];
      clock := clock + 1;
      assert NewestOpen(shifts) == Some(|shifts| - 1);
    }

    /** `finish_shift(end_time)`: closes the newest open shift only; with no
        open shift nothing changes. */
    method FinishShift(endTime: string)
      requires Valid()
      modifies this
      ensures Valid()
      ensures shifts == Finish(old(shifts), endTime)
      ensures old(GetCurrentShift()).None? ==> shifts == old(shifts)
      ensures records == old(records) && nextId == old(nextId) && clock == old(clock) && tasks == old(tasks)
    {
      shifts := Finish(shifts, endTime);
    }

    /** `get_current_shift`: the open shift created last, or none when every
        shift is closed. */
    function GetCurrentShift(): (r: Option<Shift>)
      reads this
      requires Valid()
      ensures r.None? <==> forall x :: x in shifts ==> x.endTime.Some?
      ensures r.Some? ==> r.value in shifts && r.value.endTime.None?
      ensures r.Some? ==> forall x :: x in shifts && x.endTime.None? ==> x.createdAt <= r.value.createdAt
    {
      NewestOpenIsNewest(shifts);
      match NewestOpen(shifts)
      case None => None
      case Some(i) => Some(shifts[i])
    }

    /** `get_shift_history`: the closed shifts, newest first. */
    function GetShiftHistory(): (h: seq<Shift>)
      reads this
      requires Valid()
      ensures forall x :: x in h <==> x in shifts && x.endTime.Some?
      ensures forall i, j :: 0 <= i < j < |h| ==> h[i].createdAt > h[j].createdAt
    {
      ClosedNewestFirstSorted(shifts);
      ClosedNewestFirst(shifts)
    }

    // -------------------------------------------------------------------
    // Tasks

    /** `get_task_by_name(name, target_time)`: the id of a task with exactly
        that pair, or none. */
    function GetTaskByName(name: string, targetTime: real): (r: Option<int>)
      reads this
      requires Valid()
      ensures r.Some? ==> exists i :: 0 <= i < |tasks| && tasks[i].id == r.value && Matches(tasks[i], name, targetTime)
      ensures r.None? <==> forall i :: 0 <= i < |tasks| ==> !Matches(tasks[i], name, targetTime)
    {
      FirstMatch(tasks, name, targetTime)
    }

    /** `create_task(name, target_time)` returning the id of the new task. */
    method CreateTask(name: string, targetTime: real) returns (id: int)
      requires Valid()
      modifies this
      ensures Valid()
      ensures tasks == old(tasks) + [Task(|old(tasks)| + 1, name, targetTime)]
      ensures id == tasks[|tasks| - 1].id && Matches(tasks[|tasks| - 1], name, targetTime)
      ensures records == old(records) && nextId == old(nextId) && clock == old(clock) && shifts == old(shifts)
    {
      id := |tasks| + 1;
      tasks := tasks + [Task(id, name, targetTime)];
    }

    /** `create_task` as written: the task is inserted, but the id it returns
        is `last_insert_rowid()` asked on a new connection, which is 0, and no
        task has id 0. */
    method CreateTaskAsWritten(name: string, targetTime: real) returns (id: int)
      requires Valid()
      modifies this
      ensures Valid()
      ensures tasks == old(tasks) + [Task(|old(tasks)| + 1, name, targetTime)]
      ensures id == 0 && forall i :: 0 <= i < |tasks| ==> tasks[i].id != id
      ensures records == old(records) && nextId == old(nextId) && clock == old(clock) && shifts == old(shifts)
    {
      tasks := tasks + [Task(|tasks| + 1, name, targetTime)];
      id := 0;
    }

    /** `get_or_create_task(name, target_time)`: the id of the task with that
        pair, created when there is none. */
    method GetOrCreateTask(name: string, targetTime: real) returns (id: int)
      requires Valid()
      modifies this
      ensures Valid()
      ensures tasks == WithTask(old(tasks), name, targetTime)
      ensures FirstMatch(tasks, name, targetTime) == Some(id)
      ensures old(FirstMatch(tasks, name, targetTime)).Some? ==> id == old(FirstMatch(tasks, name, targetTime)).value
      ensures records == old(records) && nextId == old(nextId) && clock == old(clock) && shifts == old(shifts)
    {
      var found := GetTaskByName(name, targetTime);
      if found.Some? {
        id := found.value;
      } else {
        ghost var before := tasks;
        id := CreateTask(name, targetTime);
        FirstMatchAppend(before, Task(id, name, targetTime), name, targetTime);
      }
    }

    /** `get_or_create_task` over the `create_task` as written: a new task is
        reported as 0. */
    method GetOrCreateTaskAsWritten(name: string, targetTime: real) returns (id: int)
      requires Valid()
      modifies this
      ensures Valid()
      ensures tasks == WithTask(old(tasks), name, targetTime)
      ensures old(FirstMatch(tasks, name, targetTime)).Some? ==> id == old(FirstMatch(tasks, name, targetTime)).value
      ensures old(FirstMatch(tasks, name, targetTime)).None? ==> id == 0
      ensures records == old(records) && nextId == old(nextId) && clock == old(clock) && shifts == old(shifts)
    {
      var found := GetTaskByName(name, targetTime);
      if found.Some? {
        id := found.value;
      } else {
        id := CreateTaskAsWritten(name, targetTime);
      }
    }

    // -------------------------------------------------------------------
    // Statistics

    /** `get_daily_stats(date)`: the aggregates of that day's rows with every
        NULL replaced by 0. */
    method GetDailyStats(date: int) returns (stats: map<Column, Option<real>>)
      requires Valid()
      ensures stats.Keys == DailyColumns
      ensures forall c :: c in stats ==> stats[c] == Some(Aggregate(Window(date, date), c).GetOr(0.0))
      ensures stats[TotalRecords] == Some(|set k | k in records && records[k].day == date| as real)
      ensures (forall k :: k in records ==> records[k].day != date) ==>
                forall c :: c in stats ==> stats[c] == Some(0.0)
      ensures (exists k :: k in records && records[k].day == date) ==>
                stats[WorstPerformance].value <= stats[AvgPerformance].value <= stats[BestPerformance].value
    {
      WindowEmpty(date, date);
      WindowSize(date, date);
      assert (set k | k in records && date <= records[k].day <= date) == (set k | k in records && records[k].day == date);
      stats := Summarize(Window(date, date), DailyColumns);
    }

    /** `get_stats_for_date_range(start_date, end_date)`: the aggregates of
        the rows of the inclusive date range, NULLs replaced by 0. */
    method GetStatsForDateRange(lo: int, hi: int) returns (stats: map<Column, Option<real>>)
      requires Valid()
      ensures stats.Keys == RangeColumns
      ensures forall c :: c in stats ==> stats[c] == Some(Aggregate(Window(lo, hi), c).GetOr(0.0))
      ensures stats[TotalRecords] == Some(|set k | k in records && lo <= records[k].day <= hi| as real)
      ensures (forall k :: k in records ==> !(lo <= records[k].day <= hi)) ==>
                forall c :: c in stats ==> stats[c] == Some(0.0)
      ensures (exists k :: k in records && lo <= records[k].day <= hi) ==>
                stats[WorstPerformance].value <= stats[AvgPerformance].value <= stats[BestPerformance].value
      ensures stats[ActiveDays].value <= stats[TotalRecords].value
      ensures lo <= hi ==> stats[ActiveDays].value <= (hi - lo + 1) as real
    {
      WindowEmpty(lo, hi);
      WindowSize(lo, hi);
      stats := SummarizeRange(Window(lo, hi), lo, hi);
    }

    /** `get_weekly_stats(week_start)`: the same aggregates over the seven days
        `week_start` .. `week_start + 6`. */
    method GetWeeklyStats(weekStart: int) returns (stats: map<Column, Option<real>>)
      requires Valid()
      ensures stats.Keys == RangeColumns
      ensures forall c :: c in stats ==> stats[c] == Some(Aggregate(Window(weekStart, weekStart + 6), c).GetOr(0.0))
      ensures stats[TotalRecords] == Some(|set k | k in records && weekStart <= records[k].day <= weekStart + 6| as real)
      ensures (forall k :: k in records ==> !(weekStart <= records[k].day <= weekStart + 6)) ==>
                forall c :: c in stats ==> stats[c] == Some(0.0)
      ensures (exists k :: k in records && weekStart <= records[k].day <= weekStart + 6) ==>
                stats[WorstPerformance].value <= stats[AvgPerformance].value <= stats[BestPerformance].value
      ensures stats[ActiveDays].value <= 7.0
      ensures stats[ActiveDays].value <= stats[TotalRecords].value
    {
      WindowEmpty(weekStart, weekStart + 6);
      WindowSize(weekStart, weekStart + 6);
      stats := SummarizeRange(Window(weekStart, weekStart + 6), weekStart, weekStart + 6);
    }
  }

  // ---------------------------------------------------------------------
  // Scenarios

  /** Two starts and one finish: the finish closes the second shift and the
      first is left open and becomes the current shift. */
  method StrandedShiftScenario() returns (db: Database)
    ensures db.Valid()
    ensures db.shifts == [Shift(1, "08:00", None, "Picker", 0), Shift(2, "09:00", Some("17:00"), "Picker", 1)]
    ensures db.GetCurrentShift() == Some(Shift(1, "08:00", None, "Picker", 0))
    ensures db.GetShiftHistory() == [Shift(2, "09:00", Some("17:00"), "Picker", 1)]
  {
    db := new Database();
    db.StartShift("08:00", "Picker");
    db.StartShift("09:00", "Picker");
    var first, second := Shift(1, "08:00", None, "Picker", 0), Shift(2, "09:00", None, "Picker", 1);
    assert db.shifts == [first, second];
    assert NewestOpen([first, second]) == Some(1);
    db.FinishShift("17:00");
    var closed := second.(endTime := Some("17:00"));
    assert db.shifts == [first, closed];
    assert [first, closed][..1] == [first];
    assert NewestOpen([first]) == Some(0);
    assert NewestOpen([first, closed]) == Some(0);
    assert ClosedNewestFirst([first]) == [];
  }

  /** With the `create_task` as written, asking twice for the same new task
      yields 0 and then 1: the first record would be linked to no task. */
  method TaskIdLostScenario() returns (first: int, second: int)
    ensures first == 0 && second == 1
  {
    var db := new Database();
    first := db.GetOrCreateTaskAsWritten("Pick", 30.0);
    second := db.GetOrCreateTaskAsWritten("Pick", 30.0);
  }

  /** With the corrected `create_task`, both requests yield the id of the one
      task created. */
  method TaskIdStableScenario() returns (first: int, second: int)
    ensures first == 1 && second == 1
  {
    var db := new Database();
    first := db.GetOrCreateTask("Pick", 30.0);
    second := db.GetOrCreateTask("Pick", 30.0);
  }
}
