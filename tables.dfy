/** The rows of the tracker's three tables (performance records, shifts,
    tasks) and the pure functions over them that the database's statements
    amount to: the upsert of a record, the listing newest first, the choice of
    the shift that a finish closes, the task lookup and its deduplication, and
    the two shift-duration helpers. */
module Tables {
  import opened Wrappers
  import Clock

  // ---------------------------------------------------------------------
  // Performance records

  /** The fourteen values `save_record` writes (its `record_data` dict). */
  datatype RecordData = RecordData(
    taskName: string,
    targetTime: real,
    actualTime: real,
    performancePercentage: real,
    startTime: string,
    endTime: string,
    breakTime: real,
    hasBreak: bool,
    delaysTime: real,
    hasDelays: bool,
    delayNotes: string,
    skill: string,
    paidBreakTime: real,
    unpaidBreakTime: real)

  /** The `data` dict that `insert_record` and `update_record` read. */
  datatype TaskForm = TaskForm(
    taskName: string,
    targetTime: real,
    startTime: string,
    finishTime: string,
    breakType: Option<string>,
    delaysTime: real,
    hasDelays: bool,
    delayNotes: string,
    batteryCount: int,
    paidBreakTime: real,
    unpaidBreakTime: real)

  /** The `metrics` dict that `insert_record` and `update_record` read. */
  datatype WorkMetrics = WorkMetrics(actualWorkTime: real, performance: real)

  /** One row of `performance_records`. It has every column either writer
      names: `save_record` fills the task name, target, has_break and skill;
      `insert_record` fills the task id, break type and battery columns; a
      column a writer leaves out keeps its SQL default (NULL, or false for
      has_break). `createdAt` orders rows by insertion and `day` is
      `date(created_at)`. */
  datatype Row = Row(
    id: int,
    taskName: Option<string>,
    targetTime: Option<real>,
    taskId: Option<int>,
    actualTime: real,
    performancePercentage: real,
    startTime: string,
    endTime: string,
    breakType: Option<string>,
    breakTime: real,
    hasBreak: bool,
    delaysTime: real,
    hasDelays: bool,
    delayNotes: string,
    skill: Option<string>,
    batteryChangesCount: Option<int>,
    batteryChangesTime: Option<int>,
    paidBreakTime: real,
    unpaidBreakTime: real,
    createdAt: nat,
    day: int)

  /** The fourteen `save_record` columns of a row, when all of them are set. */
  function FlatFields(r: Row): Option<RecordData> {
    if r.taskName.Some? && r.targetTime.Some? && r.skill.Some? then
      Some(RecordData(r.taskName.value, r.targetTime.value, r.actualTime, r.performancePercentage,
                      r.startTime, r.endTime, r.breakTime, r.hasBreak, r.delaysTime, r.hasDelays,
                      r.delayNotes, r.skill.value, r.paidBreakTime, r.unpaidBreakTime))
    else None
  }

  /** The row the INSERT of `save_record` creates. */
  function FlatRow(id: int, d: RecordData, createdAt: nat, day: int): (r: Row)
    ensures FlatFields(r) == Some(d)
    ensures r.id == id && r.createdAt == createdAt && r.day == day
    ensures r.taskId.None? && r.breakType.None? && r.batteryChangesCount.None? && r.batteryChangesTime.None?
  {
    Row(id, Some(d.taskName), Some(d.targetTime), None, d.actualTime, d.performancePercentage,
        d.startTime, d.endTime, None, d.breakTime, d.hasBreak, d.delaysTime, d.hasDelays,
        d.delayNotes, Some(d.skill), None, None, d.paidBreakTime, d.unpaidBreakTime, createdAt, day)
  }

  /** The row after the UPDATE of `save_record`: its fourteen columns are set,
      every other column (id, task link, battery, creation) is kept. */
  function WithRecordData(r: Row, d: RecordData): (r': Row)
    ensures FlatFields(r') == Some(d)
    ensures r'.id == r.id && r'.createdAt == r.createdAt && r'.day == r.day
    ensures r'.taskId == r.taskId && r'.breakType == r.breakType
    ensures r'.batteryChangesCount == r.batteryChangesCount && r'.batteryChangesTime == r.batteryChangesTime
  {
    r.(taskName := Some(d.taskName), targetTime := Some(d.targetTime), actualTime := d.actualTime,
       performancePercentage := d.performancePercentage, startTime := d.startTime, endTime := d.endTime,
       breakTime := d.breakTime, hasBreak := d.hasBreak, delaysTime := d.delaysTime,
       hasDelays := d.hasDelays, delayNotes := d.delayNotes, skill := Some(d.skill),
       paidBreakTime := d.paidBreakTime, unpaidBreakTime := d.unpaidBreakTime)
  }

  /** `if record_id:` in `save_record`: Python's truthiness sends None and 0
      to the INSERT branch and every other id to the UPDATE branch. */
  predicate IsUpdate(recordId: Option<int>) {
    recordId.Some? && recordId.value != 0
  }

  /** `UPDATE ... WHERE id=?`: only that row changes; an absent id changes
      nothing and is not an error. */
  function Overwrite(m: map<int, Row>, id: int, d: RecordData): (m': map<int, Row>)
    ensures m'.Keys == m.Keys
    ensures forall k :: k in m && k != id ==> m'[k] == m[k]
    ensures id in m ==> m'[id] == WithRecordData(m[id], d)
    ensures id !in m ==> m' == m
  {
    if id in m then m[id := WithRecordData(m[id], d)] else m
  }

  /** The record table after `save_record(d, recordId)`, where `nextId` is the
      id AUTOINCREMENT hands out next and `stamp`, `day` the creation time. */
  function Upsert(m: map<int, Row>, nextId: int, stamp: nat, d: RecordData, recordId: Option<int>, day: int): (m': map<int, Row>)
    ensures IsUpdate(recordId) ==> m' == Overwrite(m, recordId.value, d)
    ensures !IsUpdate(recordId) ==> m'.Keys == m.Keys + {nextId}
    ensures !IsUpdate(recordId) ==> FlatFields(m'[nextId]) == Some(d) && m'[nextId].id == nextId
    ensures !IsUpdate(recordId) ==> m'[nextId].createdAt == stamp && m'[nextId].day == day
    ensures !IsUpdate(recordId) ==> forall k :: k in m && k != nextId ==> m'[k] == m[k]
    ensures !IsUpdate(recordId) && nextId !in m ==> |m'| == |m| + 1
  {
    if IsUpdate(recordId) then Overwrite(m, recordId.value, d)
    else m[nextId := FlatRow(nextId, d, stamp, day)]
  }

  /** `break_time` of `insert_record`/`update_record`: 15 minutes for the break
      type 'break', 30 for 'lunch', 0 for anything else and for no type. */
  function BreakMinutes(breakType: Option<string>): (r: int)
    ensures r == 15 <==> breakType == Some("break")
    ensures r == 30 <==> breakType == Some("lunch")
    ensures r == 0 <==> breakType != Some("break") && breakType != Some("lunch")
  {
    if breakType == Some("break") then 15 else if breakType == Some("lunch") then 30 else 0
  }

  /** Minutes booked per battery change. */
  const BatteryChangeMinutes: int := 9

  /** The thirteen columns `insert_record` and `update_record` both write hold
      the metrics and the form: work and performance from the metrics,
      `end_time` from the form's finish time, the break minutes of the break
      type, and nine minutes per battery change. */
  predicate HoldsLinkedColumns(r: Row, f: TaskForm, m: WorkMetrics) {
    && r.actualTime == m.actualWorkTime && r.performancePercentage == m.performance
    && r.startTime == f.startTime && r.endTime == f.finishTime
    && r.breakType == f.breakType && r.breakTime == BreakMinutes(f.breakType) as real
    && r.delaysTime == f.delaysTime && r.hasDelays == f.hasDelays && r.delayNotes == f.delayNotes
    && r.batteryChangesCount == Some(f.batteryCount)
    && r.batteryChangesTime == Some(f.batteryCount * BatteryChangeMinutes)
    && r.paidBreakTime == f.paidBreakTime && r.unpaidBreakTime == f.unpaidBreakTime
  }

  /** The row the INSERT of `insert_record` creates for task `taskId`; the
      columns it does not name keep their defaults. */
  function LinkedRow(id: int, taskId: int, f: TaskForm, m: WorkMetrics, createdAt: nat, day: int): (r: Row)
    ensures r.id == id && r.taskId == Some(taskId) && r.createdAt == createdAt && r.day == day
    ensures HoldsLinkedColumns(r, f, m)
    ensures r.taskName.None? && r.targetTime.None? && r.skill.None? && !r.hasBreak
    ensures FlatFields(r).None?
  {
    Row(id, None, None, Some(taskId), m.actualWorkTime, m.performance, f.startTime, f.finishTime,
        f.breakType, BreakMinutes(f.breakType) as real, false, f.delaysTime, f.hasDelays, f.delayNotes,
        None, Some(f.batteryCount), Some(f.batteryCount * BatteryChangeMinutes),
        f.paidBreakTime, f.unpaidBreakTime, createdAt, day)
  }

  /** The row after the UPDATE of `update_record`; the task link, task name,
      target, has_break, skill and creation are kept. */
  function WithLinkedColumns(r: Row, f: TaskForm, m: WorkMetrics): (r': Row)
    ensures r'.id == r.id && r'.taskId == r.taskId && r'.createdAt == r.createdAt && r'.day == r.day
    ensures r'.taskName == r.taskName && r'.targetTime == r.targetTime && r'.skill == r.skill
    ensures r'.hasBreak == r.hasBreak
    ensures HoldsLinkedColumns(r', f, m)
  {
    r.(actualTime := m.actualWorkTime, performancePercentage := m.performance,
       startTime := f.startTime, endTime := f.finishTime, breakType := f.breakType,
       breakTime := BreakMinutes(f.breakType) as real, delaysTime := f.delaysTime,
       hasDelays := f.hasDelays, delayNotes := f.delayNotes,
       batteryChangesCount := Some(f.batteryCount),
       batteryChangesTime := Some(f.batteryCount * BatteryChangeMinutes),
       paidBreakTime := f.paidBreakTime, unpaidBreakTime := f.unpaidBreakTime)
  }

  /** Updating a row that `insert_record` created gives the row that
      inserting the new form and metrics would have created, under the same
      id, task and creation time. */
  lemma UpdateOfInsertedRow(id: int, taskId: int, f: TaskForm, m: WorkMetrics, f': TaskForm, m': WorkMetrics, createdAt: nat, day: int)
    ensures WithLinkedColumns(LinkedRow(id, taskId, f, m, createdAt, day), f', m') == LinkedRow(id, taskId, f', m', createdAt, day)
  {
  }

  /** The row is determined by what the update keeps and the columns it
      writes: any row with the kept columns of `r` that holds the form and
      metrics is the updated row. */
  lemma LinkedColumnsDetermineRow(r: Row, f: TaskForm, m: WorkMetrics, s: Row)
    requires s.id == r.id && s.taskId == r.taskId && s.createdAt == r.createdAt && s.day == r.day
    requires s.taskName == r.taskName && s.targetTime == r.targetTime && s.skill == r.skill && s.hasBreak == r.hasBreak
    requires HoldsLinkedColumns(s, f, m)
    ensures s == WithLinkedColumns(r, f, m)
  {
  }

  /** `UPDATE performance_records SET ... WHERE id = ?` of `update_record`:
      only that row changes; an absent id changes nothing. */
  function OverwriteLinked(m: map<int, Row>, id: int, f: TaskForm, w: WorkMetrics): (m': map<int, Row>)
    ensures m'.Keys == m.Keys
    ensures forall k :: k in m && k != id ==> m'[k] == m[k]
    ensures id in m ==> m'[id] == WithLinkedColumns(m[id], f, w)
    ensures id !in m ==> m' == m
  {
    if id in m then m[id := WithLinkedColumns(m[id], f, w)] else m
  }

  /** Every row is stored under its own id. */
  ghost predicate IdsAgree(m: map<int, Row>) {
    forall k :: k in m ==> m[k].id == k
  }

  /** A higher id was inserted later. */
  ghost predicate StampsFollowIds(m: map<int, Row>) {
    forall a, b :: a in m && b in m && a < b ==> m[a].createdAt < m[b].createdAt
  }

  /** The rows with ids in [lo, hi), highest id first. */
  function Desc(m: map<int, Row>, lo: int, hi: int): seq<Row>
    decreases hi - lo
  {
    if lo >= hi then [] else Desc(m, lo + 1, hi) + (if lo in m then [m[lo]] else [])
  }

  /** `Desc` lists exactly the rows with ids in the range, newest first. */
  lemma {:induction false} DescSpec(m: map<int, Row>, lo: int, hi: int)
    requires IdsAgree(m) && StampsFollowIds(m)
    ensures forall r :: r in Desc(m, lo, hi) <==> r.id in m && m[r.id] == r && lo <= r.id < hi
    ensures forall i, j :: 0 <= i < j < |Desc(m, lo, hi)| ==>
              Desc(m, lo, hi)[i].id > Desc(m, lo, hi)[j].id &&
              Desc(m, lo, hi)[i].createdAt > Desc(m, lo, hi)[j].createdAt
    decreases hi - lo
  {
    if lo < hi {
      DescSpec(m, lo + 1, hi);
      var rest := Desc(m, lo + 1, hi);
      var tail: seq<Row> := if lo in m then [m[lo]] else [];
      assert Desc(m, lo, hi) == rest + tail;
      forall i, j | 0 <= i < j < |rest + tail|
        ensures (rest + tail)[i].id > (rest + tail)[j].id
        ensures (rest + tail)[i].createdAt > (rest + tail)[j].createdAt
      {
        if j >= |rest| {
          assert (rest + tail)[j] == m[lo];
          assert rest[i] in rest;
        }
      }
    }
  }

  // ---------------------------------------------------------------------
  // Shifts

  /** One row of `shifts`; an absent `endTime` is an open shift. */
  datatype Shift = Shift(id: int, startTime: string, endTime: Option<string>, skill: string, createdAt: nat)

  /** The position of the newest open shift (`WHERE end_time IS NULL ORDER BY
      created_at DESC LIMIT 1`), the shifts being in creation order. */
  function NewestOpen(s: seq<Shift>): (r: Option<nat>)
    ensures r.Some? ==> r.value < |s| && s[r.value].endTime.None?
    ensures r.Some? ==> forall k :: r.value < k < |s| ==> s[k].endTime.Some?
    ensures r.None? ==> forall k :: 0 <= k < |s| ==> s[k].endTime.Some?
  {
    if s == [] then None
    else if s[|s| - 1].endTime.None? then Some(|s| - 1)
    else NewestOpen(s[..|s| - 1])
  }

  /** The shifts after `finish_shift(endTime)`: the newest open shift gets the
      end time, every other shift is left as it was. */
  function Finish(s: seq<Shift>, endTime: string): (s': seq<Shift>)
    ensures |s'| == |s|
    ensures forall k :: 0 <= k < |s| && (s[k].endTime.Some? || exists j :: k < j < |s| && s[j].endTime.None?) ==>
              s'[k] == s[k]
    ensures forall k :: 0 <= k < |s| && s[k].endTime.None? && (forall j :: k < j < |s| ==> s[j].endTime.Some?) ==>
              s'[k] == s[k].(endTime := Some(endTime))
    ensures forall k :: 0 <= k < |s| ==> s'[k] == s[k].(endTime := s'[k].endTime)
  {
    match NewestOpen(s)
    case None => s
    case Some(i) => s[i := s[i].(endTime := Some(endTime))]
  }

  /** The shift `NewestOpen` picks is, among the open shifts, the one created
      last. */
  lemma NewestOpenIsNewest(s: seq<Shift>)
    requires CreatedInOrder(s)
    ensures NewestOpen(s).Some? ==>
              forall x :: x in s && x.endTime.None? ==> x.createdAt <= s[NewestOpen(s).value].createdAt
  {
    if NewestOpen(s).Some? {
      var i := NewestOpen(s).value;
      forall x | x in s && x.endTime.None?
        ensures x.createdAt <= s[i].createdAt
      {
        var k :| 0 <= k < |s| && s[k] == x;
        assert k <= i;
      }
    }
  }

  /** Two starts and one finish: the finish closes the second shift and the
      first one stays open, now the newest open shift. */
  lemma {:induction false} SecondStartStrandsFirst(s: seq<Shift>, first: Shift, second: Shift, endTime: string)
    requires first.endTime.None? && second.endTime.None?
    ensures var f := Finish(s + [first, second], endTime);
      && f[..|s|] == s
      && f[|s|] == first
      && f[|s| + 1] == second.(endTime := Some(endTime))
      && NewestOpen(f) == Some(|s|)
  {
    var t := s + [first, second];
    var f := Finish(t, endTime);
    assert t[|s|] == first && t[|s| + 1] == second;
    forall k | 0 <= k < |s|
      ensures f[k] == s[k]
    {
      assert t[k] == s[k];
      if t[k].endTime.None? {
        assert |s| + 1 > k && t[|s| + 1].endTime.None?;
      }
    }
    assert f[|s|] == first by {
      assert |s| + 1 > |s| && t[|s| + 1].endTime.None?;
    }
    assert f[|s| + 1] == second.(endTime := Some(endTime));
    assert f[|s|].endTime.None?;
  }

  /** The closed shifts, newest first (`WHERE end_time IS NOT NULL ORDER BY
      created_at DESC`). */
  function ClosedNewestFirst(s: seq<Shift>): (h: seq<Shift>)
    ensures forall x :: x in h <==> x in s && x.endTime.Some?
  {
    if s == [] then []
    else
      var rest := ClosedNewestFirst(s[..|s| - 1]);
      assert forall x :: x in s <==> x in s[..|s| - 1] || x == s[|s| - 1];
      (if s[|s| - 1].endTime.Some? then [s[|s| - 1]] else []) + rest
  }

  /** Shifts were created in list order. */
  ghost predicate CreatedInOrder(s: seq<Shift>) {
    forall i, j :: 0 <= i < j < |s| ==> s[i].createdAt < s[j].createdAt
  }

  /** The history is strictly newest first. */
  lemma {:induction false} ClosedNewestFirstSorted(s: seq<Shift>)
    requires CreatedInOrder(s)
    ensures forall i, j :: 0 <= i < j < |ClosedNewestFirst(s)| ==>
              ClosedNewestFirst(s)[i].createdAt > ClosedNewestFirst(s)[j].createdAt
  {
    if s != [] {
      var init := s[..|s| - 1];
      ClosedNewestFirstSorted(init);
      var rest := ClosedNewestFirst(init);
      var head: seq<Shift> := if s[|s| - 1].endTime.Some? then [s[|s| - 1]] else [];
      assert ClosedNewestFirst(s) == head + rest;
      forall i, j | 0 <= i < j < |head + rest|
        ensures (head + rest)[i].createdAt > (head + rest)[j].createdAt
      {
        if i < |head| {
          var x := rest[j - |head|];
          assert x in rest;
          var k :| 0 <= k < |init| && init[k] == x;
          assert s[k] == x;
        }
      }
    }
  }

  // ---------------------------------------------------------------------
  // Tasks

  /** One row of `tasks`. */
  datatype Task = Task(id: int, name: string, targetTime: real)

  predicate Matches(t: Task, name: string, targetTime: real) {
    t.name == name && t.targetTime == targetTime
  }

  /** `SELECT id FROM tasks WHERE name = ? AND target_time = ?`, one row: the
      first match in table order. */
  function FirstMatch(ts: seq<Task>, name: string, targetTime: real): (r: Option<int>)
    ensures r.Some? ==> exists i :: 0 <= i < |ts| && ts[i].id == r.value && Matches(ts[i], name, targetTime)
    ensures r.None? <==> forall i :: 0 <= i < |ts| ==> !Matches(ts[i], name, targetTime)
  {
    if ts == [] then None
    else if Matches(ts[0], name, targetTime) then Some(ts[0].id)
    else
      var r := FirstMatch(ts[1..], name, targetTime);
      assert forall i :: 1 <= i < |ts| ==> ts[i] == ts[1..][i - 1];
      r
  }

  /** The task table after `get_or_create_task`: unchanged when the pair is
      present, otherwise one new task whose id is the next AUTOINCREMENT id. */
  function WithTask(ts: seq<Task>, name: string, targetTime: real): (r: seq<Task>)
    ensures |ts| <= |r| <= |ts| + 1 && r[..|ts|] == ts
    ensures |r| == |ts| <==> FirstMatch(ts, name, targetTime).Some?
    ensures |r| == |ts| + 1 ==> r[|ts|].id == |ts| + 1
    ensures FirstMatch(r, name, targetTime).Some?
  {
    if FirstMatch(ts, name, targetTime).Some? then ts
    else
      var t := Task(|ts| + 1, name, targetTime);
      FirstMatchAppend(ts, t, name, targetTime);
      ts + [t]
  }

  /** Appending a task to a table without a match: the lookup finds the new
      task exactly when it matches. */
  lemma {:induction false} FirstMatchAppend(ts: seq<Task>, t: Task, name: string, targetTime: real)
    requires FirstMatch(ts, name, targetTime).None?
    ensures FirstMatch(ts + [t], name, targetTime) == if Matches(t, name, targetTime) then Some(t.id) else None
  {
    if ts != [] {
      assert (ts + [t])[1..] == ts[1..] + [t];
      FirstMatchAppend(ts[1..], t, name, targetTime);
    }
  }

  /** The number of tasks with this (name, target_time). */
  function CountMatching(ts: seq<Task>, name: string, targetTime: real): nat {
    if ts == [] then 0
    else CountMatching(ts[..|ts| - 1], name, targetTime) + (if Matches(ts[|ts| - 1], name, targetTime) then 1 else 0)
  }

  lemma {:induction false} CountMatchingZero(ts: seq<Task>, name: string, targetTime: real)
    ensures CountMatching(ts, name, targetTime) == 0 <==> forall i :: 0 <= i < |ts| ==> !Matches(ts[i], name, targetTime)
  {
    if ts != [] {
      CountMatchingZero(ts[..|ts| - 1], name, targetTime);
      assert forall i :: 0 <= i < |ts| - 1 ==> ts[..|ts| - 1][i] == ts[i];
    }
  }

  /** `get_or_create_task` leaves at least one and never a new duplicate: the
      count of matching tasks becomes 1 when it was 0 and is otherwise kept. */
  lemma {:induction false} WithTaskCount(ts: seq<Task>, name: string, targetTime: real)
    ensures CountMatching(WithTask(ts, name, targetTime), name, targetTime) ==
            if CountMatching(ts, name, targetTime) == 0 then 1 else CountMatching(ts, name, targetTime)
  {
    CountMatchingZero(ts, name, targetTime);
    if FirstMatch(ts, name, targetTime).None? {
      var t := ts + [Task(|ts| + 1, name, targetTime)];
      assert t[..|t| - 1] == ts;
    }
  }

  /** Asking twice for the same pair creates at most one task. */
  lemma {:induction false} WithTaskIdempotent(ts: seq<Task>, name: string, targetTime: real)
    ensures WithTask(WithTask(ts, name, targetTime), name, targetTime) == WithTask(ts, name, targetTime)
  {
    var t := WithTask(ts, name, targetTime);
    if FirstMatch(ts, name, targetTime).None? {
      assert Matches(t[|ts|], name, targetTime);
    }
  }

  // ---------------------------------------------------------------------
  // Shift durations

  /** The dict the duration helpers read; a missing key is None. */
  datatype ShiftInfo = ShiftInfo(shiftStartTime: Option<string>, shiftEndTime: Option<string>)

  /** Python falsiness of an optional string: None or empty. */
  predicate Falsy(v: Option<string>) {
    v.None? || v.value == ""
  }

  /** `calculate_shift_duration`: end minus start in minutes, no day wrap,
      floored at 0; 0 when the dict or a time is missing or does not parse. */
  function ShiftDuration(info: Option<ShiftInfo>): (r: int)
    ensures 0 <= r < Clock.MinutesPerDay
    ensures r > 0 ==> info.Some? && info.value.shiftStartTime.Some? && info.value.shiftEndTime.Some?
    ensures info.Some? && info.value.shiftStartTime.Some? && info.value.shiftEndTime.Some? ==>
      var s, e := Clock.ParseHHMM(info.value.shiftStartTime.value), Clock.ParseHHMM(info.value.shiftEndTime.value);
      && (s.None? || e.None? ==> r == 0)
      && (s.Some? && e.Some? && e.value >= s.value ==> r == e.value - s.value)
      && (s.Some? && e.Some? && e.value < s.value ==> r == 0)
  {
    if info.None? || Falsy(info.value.shiftStartTime) || Falsy(info.value.shiftEndTime) then 0
    else
      match (Clock.ParseHHMM(info.value.shiftStartTime.value), Clock.ParseHHMM(info.value.shiftEndTime.value))
      case (Some(s), Some(e)) => if e - s > 0 then e - s else 0
      case _ => 0
  }

  /** `calculate_current_shift_duration`: the same rule with the current
      minute of the day as the end; the end time in the dict is ignored. */
  function CurrentShiftDuration(info: Option<ShiftInfo>, now: int): (r: int)
    requires 0 <= now < Clock.MinutesPerDay
    ensures 0 <= r <= now
    ensures info.Some? && info.value.shiftStartTime.Some? ==>
      var s := Clock.ParseHHMM(info.value.shiftStartTime.value);
      && (s.None? ==> r == 0)
      && (s.Some? ==> r == if now >= s.value then now - s.value else 0)
    ensures info.None? || info.value.shiftStartTime.None? ==> r == 0
  {
    if info.None? || Falsy(info.value.shiftStartTime) then 0
    else
      match Clock.ParseHHMM(info.value.shiftStartTime.value)
      case Some(s) => if now - s > 0 then now - s else 0
      case None => 0
  }

  /** The current duration is the closed duration with the current minute,
      zero-padded as strftime writes it, as the end time. */
  lemma CurrentIsClosedAtNow(info: ShiftInfo, now: int)
    requires 0 <= now < Clock.MinutesPerDay
    ensures CurrentShiftDuration(Some(info), now) ==
            ShiftDuration(Some(info.(shiftEndTime := Some(Clock.Format(now)))))
  {
    Clock.ParseFormat(now);
  }
}
