/** The four tables of the planner's store (task, habits, daily_plan,
    daily_review) as sequences of rows in rowid order, and what each SQL
    statement of database.cpp does to them, as functions on those sequences.
    The Database class in module Persistence applies these functions to its
    state; the lemmas here state what the statements guarantee. */
module Tables {
  import opened Wrappers

  /** A calendar day as a day number: later days are larger. The store keeps
      dates as ISO text, whose order is the calendar order. */
  type Date = int

  /** A row of table `task`. A cleared completed_date is None. */
  datatype Task = Task(id: int, name: string, createdDate: Date, dueDate: Option<Date>,
                       completedDate: Option<Date>, status: int)

  /** A row of table `habits`. */
  datatype Habit = Habit(id: int, name: string, createdDate: Date, frequency: string, status: int)

  /** A row of table `daily_plan`: slot `index` of the plan for `date`,
      referring to a task or a habit. */
  datatype PlanRow = PlanRow(id: int, taskId: Option<int>, habitId: Option<int>, date: Date,
                             name: string, index: int, status: int)

  /** A row of table `daily_review`. */
  datatype Review = Review(id: int, date: Date, reflection: string, summary: string)

  /** One item of a day's plan as getPlanByDate reports it. */
  datatype PlanData = PlanData(kind: string, name: string, status: int)

  /** A day's review as getReviewByDate reports it. */
  datatype ReviewData = ReviewData(reflection: string, summary: string)

  /** Completed and total plan items of one day (getPlanNumberByDate). */
  datatype Ratio = Ratio(completed: nat, total: nat)

  /** Plan-item kinds reported by getPlanByDate: "task" and "habit". */
  const TaskKind: string := "任务"
  const HabitKind: string := "习惯"

  const NoReview := ReviewData("", "")

  // ---------------------------------------------------------------------
  // Ids (INTEGER PRIMARY KEY AUTOINCREMENT)

  /** Ids handed out by AUTOINCREMENT with no row ever deleted: positive,
      increasing in rowid order, and below the next id to hand out. */
  ghost predicate AutoIds(ids: seq<int>, next: int) {
    && 0 < next
    && (forall i :: 0 <= i < |ids| ==> 0 < ids[i] < next)
    && (forall i, j :: 0 <= i < j < |ids| ==> ids[i] < ids[j])
  }

  // The id column of each of the four tables (task, habits, daily_plan,
  // daily_review), in rowid order.

  function TaskIds(tasks: seq<Task>): (ids: seq<int>)
    ensures |ids| == |tasks| && forall i :: 0 <= i < |tasks| ==> ids[i] == tasks[i].id
  {
    seq(|tasks|, i requires 0 <= i < |tasks| => tasks[i].id)
  }

  function HabitIds(habits: seq<Habit>): (ids: seq<int>)
    ensures |ids| == |habits| && forall i :: 0 <= i < |habits| ==> ids[i] == habits[i].id
  {
    seq(|habits|, i requires 0 <= i < |habits| => habits[i].id)
  }

  function PlanIds(rows: seq<PlanRow>): (ids: seq<int>)
    ensures |ids| == |rows| && forall i :: 0 <= i < |rows| ==> ids[i] == rows[i].id
  {
    seq(|rows|, i requires 0 <= i < |rows| => rows[i].id)
  }

  function ReviewIds(reviews: seq<Review>): (ids: seq<int>)
    ensures |ids| == |reviews| && forall i :: 0 <= i < |reviews| ==> ids[i] == reviews[i].id
  {
    seq(|reviews|, i requires 0 <= i < |reviews| => reviews[i].id)
  }

  /** Inserting a row with the next id keeps the ids autoincremented. */
  lemma AutoIdsAppend(ids: seq<int>, next: int)
    requires AutoIds(ids, next)
    ensures AutoIds(ids + [next], next + 1)
    ensures forall i :: 0 <= i < |ids| ==> ids[i] != next
  {
  }

  // ---------------------------------------------------------------------
  // Constraints of the schema and of the code that writes it

  /** CHECK of daily_plan: exactly one of task_id and habit_id is set. */
  predicate OneRef(row: PlanRow) {
    row.taskId.Some? != row.habitId.Some?
  }

  ghost predicate AllOneRef(rows: seq<PlanRow>) {
    forall i :: 0 <= i < |rows| ==> OneRef(rows[i])
  }

  /** UNIQUE of daily_review.review_date. */
  ghost predicate ReviewDatesUnique(reviews: seq<Review>) {
    forall i, j :: 0 <= i < j < |reviews| ==> reviews[i].date != reviews[j].date
  }

  predicate InSlot(row: PlanRow, date: Date, index: int) {
    row.date == date && row.index == index
  }

  /** At most one plan row per (plan_date, index_id). The schema does not
      declare it; the slot upserts keep it. */
  ghost predicate SlotsKeyed(rows: seq<PlanRow>) {
    forall i, j :: 0 <= i < j < |rows| ==> !(rows[i].date == rows[j].date && rows[i].index == rows[j].index)
  }

  // ---------------------------------------------------------------------
  // getTaskByStatus, getHabitByStatus

  /** The status selector: 0 selects every row, any other s the rows whose
      status is s - 1. */
  predicate Selects(selector: int, status: int) {
    selector == 0 || status == selector - 1
  }

  /** SELECT ... FROM task [WHERE status = selector - 1], in rowid order. */
  function TasksSelected(tasks: seq<Task>, selector: int): (r: seq<Task>)
    ensures |r| <= |tasks|
    ensures forall t :: t in r <==> t in tasks && Selects(selector, t.status)
  {
    if tasks == [] then []
    else
      var last := tasks[|tasks| - 1];
      assert tasks == tasks[..|tasks| - 1] + [last];
      TasksSelected(tasks[..|tasks| - 1], selector) + (if Selects(selector, last.status) then [last] else [])
  }

  /** Selector 0 returns the whole table, in order. */
  lemma {:induction false} TasksSelectedAll(tasks: seq<Task>)
    ensures TasksSelected(tasks, 0) == tasks
  {
    if tasks != [] {
      TasksSelectedAll(tasks[..|tasks| - 1]);
      assert tasks == tasks[..|tasks| - 1] + [tasks[|tasks| - 1]];
    }
  }

  /** SELECT ... FROM habits [WHERE status = selector - 1], in rowid order. */
  function HabitsSelected(habits: seq<Habit>, selector: int): (r: seq<Habit>)
    ensures |r| <= |habits|
    ensures forall h :: h in r <==> h in habits && Selects(selector, h.status)
  {
    if habits == [] then []
    else
      var last := habits[|habits| - 1];
      assert habits == habits[..|habits| - 1] + [last];
      HabitsSelected(habits[..|habits| - 1], selector) + (if Selects(selector, last.status) then [last] else [])
  }

  lemma {:induction false} HabitsSelectedAll(habits: seq<Habit>)
    ensures HabitsSelected(habits, 0) == habits
  {
    if habits != [] {
      HabitsSelectedAll(habits[..|habits| - 1]);
      assert habits == habits[..|habits| - 1] + [habits[|habits| - 1]];
    }
  }

  // ---------------------------------------------------------------------
  // getPlanByDate, getPlanNumberByDate

  /** How getPlanByDate reports one row: a task if task_id is set, else a
      habit if habit_id is set, else nothing. */
  function ItemOf(row: PlanRow): (p: Option<PlanData>)
    ensures p.Some? <==> row.taskId.Some? || row.habitId.Some?
    ensures p.Some? ==> p.value.name == row.name && p.value.status == row.status
    ensures p.Some? ==> (p.value.kind == TaskKind <==> row.taskId.Some?)
    ensures p.Some? ==> (p.value.kind == HabitKind <==> row.taskId.None?)
  {
    if row.taskId.Some? then Some(PlanData(TaskKind, row.name, row.status))
    else if row.habitId.Some? then Some(PlanData(HabitKind, row.name, row.status))
    else None
  }

  /** Number of plan rows for `date` (COUNT(*) of its group). */
  function CountOn(rows: seq<PlanRow>, date: Date): (n: nat)
    ensures n <= |rows|
    ensures n > 0 <==> exists i :: 0 <= i < |rows| && rows[i].date == date
  {
    if rows == [] then 0
    else
      var last := rows[|rows| - 1];
      assert rows == rows[..|rows| - 1] + [last];
      CountOn(rows[..|rows| - 1], date) + (if last.date == date then 1 else 0)
  }

  /** Number of plan rows for `date` whose status is 1, completed. */
  function CompletedOn(rows: seq<PlanRow>, date: Date): (n: nat)
    ensures n <= CountOn(rows, date)
  {
    if rows == [] then 0
    else
      var last := rows[|rows| - 1];
      CompletedOn(rows[..|rows| - 1], date) + (if last.date == date && last.status == 1 then 1 else 0)
  }

  /** The items getPlanByDate reports for `date`, in rowid order. */
  function PlanItems(rows: seq<PlanRow>, date: Date): (r: seq<PlanData>)
    ensures |r| <= CountOn(rows, date)
    ensures forall p :: p in r ==> p.kind == TaskKind || p.kind == HabitKind
  {
    if rows == [] then []
    else
      var last := rows[|rows| - 1];
      PlanItems(rows[..|rows| - 1], date) + (if last.date == date && ItemOf(last).Some? then [ItemOf(last).value] else [])
  }

  /** An item is reported for `date` exactly when some row of that date
      yields it. */
  lemma {:induction false} PlanItemsMembership(rows: seq<PlanRow>, date: Date, p: PlanData)
    ensures p in PlanItems(rows, date) <==>
              exists i :: 0 <= i < |rows| && rows[i].date == date && ItemOf(rows[i]) == Some(p)
  {
    if rows != [] {
      var prefix := rows[..|rows| - 1];
      PlanItemsMembership(prefix, date, p);
      assert forall i :: 0 <= i < |prefix| ==> prefix[i] == rows[i];
      if p in PlanItems(prefix, date) {
        var i :| 0 <= i < |prefix| && prefix[i].date == date && ItemOf(prefix[i]) == Some(p);
        assert rows[i] == prefix[i];
      }
    }
  }

  /** Under the CHECK constraint no row is skipped: the day's plan has one
      item per row of that date. */
  lemma {:induction false} PlanItemsComplete(rows: seq<PlanRow>, date: Date)
    requires AllOneRef(rows)
    ensures |PlanItems(rows, date)| == CountOn(rows, date)
  {
    if rows != [] {
      PlanItemsComplete(rows[..|rows| - 1], date);
      assert OneRef(rows[|rows| - 1]);
    }
  }

  /** Rewriting fields other than the date changes no day's row count. */
  lemma {:induction false} CountOnSameDates(a: seq<PlanRow>, b: seq<PlanRow>, date: Date)
    requires |a| == |b|
    requires forall i :: 0 <= i < |a| ==> a[i].date == b[i].date
    ensures CountOn(a, date) == CountOn(b, date)
  {
    if a != [] {
      CountOnSameDates(a[..|a| - 1], b[..|b| - 1], date);
    }
  }

  lemma CountOnAppend(rows: seq<PlanRow>, row: PlanRow, date: Date)
    ensures CountOn(rows + [row], date) == CountOn(rows, date) + (if row.date == date then 1 else 0)
    ensures CompletedOn(rows + [row], date) == CompletedOn(rows, date) + (if row.date == date && row.status == 1 then 1 else 0)
  {
    assert (rows + [row])[..|rows|] == rows;
  }

  /** getPlanNumberByDate's map after reading `rows`: an entry for exactly
      the days in [start, end] that have rows, holding their completed and
      total counts. */
  ghost predicate Tallied(r: map<Date, Ratio>, rows: seq<PlanRow>, start: Date, end: Date) {
    && (forall d :: d in r <==> start <= d <= end && CountOn(rows, d) > 0)
    && (forall d :: d in r ==> r[d] == Ratio(CompletedOn(rows, d), CountOn(rows, d)))
  }

  /** One step of the grouping: count `row` into its day's entry when the
      day is in [start, end]. */
  function TallyRow(r: map<Date, Ratio>, row: PlanRow, start: Date, end: Date): (t: map<Date, Ratio>)
    ensures forall d :: d in t <==> d in r || (d == row.date && start <= d <= end)
    ensures forall d :: d in r && (d != row.date || !(start <= d <= end)) ==> t[d] == r[d]
    ensures start <= row.date <= end ==>
              t[row.date].total == (if row.date in r then r[row.date].total else 0) + 1
    ensures start <= row.date <= end ==>
              t[row.date].completed == (if row.date in r then r[row.date].completed else 0) + (if row.status == 1 then 1 else 0)
  {
    if start <= row.date <= end then
      var was := if row.date in r then r[row.date] else Ratio(0, 0);
      r[row.date := Ratio(was.completed + (if row.status == 1 then 1 else 0), was.total + 1)]
    else r
  }

  lemma TallyRowStep(r: map<Date, Ratio>, rows: seq<PlanRow>, row: PlanRow, start: Date, end: Date)
    requires Tallied(r, rows, start, end)
    ensures Tallied(TallyRow(r, row, start, end), rows + [row], start, end)
  {
    forall d {
      CountOnAppend(rows, row, d);
    }
  }

  // ---------------------------------------------------------------------
  // getTaskIdByName, getHabitIdByName, getReviewByDate

  /** SELECT id FROM task WHERE name = ?: the first match in rowid order, or 0. */
  function FirstTaskId(tasks: seq<Task>, name: string): (id: int)
    ensures (forall i :: 0 <= i < |tasks| ==> tasks[i].name != name) ==> id == 0
    ensures id == 0 || exists i :: 0 <= i < |tasks| && tasks[i].name == name && tasks[i].id == id
  {
    if tasks == [] then 0
    else if tasks[0].name == name then tasks[0].id
    else
      assert forall i :: 0 <= i < |tasks[1..]| ==> tasks[1..][i] == tasks[i + 1];
      FirstTaskId(tasks[1..], name)
  }

  lemma {:induction false} FirstTaskIdIsFirstMatch(tasks: seq<Task>, name: string)
    ensures (forall i :: 0 <= i < |tasks| ==> tasks[i].name != name) ==> FirstTaskId(tasks, name) == 0
    ensures (exists i :: 0 <= i < |tasks| && tasks[i].name == name) ==>
              exists i :: 0 <= i < |tasks| && tasks[i].name == name && FirstTaskId(tasks, name) == tasks[i].id
                          && forall j :: 0 <= j < i ==> tasks[j].name != name
  {
    if tasks != [] && tasks[0].name != name {
      FirstTaskIdIsFirstMatch(tasks[1..], name);
      assert forall i :: 1 <= i < |tasks| ==> tasks[i] == tasks[1..][i - 1];
      if exists i :: 0 <= i < |tasks| && tasks[i].name == name {
        var i :| 0 <= i < |tasks| && tasks[i].name == name;
        assert tasks[1..][i - 1].name == name;
        var k :| 0 <= k < |tasks[1..]| && tasks[1..][k].name == name && FirstTaskId(tasks[1..], name) == tasks[1..][k].id
                 && forall j :: 0 <= j < k ==> tasks[1..][j].name != name;
        assert tasks[k + 1] == tasks[1..][k];
      }
    }
  }

  /** SELECT id FROM habits WHERE name = ?: the first match in rowid order, or 0. */
  function FirstHabitId(habits: seq<Habit>, name: string): (id: int)
    ensures (forall i :: 0 <= i < |habits| ==> habits[i].name != name) ==> id == 0
    ensures id == 0 || exists i :: 0 <= i < |habits| && habits[i].name == name && habits[i].id == id
  {
    if habits == [] then 0
    else if habits[0].name == name then habits[0].id
    else
      assert forall i :: 0 <= i < |habits[1..]| ==> habits[1..][i] == habits[i + 1];
      FirstHabitId(habits[1..], name)
  }

  lemma {:induction false} FirstHabitIdIsFirstMatch(habits: seq<Habit>, name: string)
    ensures (forall i :: 0 <= i < |habits| ==> habits[i].name != name) ==> FirstHabitId(habits, name) == 0
    ensures (exists i :: 0 <= i < |habits| && habits[i].name == name) ==>
              exists i :: 0 <= i < |habits| && habits[i].name == name && FirstHabitId(habits, name) == habits[i].id
                          && forall j :: 0 <= j < i ==> habits[j].name != name
  {
    if habits != [] && habits[0].name != name {
      FirstHabitIdIsFirstMatch(habits[1..], name);
      assert forall i :: 1 <= i < |habits| ==> habits[i] == habits[1..][i - 1];
      if exists i :: 0 <= i < |habits| && habits[i].name == name {
        var i :| 0 <= i < |habits| && habits[i].name == name;
        assert habits[1..][i - 1].name == name;
        var k :| 0 <= k < |habits[1..]| && habits[1..][k].name == name && FirstHabitId(habits[1..], name) == habits[1..][k].id
                 && forall j :: 0 <= j < k ==> habits[1..][j].name != name;
        assert habits[k + 1] == habits[1..][k];
      }
    }
  }

  predicate HasReview(reviews: seq<Review>, date: Date) {
    exists i :: 0 <= i < |reviews| && reviews[i].date == date
  }

  /** SELECT reflection, summary FROM daily_review WHERE review_date = ?:
      the first match, or empty strings. */
  function ReviewOn(reviews: seq<Review>, date: Date): (r: ReviewData)
    ensures !HasReview(reviews, date) ==> r == NoReview
    ensures HasReview(reviews, date) ==>
              exists i :: 0 <= i < |reviews| && reviews[i].date == date
                          && r == ReviewData(reviews[i].reflection, reviews[i].summary)
  {
    if reviews == [] then NoReview
    else if reviews[0].date == date then ReviewData(reviews[0].reflection, reviews[0].summary)
    else
      assert forall i :: 1 <= i < |reviews| ==> reviews[i] == reviews[1..][i - 1];
      assert HasReview(reviews, date) ==> HasReview(reviews[1..], date);
      ReviewOn(reviews[1..], date)
  }

  /** With one review per date, the review reported for a date is the one
      stored for it. */
  lemma ReviewOnUnique(reviews: seq<Review>, i: int)
    requires ReviewDatesUnique(reviews)
    requires 0 <= i < |reviews|
    ensures ReviewOn(reviews, reviews[i].date) == ReviewData(reviews[i].reflection, reviews[i].summary)
  {
    assert HasReview(reviews, reviews[i].date);
  }

  // ---------------------------------------------------------------------
  // UPDATE task / habits SET <field> = ? WHERE id = ?

  datatype TaskEdit =
    | RenameTask(name: string)
    | SetDueDate(due: Option<Date>)
    | SetTaskStatus(status: int, completed: Option<Date>)

  function ApplyTaskEdit(t: Task, e: TaskEdit): Task {
    match e
    case RenameTask(n) => t.(name := n)
    case SetDueDate(d) => t.(dueDate := d)
    case SetTaskStatus(s, c) => t.(status := s, completedDate := c)
  }

  /** The row with that id gets the edit; every other row is unchanged. */
  function EditTask(tasks: seq<Task>, id: int, e: TaskEdit): (r: seq<Task>)
    ensures |r| == |tasks|
    ensures forall i :: 0 <= i < |r| ==>
              r[i] == if tasks[i].id == id then ApplyTaskEdit(tasks[i], e) else tasks[i]
    ensures TaskIds(r) == TaskIds(tasks)
  {
    if tasks == [] then []
    else
      var last := tasks[|tasks| - 1];
      EditTask(tasks[..|tasks| - 1], id, e) + [if last.id == id then ApplyTaskEdit(last, e) else last]
  }

  datatype HabitEdit =
    | RenameHabit(name: string)
    | SetCreatedDate(created: Date)
    | SetFrequency(frequency: string)
    | SetHabitStatus(status: int)

  function ApplyHabitEdit(h: Habit, e: HabitEdit): Habit {
    match e
    case RenameHabit(n) => h.(name := n)
    case SetCreatedDate(d) => h.(createdDate := d)
    case SetFrequency(f) => h.(frequency := f)
    case SetHabitStatus(s) => h.(status := s)
  }

  function EditHabit(habits: seq<Habit>, id: int, e: HabitEdit): (r: seq<Habit>)
    ensures |r| == |habits|
    ensures forall i :: 0 <= i < |r| ==>
              r[i] == if habits[i].id == id then ApplyHabitEdit(habits[i], e) else habits[i]
    ensures HabitIds(r) == HabitIds(habits)
  {
    if habits == [] then []
    else
      var last := habits[|habits| - 1];
      EditHabit(habits[..|habits| - 1], id, e) + [if last.id == id then ApplyHabitEdit(last, e) else last]
  }

  // ---------------------------------------------------------------------
  // updateTaskStatus

  /** The completed_date written with a new task status: cleared for in
      progress (0), not completed (2) and cancelled (4), today otherwise. */
  function CompletionDate(status: int, today: Date): (d: Option<Date>)
    ensures d.None? <==> status in {0, 2, 4}
    ensures d.Some? ==> d.value == today
  {
    if status == 0 || status == 2 || status == 4 then None else Some(today)
  }

  /** The plan-item status the cascade writes: completed (1) for completed and
      completed late (1, 3), not completed (2) for not completed and cancelled
      (2, 4), none for any other task status. */
  function CascadeStatus(status: int): (s: Option<int>)
    ensures s.Some? <==> 1 <= status <= 4
    ensures s.Some? ==> (s.value == 1 <==> status in {1, 3}) && (s.value == 2 <==> status in {2, 4})
  {
    if status == 1 || status == 3 then Some(1)
    else if status == 2 || status == 4 then Some(2)
    else None
  }

  /** UPDATE daily_plan SET status = ? WHERE plan_date = ? AND task_id = ? */
  function MarkDay(rows: seq<PlanRow>, date: Date, taskId: int, status: int): (r: seq<PlanRow>)
    ensures |r| == |rows|
    ensures forall i :: 0 <= i < |r| ==>
              r[i] == if rows[i].date == date && rows[i].taskId == Some(taskId) then rows[i].(status := status) else rows[i]
  {
    if rows == [] then []
    else
      var last := rows[|rows| - 1];
      MarkDay(rows[..|rows| - 1], date, taskId, status)
        + [if last.date == date && last.taskId == Some(taskId) then last.(status := status) else last]
  }

  /** The plan table after the cascade of a task-status update. */
  function Cascade(rows: seq<PlanRow>, today: Date, taskId: int, taskStatus: int): (r: seq<PlanRow>)
    ensures |r| == |rows|
    ensures forall i :: 0 <= i < |r| ==>
              r[i] == if rows[i].date == today && rows[i].taskId == Some(taskId) && 1 <= taskStatus <= 4
                      then rows[i].(status := if taskStatus in {1, 3} then 1 else 2)
                      else rows[i]
  {
    match CascadeStatus(taskStatus)
    case Some(s) => MarkDay(rows, today, taskId, s)
    case None => rows
  }

  /** The cascade touches only today's rows of that task: habit rows and other
      days keep everything, no day gains or loses rows, and the constraints
      of the plan table still hold. */
  lemma CascadeFrame(rows: seq<PlanRow>, today: Date, taskId: int, taskStatus: int)
    ensures |Cascade(rows, today, taskId, taskStatus)| == |rows|
    ensures forall i :: 0 <= i < |rows| && (rows[i].date != today || rows[i].taskId != Some(taskId)) ==>
              Cascade(rows, today, taskId, taskStatus)[i] == rows[i]
    ensures forall i :: 0 <= i < |rows| ==>
              Cascade(rows, today, taskId, taskStatus)[i] == rows[i].(status := Cascade(rows, today, taskId, taskStatus)[i].status)
    ensures CascadeStatus(taskStatus) == None ==> Cascade(rows, today, taskId, taskStatus) == rows
    ensures forall i :: 0 <= i < |rows| && rows[i].date == today && rows[i].taskId == Some(taskId) && CascadeStatus(taskStatus).Some?
              ==> Cascade(rows, today, taskId, taskStatus)[i].status == CascadeStatus(taskStatus).value
    ensures AllOneRef(rows) ==> AllOneRef(Cascade(rows, today, taskId, taskStatus))
    ensures SlotsKeyed(rows) ==> SlotsKeyed(Cascade(rows, today, taskId, taskStatus))
    ensures PlanIds(Cascade(rows, today, taskId, taskStatus)) == PlanIds(rows)
  {
  }

  /** The cascade changes no day's row count, and on days other than today
      not even the completed count. */
  lemma CascadeCounts(rows: seq<PlanRow>, today: Date, taskId: int, taskStatus: int, date: Date)
    ensures CountOn(Cascade(rows, today, taskId, taskStatus), date) == CountOn(rows, date)
    ensures date != today ==> CompletedOn(Cascade(rows, today, taskId, taskStatus), date) == CompletedOn(rows, date)
  {
    var r := Cascade(rows, today, taskId, taskStatus);
    CountOnSameDates(r, rows, date);
    if date != today {
      CompletedOnOtherDay(rows, r, today, date);
    }
  }

  lemma {:induction false} CompletedOnOtherDay(a: seq<PlanRow>, b: seq<PlanRow>, today: Date, date: Date)
    requires |a| == |b| && date != today
    requires forall i :: 0 <= i < |a| ==> a[i].date == b[i].date
    requires forall i :: 0 <= i < |a| && a[i].date != today ==> a[i] == b[i]
    ensures CompletedOn(a, date) == CompletedOn(b, date)
  {
    if a != [] {
      CompletedOnOtherDay(a[..|a| - 1], b[..|b| - 1], today, date);
    }
  }

  // ---------------------------------------------------------------------
  // updateHabitPlan, updateTaskPlan

  /** What a slot upsert refers to: a task id or a habit id. */
  datatype ItemRef = TaskRef(id: int) | HabitRef(id: int)

  /** UPDATE daily_plan SET task_id|habit_id = ?, plan_name = ?, status = ?
      applied to one row; the other id column is left as it was. */
  function Assign(row: PlanRow, ref: ItemRef, name: string, status: int): (a: PlanRow)
    ensures Refers(a, ref) && a.name == name && a.status == status
    ensures a.id == row.id && a.date == row.date && a.index == row.index
    ensures ref.TaskRef? ==> a.habitId == row.habitId
    ensures ref.HabitRef? ==> a.taskId == row.taskId
  {
    match ref
    case TaskRef(t) => row.(taskId := Some(t), name := name, status := status)
    case HabitRef(h) => row.(habitId := Some(h), name := name, status := status)
  }

  /** The UPDATE on every row of slot (date, index). */
  function FillSlot(rows: seq<PlanRow>, date: Date, index: int, ref: ItemRef, name: string, status: int)
    : (r: seq<PlanRow>)
    ensures |r| == |rows|
    ensures forall i :: 0 <= i < |r| ==>
              r[i] == if InSlot(rows[i], date, index) then Assign(rows[i], ref, name, status) else rows[i]
  {
    if rows == [] then []
    else
      var last := rows[|rows| - 1];
      FillSlot(rows[..|rows| - 1], date, index, ref, name, status)
        + [if InSlot(last, date, index) then Assign(last, ref, name, status) else last]
  }

  predicate HasSlot(rows: seq<PlanRow>, date: Date, index: int) {
    exists i :: 0 <= i < |rows| && InSlot(rows[i], date, index)
  }

  /** The UPDATE fails, and is undone, when a row it writes breaks the CHECK. */
  predicate SlotRejects(rows: seq<PlanRow>, date: Date, index: int, ref: ItemRef, name: string, status: int)
    ensures SlotRejects(rows, date, index, ref, name, status) ==> HasSlot(rows, date, index)
    ensures AllOneRef(rows) && SlotRejects(rows, date, index, ref, name, status) ==>
              exists i :: 0 <= i < |rows| && InSlot(rows[i], date, index) && !Refers(rows[i], ref)
  {
    exists i :: 0 <= i < |rows| && InSlot(rows[i], date, index) && !OneRef(Assign(rows[i], ref, name, status))
  }

  /** The row INSERTed when no row of the slot exists. */
  function NewRow(id: int, ref: ItemRef, date: Date, name: string, index: int, status: int): (row: PlanRow)
    ensures OneRef(row) && Refers(row, ref) && InSlot(row, date, index)
    ensures row.id == id && row.name == name && row.status == status
  {
    match ref
    case TaskRef(t) => PlanRow(id, Some(t), None, date, name, index, status)
    case HabitRef(h) => PlanRow(id, None, Some(h), date, name, index, status)
  }

  /** Update by (date, index); insert when no row was affected; nothing when
      the update is rejected. */
  function SlotUpsert(rows: seq<PlanRow>, nextId: int, date: Date, index: int, ref: ItemRef,
                      name: string, status: int): (r: seq<PlanRow>)
    ensures SlotRejects(rows, date, index, ref, name, status) ==> r == rows
    ensures |r| == |rows| + (if SlotRejects(rows, date, index, ref, name, status) || HasSlot(rows, date, index) then 0 else 1)
    ensures forall i :: 0 <= i < |rows| ==> r[i].id == rows[i].id && r[i].date == rows[i].date && r[i].index == rows[i].index
    ensures !SlotRejects(rows, date, index, ref, name, status) ==> HasSlot(r, date, index)
  {
    if SlotRejects(rows, date, index, ref, name, status) then rows
    else if HasSlot(rows, date, index) then FillSlot(rows, date, index, ref, name, status)
    else
      var r := rows + [NewRow(nextId, ref, date, name, index, status)];
      assert InSlot(r[|rows|], date, index);
      r
  }

  /** The row's id column for `ref` holds `ref`'s id. */
  predicate Refers(row: PlanRow, ref: ItemRef) {
    match ref
    case TaskRef(t) => row.taskId == Some(t)
    case HabitRef(h) => row.habitId == Some(h)
  }

  function KindOf(ref: ItemRef): string {
    if ref.TaskRef? then TaskKind else HabitKind
  }

  /** Under the CHECK constraint an upsert is rejected exactly when a row of
      the slot refers to the other kind of item. */
  lemma SlotRejectsOtherKind(rows: seq<PlanRow>, date: Date, index: int, ref: ItemRef, name: string, status: int)
    requires AllOneRef(rows)
    ensures SlotRejects(rows, date, index, ref, name, status) <==>
              exists i :: 0 <= i < |rows| && InSlot(rows[i], date, index)
                          && (if ref.TaskRef? then rows[i].habitId.Some? else rows[i].taskId.Some?)
  {
    if exists i :: 0 <= i < |rows| && InSlot(rows[i], date, index)
                   && (if ref.TaskRef? then rows[i].habitId.Some? else rows[i].taskId.Some?) {
      var i :| 0 <= i < |rows| && InSlot(rows[i], date, index)
               && (if ref.TaskRef? then rows[i].habitId.Some? else rows[i].taskId.Some?);
      assert !OneRef(Assign(rows[i], ref, name, status));
    }
  }

  /** What a slot upsert does to the table: a rejected one changes nothing,
      an update keeps every row in place and rewrites exactly the slot's rows,
      an insert appends one row carrying the given values. Each keeps the
      CHECK constraint, the ids, and one row per slot. */
  lemma SlotUpsertShape(rows: seq<PlanRow>, nextId: int, date: Date, index: int, ref: ItemRef,
                        name: string, status: int)
    ensures var r := SlotUpsert(rows, nextId, date, index, ref, name, status);
      && (SlotRejects(rows, date, index, ref, name, status) ==> r == rows)
      && (!SlotRejects(rows, date, index, ref, name, status) && HasSlot(rows, date, index) ==>
            |r| == |rows| && PlanIds(r) == PlanIds(rows)
            && forall i :: 0 <= i < |rows| ==>
                 r[i] == if InSlot(rows[i], date, index) then Assign(rows[i], ref, name, status) else rows[i])
      && (!HasSlot(rows, date, index) ==>
            r == rows + [NewRow(nextId, ref, date, name, index, status)]
            && PlanIds(r) == PlanIds(rows) + [nextId])
      && (AllOneRef(rows) ==> AllOneRef(r))
      && (SlotsKeyed(rows) ==> SlotsKeyed(r))
  {
    var r := SlotUpsert(rows, nextId, date, index, ref, name, status);
    if !HasSlot(rows, date, index) {
      assert !SlotRejects(rows, date, index, ref, name, status);
      assert r == rows + [NewRow(nextId, ref, date, name, index, status)];
      assert PlanIds(r) == PlanIds(rows) + [nextId];
    }
  }

  /** Read-after-write: after an upsert that was not rejected, the slot holds
      exactly one row (when it held at most one before) and that row carries
      the given name, status and id; getPlanByDate then reports it. */
  lemma SlotUpsertReadBack(rows: seq<PlanRow>, nextId: int, date: Date, index: int, ref: ItemRef,
                           name: string, status: int)
    requires SlotsKeyed(rows) && AllOneRef(rows)
    requires !SlotRejects(rows, date, index, ref, name, status)
    ensures var r := SlotUpsert(rows, nextId, date, index, ref, name, status);
      exists k :: 0 <= k < |r| && InSlot(r[k], date, index) && r[k].name == name && r[k].status == status
                  && Refers(r[k], ref) && OneRef(r[k])
                  && forall j :: 0 <= j < |r| && InSlot(r[j], date, index) ==> j == k
    ensures PlanData(KindOf(ref), name, status) in PlanItems(SlotUpsert(rows, nextId, date, index, ref, name, status), date)
  {
    var r := SlotUpsert(rows, nextId, date, index, ref, name, status);
    SlotUpsertShape(rows, nextId, date, index, ref, name, status);
    var k;
    if HasSlot(rows, date, index) {
      k :| 0 <= k < |rows| && InSlot(rows[k], date, index);
      assert OneRef(Assign(rows[k], ref, name, status));
    } else {
      k := |rows|;
    }
    assert InSlot(r[k], date, index) && Refers(r[k], ref) && OneRef(r[k]);
    assert ItemOf(r[k]) == Some(PlanData(KindOf(ref), name, status));
    PlanItemsMembership(r, date, PlanData(KindOf(ref), name, status));
  }

  /** An upsert that updates leaves every day's row count as it was; one that
      inserts adds one row to its own day and none to any other. */
  lemma SlotUpsertCounts(rows: seq<PlanRow>, nextId: int, date: Date, index: int, ref: ItemRef,
                         name: string, status: int, day: Date)
    ensures CountOn(SlotUpsert(rows, nextId, date, index, ref, name, status), day)
              == CountOn(rows, day) + (if !HasSlot(rows, date, index) && day == date then 1 else 0)
  {
    var r := SlotUpsert(rows, nextId, date, index, ref, name, status);
    SlotUpsertShape(rows, nextId, date, index, ref, name, status);
    if !HasSlot(rows, date, index) {
      CountOnAppend(rows, NewRow(nextId, ref, date, name, index, status), day);
    } else {
      CountOnSameDates(r, rows, day);
    }
  }

  // ---------------------------------------------------------------------
  // updateReview

  /** UPDATE daily_review SET reflection = ?, summary = ? WHERE review_date = ? */
  function RewriteReview(reviews: seq<Review>, date: Date, reflection: string, summary: string)
    : (r: seq<Review>)
    ensures |r| == |reviews|
    ensures forall i :: 0 <= i < |r| ==>
              r[i] == if reviews[i].date == date then reviews[i].(reflection := reflection, summary := summary)
                      else reviews[i]
  {
    if reviews == [] then []
    else
      var last := reviews[|reviews| - 1];
      RewriteReview(reviews[..|reviews| - 1], date, reflection, summary)
        + [if last.date == date then last.(reflection := reflection, summary := summary) else last]
  }

  /** Update by date; insert when no row was affected. */
  function ReviewUpsert(reviews: seq<Review>, nextId: int, date: Date, reflection: string, summary: string)
    : (r: seq<Review>)
    ensures |r| == |reviews| + (if HasReview(reviews, date) then 0 else 1)
    ensures HasReview(r, date)
    ensures forall i :: 0 <= i < |reviews| ==> r[i].id == reviews[i].id && r[i].date == reviews[i].date
  {
    if HasReview(reviews, date) then RewriteReview(reviews, date, reflection, summary)
    else
      var r := reviews + [Review(nextId, date, reflection, summary)];
      assert r[|reviews|].date == date;
      r
  }

  /** What a review upsert does to the table: rows keep their place, date
      and id; the rows of that date, and only they, get the new text; a row
      with the next id is appended when the date had none. */
  lemma ReviewUpsertShape(reviews: seq<Review>, nextId: int, date: Date, reflection: string, summary: string)
    ensures var r := ReviewUpsert(reviews, nextId, date, reflection, summary);
      && |r| == |reviews| + (if HasReview(reviews, date) then 0 else 1)
      && (forall i :: 0 <= i < |reviews| ==>
            r[i].date == reviews[i].date && r[i].id == reviews[i].id
            && (reviews[i].date != date ==> r[i] == reviews[i]))
      && (!HasReview(reviews, date) ==> r[|reviews|] == Review(nextId, date, reflection, summary))
      && (forall i :: 0 <= i < |r| && r[i].date == date ==> r[i].reflection == reflection && r[i].summary == summary)
      && ReviewIdsAfterUpsert(r, reviews, nextId, date)
      && (ReviewDatesUnique(reviews) ==> ReviewDatesUnique(r))
  {
    var r := ReviewUpsert(reviews, nextId, date, reflection, summary);
    assert ReviewIds(r) == if HasReview(reviews, date) then ReviewIds(reviews) else ReviewIds(reviews) + [nextId];
  }

  /** An upsert for one date leaves the review of every other date as it was. */
  lemma ReviewUpsertOtherDate(reviews: seq<Review>, nextId: int, date: Date, reflection: string, summary: string, d: Date)
    requires ReviewDatesUnique(reviews)
    requires d != date
    ensures ReviewOn(ReviewUpsert(reviews, nextId, date, reflection, summary), d) == ReviewOn(reviews, d)
  {
    var r := ReviewUpsert(reviews, nextId, date, reflection, summary);
    ReviewUpsertShape(reviews, nextId, date, reflection, summary);
    if HasReview(reviews, d) {
      var i :| 0 <= i < |reviews| && reviews[i].date == d;
      ReviewOnUnique(reviews, i);
      ReviewOnUnique(r, i);
    } else {
      assert !HasReview(r, d);
    }
  }

  /** After a review upsert the date has exactly the review just written,
      every other date keeps its review, and dates stay unique. */
  lemma ReviewUpsertReadBack(reviews: seq<Review>, nextId: int, date: Date, reflection: string, summary: string)
    requires ReviewDatesUnique(reviews)
    ensures var r := ReviewUpsert(reviews, nextId, date, reflection, summary);
      && ReviewDatesUnique(r)
      && ReviewOn(r, date) == ReviewData(reflection, summary)
      && (forall d :: d != date ==> ReviewOn(r, d) == ReviewOn(reviews, d))
  {
    var r := ReviewUpsert(reviews, nextId, date, reflection, summary);
    ReviewUpsertShape(reviews, nextId, date, reflection, summary);
    if !HasReview(reviews, date) {
      ReviewOnUnique(r, |reviews|);
    } else {
      var i :| 0 <= i < |reviews| && reviews[i].date == date;
      ReviewOnUnique(r, i);
    }
    forall d | d != date
      ensures ReviewOn(r, d) == ReviewOn(reviews, d)
    {
      ReviewUpsertOtherDate(reviews, nextId, date, reflection, summary, d);
    }
  }

  /** The ids of the review table after an upsert: unchanged after an update,
      extended by the next id after an insert. */
  ghost predicate ReviewIdsAfterUpsert(r: seq<Review>, reviews: seq<Review>, nextId: int, date: Date) {
    ReviewIds(r) == if HasReview(reviews, date) then ReviewIds(reviews) else ReviewIds(reviews) + [nextId]
  }
}
