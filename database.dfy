/** The planner's persistence layer: class Database holds the four tables and
    their AUTOINCREMENT counters, and each method performs the statements of
    the corresponding member of database.cpp on them. */
module Persistence {
  import opened Wrappers
  import opened Tables

  /** The store. `open` records whether the connection opened: when it did
      not, every statement fails, so reads return empty results and writes
      change nothing. The current date is a parameter of the methods that
      write it. */
  class Database {
    var open: bool
    var tasks: seq<Task>
    var habits: seq<Habit>
    var plan: seq<PlanRow>
    var reviews: seq<Review>
    var nextTaskId: int
    var nextHabitId: int
    var nextPlanId: int
    var nextReviewId: int

    /** The constraints of the schema: AUTOINCREMENT ids, the CHECK of
        daily_plan and the UNIQUE review_date. */
    ghost predicate Valid()
      reads this
      ensures Valid() ==> forall i, j :: 0 <= i < j < |tasks| ==> tasks[i].id != tasks[j].id
      ensures Valid() ==> forall i, j :: 0 <= i < j < |habits| ==> habits[i].id != habits[j].id
      ensures Valid() ==> forall i, j :: 0 <= i < j < |plan| ==> plan[i].id != plan[j].id
      ensures Valid() ==> forall i, j :: 0 <= i < j < |reviews| ==> reviews[i].id != reviews[j].id
      ensures Valid() ==> forall i :: 0 <= i < |plan| ==> (plan[i].taskId.Some? <==> plan[i].habitId.None?)
    {
      && AutoIds(TaskIds(tasks), nextTaskId)
      && AutoIds(HabitIds(habits), nextHabitId)
      && AutoIds(PlanIds(plan), nextPlanId)
      && AutoIds(ReviewIds(reviews), nextReviewId)
      && AllOneRef(plan)
      && ReviewDatesUnique(reviews)
    }

    /** Opens the store and creates the (empty) tables. */
    constructor (connected: bool)
      ensures Valid() && SlotsKeyed(plan)
      ensures open == connected
      ensures tasks == [] && habits == [] && plan == [] && reviews == []
      ensures nextTaskId == 1 && nextHabitId == 1 && nextPlanId == 1 && nextReviewId == 1
    {
      open := connected;
      tasks, habits, plan, reviews := [], [], [], [];
      nextTaskId, nextHabitId, nextPlanId, nextReviewId := 1, 1, 1, 1;
    }

    // -------------------------------------------------------------------
    // Reads

    method GetTaskByStatus(status: int) returns (r: seq<Task>)
      ensures r == if open then TasksSelected(tasks, status) else []
      ensures forall t :: t in r <==> open && t in tasks && Selects(status, t.status)
      ensures open && status == 0 ==> r == tasks
    {
      r := [];
      if !open {
        return;
      }
      var i := 0;
      while i < |tasks|
        invariant 0 <= i <= |tasks|
        invariant r == TasksSelected(tasks[..i], status)
      {
        assert tasks[..i + 1][..i] == tasks[..i];
        if Selects(status, tasks[i].status) {
          r := r + [tasks[i]];
        }
        i := i + 1;
      }
      assert tasks[..i] == tasks;
      TasksSelectedAll(tasks);
    }

    method GetHabitByStatus(status: int) returns (r: seq<Habit>)
      ensures r == if open then HabitsSelected(habits, status) else []
      ensures forall h :: h in r <==> open && h in habits && Selects(status, h.status)
      ensures open && status == 0 ==> r == habits
    {
      r := [];
      if !open {
        return;
      }
      var i := 0;
      while i < |habits|
        invariant 0 <= i <= |habits|
        invariant r == HabitsSelected(habits[..i], status)
      {
        assert habits[..i + 1][..i] == habits[..i];
        if Selects(status, habits[i].status) {
          r := r + [habits[i]];
        }
        i := i + 1;
      }
      assert habits[..i] == habits;
      HabitsSelectedAll(habits);
    }

    method GetPlanByDate(date: Date) returns (r: seq<PlanData>)
      requires Valid()
      ensures r == if open then PlanItems(plan, date) else []
      ensures forall p :: p in r <==>
                open && exists i :: 0 <= i < |plan| && plan[i].date == date && ItemOf(plan[i]) == Some(p)
      ensures open ==> |r| == CountOn(plan, date)
    {
      r := [];
      if !open {
        return;
      }
      var i := 0;
      while i < |plan|
        invariant 0 <= i <= |plan|
        invariant r == PlanItems(plan[..i], date)
      {
        assert plan[..i + 1][..i] == plan[..i];
        var row := plan[i];
        if row.date == date {
          if row.taskId.Some? {
            r := r + [PlanData(TaskKind, row.name, row.status)];
          } else if row.habitId.Some? {
            r := r + [PlanData(HabitKind, row.name, row.status)];
          }
        }
        i := i + 1;
      }
      assert plan[..i] == plan;
      forall p {
        PlanItemsMembership(plan, date, p);
      }
      PlanItemsComplete(plan, date);
    }

    /** Per day in [start, end] that has plan rows: how many are completed
        (status 1) out of how many. Days without rows have no entry. */
    method GetPlanNumberByDate(start: Date, end: Date) returns (r: map<Date, Ratio>)
      ensures forall d :: d in r <==> open && start <= d <= end && CountOn(plan, d) > 0
      ensures forall d :: d in r ==> r[d] == Ratio(CompletedOn(plan, d), CountOn(plan, d))
      ensures forall d :: d in r ==> 1 <= r[d].total && r[d].completed <= r[d].total
    {
      r := map[];
      if !open {
        return;
      }
      var i := 0;
      while i < |plan|
        invariant 0 <= i <= |plan|
        invariant Tallied(r, plan[..i], start, end)
      {
        assert plan[..i + 1] == plan[..i] + [plan[i]];
        TallyRowStep(r, plan[..i], plan[i], start, end);
        r := TallyRow(r, plan[i], start, end);
        i := i + 1;
      }
      assert plan[..i] == plan;
    }

    method GetReviewByDate(date: Date) returns (r: ReviewData)
      requires Valid()
      ensures r == if open then ReviewOn(reviews, date) else NoReview
      ensures !HasReview(reviews, date) ==> r == NoReview
      ensures forall i :: open && 0 <= i < |reviews| && reviews[i].date == date ==>
                r == ReviewData(reviews[i].reflection, reviews[i].summary)
    {
      if !open {
        return NoReview;
      }
      r := ReviewOn(reviews, date);
      forall i | 0 <= i < |reviews| && reviews[i].date == date
        ensures r == ReviewData(reviews[i].reflection, reviews[i].summary)
      {
        ReviewOnUnique(reviews, i);
      }
    }

    /** The id of the first task with that name, or 0, which is no task's id. */
    method GetTaskIdByName(name: string) returns (id: int)
      requires Valid()
      ensures id == if open then FirstTaskId(tasks, name) else 0
      ensures id == 0 <==> !open || forall i :: 0 <= i < |tasks| ==> tasks[i].name != name
      ensures id != 0 ==> exists i :: 0 <= i < |tasks| && tasks[i].name == name && tasks[i].id == id
    {
      if !open {
        return 0;
      }
      id := FirstTaskId(tasks, name);
      FirstTaskIdIsFirstMatch(tasks, name);
      assert forall i :: 0 <= i < |tasks| ==> TaskIds(tasks)[i] == tasks[i].id;
    }

    /** The id of the first habit with that name, or 0, which is no habit's id. */
    method GetHabitIdByName(name: string) returns (id: int)
      requires Valid()
      ensures id == if open then FirstHabitId(habits, name) else 0
      ensures id == 0 <==> !open || forall i :: 0 <= i < |habits| ==> habits[i].name != name
      ensures id != 0 ==> exists i :: 0 <= i < |habits| && habits[i].name == name && habits[i].id == id
    {
      if !open {
        return 0;
      }
      id := FirstHabitId(habits, name);
      FirstHabitIdIsFirstMatch(habits, name);
      assert forall i :: 0 <= i < |habits| ==> HabitIds(habits)[i] == habits[i].id;
    }

    // -------------------------------------------------------------------
    // Inserts

    /** Appends a task with a fresh id, created today, in progress, not completed. */
    method AddTask(name: string, dueDate: Option<Date>, today: Date)
      requires Valid()
      modifies this`tasks, this`nextTaskId
      ensures Valid()
      ensures tasks == if open then old(tasks) + [Task(old(nextTaskId), name, today, dueDate, None, 0)]
                       else old(tasks)
      ensures nextTaskId == if open then old(nextTaskId) + 1 else old(nextTaskId)
      ensures forall i :: 0 <= i < |old(tasks)| ==> old(tasks)[i].id != old(nextTaskId)
    {
      AutoIdsAppend(TaskIds(tasks), nextTaskId);
      assert forall i :: 0 <= i < |tasks| ==> TaskIds(tasks)[i] == tasks[i].id;
      if !open {
        return;
      }
      var ids := TaskIds(tasks);
      tasks := tasks + [Task(nextTaskId, name, today, dueDate, None, 0)];
      assert TaskIds(tasks) == ids + [nextTaskId];
      nextTaskId := nextTaskId + 1;
    }

    /** Appends a habit with a fresh id, created today, in progress. */
    method AddHabit(name: string, frequency: string, today: Date)
      requires Valid()
      modifies this`habits, this`nextHabitId
      ensures Valid()
      ensures habits == if open then old(habits) + [Habit(old(nextHabitId), name, today, frequency, 0)]
                        else old(habits)
      ensures nextHabitId == if open then old(nextHabitId) + 1 else old(nextHabitId)
      ensures forall i :: 0 <= i < |old(habits)| ==> old(habits)[i].id != old(nextHabitId)
    {
      AutoIdsAppend(HabitIds(habits), nextHabitId);
      assert forall i :: 0 <= i < |habits| ==> HabitIds(habits)[i] == habits[i].id;
      if !open {
        return;
      }
      var ids := HabitIds(habits);
      habits := habits + [Habit(nextHabitId, name, today, frequency, 0)];
      assert HabitIds(habits) == ids + [nextHabitId];
      nextHabitId := nextHabitId + 1;
    }

    // -------------------------------------------------------------------
    // Single-field updates

    method UpdateTaskName(id: int, name: string)
      requires Valid()
      modifies this`tasks
      ensures Valid()
      ensures tasks == if open then EditTask(old(tasks), id, RenameTask(name)) else old(tasks)
    {
      if open {
        tasks := EditTask(tasks, id, RenameTask(name));
      }
    }

    method UpdateTaskDueDate(id: int, date: Option<Date>)
      requires Valid()
      modifies this`tasks
      ensures Valid()
      ensures tasks == if open then EditTask(old(tasks), id, SetDueDate(date)) else old(tasks)
    {
      if open {
        tasks := EditTask(tasks, id, SetDueDate(date));
      }
    }

    /** Sets the task's status and its completion date, then, only if that
        update succeeded, carries the status into today's plan rows of the
        task. */
    method UpdateTaskStatus(id: int, status: int, today: Date)
      requires Valid()
      modifies this`tasks, this`plan
      ensures Valid()
      ensures old(SlotsKeyed(plan)) ==> SlotsKeyed(plan)
      ensures tasks == if open then EditTask(old(tasks), id, SetTaskStatus(status, CompletionDate(status, today)))
                       else old(tasks)
      ensures open ==> forall i :: 0 <= i < |tasks| && tasks[i].id == id ==>
                tasks[i].status == status
                && (tasks[i].completedDate == None <==> status == 0 || status == 2 || status == 4)
                && (tasks[i].completedDate != None ==> tasks[i].completedDate == Some(today))
      ensures plan == if open then Cascade(old(plan), today, id, status) else old(plan)
    {
      if !open {
        return;
      }
      tasks := EditTask(tasks, id, SetTaskStatus(status, CompletionDate(status, today)));
      CascadeFrame(plan, today, id, status);
      var planStatus := CascadeStatus(status);
      if planStatus.Some? {
        plan := MarkDay(plan, today, id, planStatus.value);
      }
    }

    method UpdateHabitName(id: int, name: string)
      requires Valid()
      modifies this`habits
      ensures Valid()
      ensures habits == if open then EditHabit(old(habits), id, RenameHabit(name)) else old(habits)
    {
      if open {
        habits := EditHabit(habits, id, RenameHabit(name));
      }
    }

    method UpdateHabitCreatedDate(id: int, date: Date)
      requires Valid()
      modifies this`habits
      ensures Valid()
      ensures habits == if open then EditHabit(old(habits), id, SetCreatedDate(date)) else old(habits)
    {
      if open {
        habits := EditHabit(habits, id, SetCreatedDate(date));
      }
    }

    method UpdateHabitFrequency(id: int, frequency: string)
      requires Valid()
      modifies this`habits
      ensures Valid()
      ensures habits == if open then EditHabit(old(habits), id, SetFrequency(frequency)) else old(habits)
    {
      if open {
        habits := EditHabit(habits, id, SetFrequency(frequency));
      }
    }

    method UpdateHabitStatus(id: int, status: int)
      requires Valid()
      modifies this`habits
      ensures Valid()
      ensures habits == if open then EditHabit(old(habits), id, SetHabitStatus(status)) else old(habits)
    {
      if open {
        habits := EditHabit(habits, id, SetHabitStatus(status));
      }
    }

    // -------------------------------------------------------------------
    // Upserts

    /** UPDATE the rows of slot (date, index); if the CHECK rejects it, stop;
        if it affected no row, INSERT one. */
    method UpsertSlot(index: int, name: string, status: int, ref: ItemRef, date: Date)
      requires Valid()
      modifies this`plan, this`nextPlanId
      ensures Valid()
      ensures old(SlotsKeyed(plan)) ==> SlotsKeyed(plan)
      ensures plan == if open then SlotUpsert(old(plan), old(nextPlanId), date, index, ref, name, status)
                      else old(plan)
      ensures nextPlanId == if open && !HasSlot(old(plan), date, index) then old(nextPlanId) + 1
                            else old(nextPlanId)
      ensures open && (exists i :: 0 <= i < |old(plan)| && InSlot(old(plan)[i], date, index)
                                   && (if ref.TaskRef? then old(plan)[i].habitId.Some? else old(plan)[i].taskId.Some?))
              ==> plan == old(plan)
    {
      if !open {
        return;
      }
      SlotUpsertShape(plan, nextPlanId, date, index, ref, name, status);
      SlotRejectsOtherKind(plan, date, index, ref, name, status);
      AutoIdsAppend(PlanIds(plan), nextPlanId);
      if SlotRejects(plan, date, index, ref, name, status) {
        return;
      }
      var affected := HasSlot(plan, date, index);
      var before := plan;
      plan := FillSlot(plan, date, index, ref, name, status);
      if !affected {
        assert plan == before;
        plan := plan + [NewRow(nextPlanId, ref, date, name, index, status)];
        nextPlanId := nextPlanId + 1;
      }
    }

    /** updateHabitPlan: slot upsert referring to a habit. */
    method UpdateHabitPlan(index: int, name: string, status: int, habitId: int, date: Date)
      requires Valid()
      modifies this`plan, this`nextPlanId
      ensures Valid()
      ensures old(SlotsKeyed(plan)) ==> SlotsKeyed(plan)
      ensures plan == if open then SlotUpsert(old(plan), old(nextPlanId), date, index, HabitRef(habitId), name, status)
                      else old(plan)
      ensures nextPlanId == if open && !HasSlot(old(plan), date, index) then old(nextPlanId) + 1
                            else old(nextPlanId)
      ensures (exists i :: 0 <= i < |old(plan)| && InSlot(old(plan)[i], date, index) && old(plan)[i].taskId.Some?)
              ==> plan == old(plan)
    {
      UpsertSlot(index, name, status, HabitRef(habitId), date);
    }

    /** updateTaskPlan: slot upsert referring to a task. */
    method UpdateTaskPlan(index: int, name: string, status: int, taskId: int, date: Date)
      requires Valid()
      modifies this`plan, this`nextPlanId
      ensures Valid()
      ensures old(SlotsKeyed(plan)) ==> SlotsKeyed(plan)
      ensures plan == if open then SlotUpsert(old(plan), old(nextPlanId), date, index, TaskRef(taskId), name, status)
                      else old(plan)
      ensures nextPlanId == if open && !HasSlot(old(plan), date, index) then old(nextPlanId) + 1
                            else old(nextPlanId)
      ensures (exists i :: 0 <= i < |old(plan)| && InSlot(old(plan)[i], date, index) && old(plan)[i].habitId.Some?)
              ==> plan == old(plan)
    {
      UpsertSlot(index, name, status, TaskRef(taskId), date);
    }

    /** UPDATE the review of that date; if no row was affected, INSERT one. */
    method UpdateReview(reflection: string, summary: string, date: Date)
      requires Valid()
      modifies this`reviews, this`nextReviewId
      ensures Valid()
      ensures reviews == if open then ReviewUpsert(old(reviews), old(nextReviewId), date, reflection, summary)
                         else old(reviews)
      ensures open ==> ReviewOn(reviews, date) == ReviewData(reflection, summary)
      ensures forall d :: d != date ==> ReviewOn(reviews, d) == ReviewOn(old(reviews), d)
      ensures nextReviewId == if open && !HasReview(old(reviews), date) then old(nextReviewId) + 1
                              else old(nextReviewId)
    {
      if !open {
        return;
      }
      ReviewUpsertReadBack(reviews, nextReviewId, date, reflection, summary);
      ReviewUpsertShape(reviews, nextReviewId, date, reflection, summary);
      var affected := HasReview(reviews, date);
      var before := reviews;
      reviews := RewriteReview(reviews, date, reflection, summary);
      if !affected {
        assert reviews == before;
        AutoIdsAppend(ReviewIds(before), nextReviewId);
        reviews := reviews + [Review(nextReviewId, date, reflection, summary)];
        nextReviewId := nextReviewId + 1;
      }
    }
  }
}
