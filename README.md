# Planner store and status vocabularies in Dafny

This project models the core of a personal planner (a Qt application over
SQLite). The planner tracks tasks, recurring habits, daily plans made of
tasks and habits, and daily reviews. Two parts of it are modelled:

- **Status vocabularies** (`utils.cpp`): the fixed label lists for task
  statuses (5), habit statuses (3) and plan-item statuses (3), the
  habit-frequency list (5), and the code <-> label functions. An unknown code
  prints as the fallback label `未知状态`; an unknown label parses as `-1`.
  Module `Utils` in `utils.dfy` holds them as constants, functions and lemmas.
- **The persistence layer** (`database.cpp`): four tables (`task`, `habits`,
  `daily_plan`, `daily_review`) and the `Database` methods that read and
  write them. Module `Tables` (`tables.dfy`) gives the row types and states
  what each SQL statement does to a table, as a function on the sequence of
  its rows in rowid order. Module `Persistence` (`database.dfy`) holds class
  `Database`. Its fields are the four tables and their AUTOINCREMENT
  counters. Each method applies the statements of the C++ member it models
  to those fields. `GetTaskByStatus`, `GetHabitByStatus` and
  `GetPlanByDate` build their results in a loop over the table's rows, as
  the `while (query.next())` loops over the query result do.
  `GetPlanNumberByDate` has no SQL engine to do the `GROUP BY` with
  `COUNT`/`SUM` for it (database.cpp:176-179), so its loop walks the raw
  plan rows and counts each day itself; the C++ loop (database.cpp:187-195)
  walks one result row per day instead. `GetReviewByDate` and the two name
  lookups read at most one row and have no loop, like the source.

Modelling choices:

- A date is a day number (`Tables.Date`). The store keeps dates as ISO text,
  whose order is the calendar order, so `BETWEEN` becomes `<=` on numbers.
- Where the model keeps a nullable column it is an `Option`: `due_date`,
  `completed_date`, `task_id` and `habit_id`. The cleared `completed_date`
  (written as `''` and read back as an invalid date) is `None`. The other
  nullable columns (`plan_name`, `target_frequency`, `reflection`,
  `summary`, `created_date`, `index_id`, `status`) are always present in
  the model; binding a null value into them is listed under "Left out".
- The current date (`QDate::currentDate()`, and SQLite's `CURRENT_DATE` used as
  the default of `created_date`) is the parameter `today`.
- Whether the connection opened (database.cpp:8) is the field `open`. When it
  is false, every statement fails. Reads then return empty results,
  `getReviewByDate` returns empty strings, the name lookups return 0, and
  writes change nothing. In `updateTaskStatus` that is the failure that skips
  the plan cascade.
- Constraint failures are modelled where the code can cause them. The CHECK
  of `daily_plan` requires exactly one of `task_id`/`habit_id` to be set. An
  upsert whose UPDATE would set `habit_id` on a slot row that already has a
  `task_id` (or the other way round) is rejected by that CHECK. The whole
  statement is undone and the method returns with nothing changed.
- `numRowsAffected()` after an UPDATE is the number of rows the WHERE matched.
- `Database.Valid()` holds the schema's invariants. Ids are positive and
  increase in rowid order (AUTOINCREMENT, and no row is ever deleted). Every
  plan row has exactly one of `task_id`/`habit_id`. `review_date` is unique.
  Every method preserves `Valid()`.
- `SlotsKeyed` says there is at most one plan row per `(plan_date,
  index_id)`. The schema does not declare this, but every method preserves
  it. The read-after-write lemma for the upsert relies on it.

Behaviour of the code worth noting:

- `updateTaskStatus` clears `completed_date` for statuses 0, 2 and 4 and sets
  it to today for every other value, including codes outside 0..4
  (database.cpp:269-288).
- Its cascade writes every plan row of today that refers to the task, not
  just one (database.cpp:295-307). For a status outside 1..4 no cascade
  statement is prepared, its execution fails, and the plan table is left
  as it was (database.cpp:310).
- The write operations return `void` (for example database.cpp:245, 399, 465).
  Success or failure shows only in the resulting state.
- Nothing in the schema makes `(plan_date, index_id)` unique
  (database.cpp:41-53). The upsert of `updateHabitPlan`/`updateTaskPlan`
  keeps it unique by updating first and inserting only when no row was
  affected (database.cpp:399-463).

## Model

| member | source | states |
|---|---|---|
| `Utils.TaskStatusToString` | utils.cpp:9-16 | a code in 0..4 gives its task label; the result is the fallback label exactly when the code is out of range |
| `Utils.HabitStatusToString` | utils.cpp:18-25 | a code in 0..2 gives its habit label; the fallback label exactly when out of range |
| `Utils.PlanStatusToString` | utils.cpp:27-34 | a code in 0..2 gives its plan label; the fallback label exactly when out of range |
| `Utils.IndexOf` | utils.cpp:59 | `indexOf`: -1 exactly when the label is absent, otherwise the position of its first occurrence |
| `Utils.LabelAt` | utils.cpp:11-15 | the fallback label exactly when the code is outside the list, otherwise the label at that position |
| `Utils.TaskStatusFromString` | utils.cpp:56-61 | -1 exactly for a label not in the task list, otherwise a code in [0, 5) whose label it is |
| `Utils.HabitStatusFromString` | utils.cpp:63-68 | -1 exactly for a label not in the habit list, otherwise a code in [0, 3) whose label it is |
| `Utils.PlanStatusFromString` | utils.cpp:70-75 | -1 exactly for a label not in the plan list, otherwise a code in [0, 3) whose label it is |
| `Utils.VocabulariesWellFormed` | utils.cpp:36-54 | list sizes 5, 3, 3 and 5; no list repeats a label; the fallback label is in no status list |
| `Utils.TaskStatusRoundTrip` | utils.cpp:9-61 | parsing the label of any task code 0..4 gives the code back |
| `Utils.HabitStatusRoundTrip` | utils.cpp:18-68 | parsing the label of any habit code 0..2 gives the code back |
| `Utils.PlanStatusRoundTrip` | utils.cpp:27-75 | parsing the label of any plan code 0..2 gives the code back |
| `Utils.LabelRoundTrip` | utils.cpp:9-75 | printing the code of a known label gives the label back; an unknown label parses as -1 in each vocabulary |
| `Utils.UnknownStatusRejected` | utils.cpp:9-75 | the fallback label parses as -1 in every vocabulary, so an out-of-range code does not survive printing and parsing |
| `Tables.AutoIdsAppend` | database.cpp:23 | inserting with the next AUTOINCREMENT id keeps ids positive and increasing, and the new id is unused |
| `Tables.TasksSelected` | database.cpp:66-101 | a task is returned exactly when it is in the table and the selector is 0 or its status is selector - 1 |
| `Tables.TasksSelectedAll` | database.cpp:71-76 | selector 0 returns the whole task table in order |
| `Tables.HabitsSelected` | database.cpp:103-137 | a habit is returned exactly when it is in the table and the selector is 0 or its status is selector - 1 |
| `Tables.HabitsSelectedAll` | database.cpp:108-113 | selector 0 returns the whole habit table in order |
| `Tables.CountOn` | database.cpp:176-179 | a day's row count is positive exactly when some plan row has that date |
| `Tables.CompletedOn` | database.cpp:176 | a day's completed count (status 1) never exceeds its row count |
| `Tables.PlanItems` | database.cpp:139-169 | at most one item per row of the day, each of kind task or habit |
| `Tables.ItemOf` | database.cpp:157-165 | a row yields an item exactly when one of its id columns is set; the item has the row's name and status and is a task exactly when task_id is set, a habit otherwise |
| `Tables.PlanItemsMembership` | database.cpp:152-166 | an item is reported for a date exactly when a row of that date yields it: "task" if task_id is set, else "habit" if habit_id is set, else nothing |
| `Tables.PlanItemsComplete` | database.cpp:157-163 | under the CHECK constraint no row is skipped: one item per row of the day |
| `Tables.TallyRowStep` | database.cpp:176-195 | counting one more row keeps the map equal to the per-day completed/total counts of the rows read so far, over days in range |
| `Tables.TallyRow` | database.cpp:174-195 | a row inside [start, end] adds one to its day's total, and one to the completed count when its status is 1; every other day's entry and every row outside the range leave the map as it was |
| `Tables.FirstTaskIdIsFirstMatch` | database.cpp:380-397 | 0 when no task has the name; otherwise the id of the first task with that name |
| `Tables.FirstTaskId` | database.cpp:380-397 | 0 when no task has the name; otherwise 0 or the id of a task with that name |
| `Tables.FirstHabitIdIsFirstMatch` | database.cpp:362-378 | 0 when no habit has the name; otherwise the id of the first habit with that name |
| `Tables.FirstHabitId` | database.cpp:362-378 | 0 when no habit has the name; otherwise 0 or the id of a habit with that name |
| `Tables.ReviewOn` | database.cpp:200-217 | empty strings when no review has the date; otherwise the reflection and summary of a review of that date |
| `Tables.ReviewOnUnique` | database.cpp:59 | with unique review dates, the review reported for a date is the one stored for it |
| `Tables.EditTask` | database.cpp:245-289 | `UPDATE task ... WHERE id = ?`: the row with that id gets the new field values, every other row and every id is unchanged |
| `Tables.EditHabit` | database.cpp:314-360 | `UPDATE habits ... WHERE id = ?`: the row with that id gets the new field value, every other row and every id is unchanged |
| `Tables.CompletionDate` | database.cpp:272-286 | completed_date is cleared exactly for statuses 0, 2 and 4, and is today otherwise |
| `Tables.CascadeStatus` | database.cpp:295-307 | a plan status is written exactly for task statuses 1..4: 1 for 1 and 3, 2 for 2 and 4 |
| `Tables.MarkDay` | database.cpp:295-308 | exactly the rows of that date referring to that task get the new status; all else is unchanged |
| `Tables.Cascade` | database.cpp:295-312 | same length; a row of today referring to the task gets status 1 (task status 1, 3) or 2 (task status 2, 4); every other row, and every row for any other task status, is unchanged |
| `Tables.CascadeFrame` | database.cpp:295-311 | the cascade changes only the status of today's rows of the task: status 1 for task status 1 or 3, status 2 for 2 or 4, nothing for any other status; habit rows and other days are untouched; the CHECK, slot keys and ids are kept |
| `Tables.CascadeCounts` | database.cpp:295-308 | the cascade changes no day's row count, and no completed count on days other than today |
| `Tables.FillSlot` | database.cpp:402-409 | the UPDATE rewrites id, name and status of exactly the rows of slot (date, index) |
| `Tables.Assign` | database.cpp:402-404 | the row now refers to the given task or habit and has the new name and status; its id, date, slot and other id column are kept |
| `Tables.SlotRejects` | database.cpp:52 | a rejection needs a row in the slot, and under the CHECK that row refers to the other kind of item |
| `Tables.NewRow` | database.cpp:418-424 | the inserted row satisfies the CHECK, refers to the given item, sits in the slot and has the given id, name and status |
| `Tables.SlotRejectsOtherKind` | database.cpp:399-447 | under the CHECK, an upsert is rejected exactly when a row of its slot refers to the other kind of item |
| `Tables.SlotUpsertShape` | database.cpp:399-463 | rejected: table unchanged; slot present: rows stay in place and only the slot's rows change; slot absent: one row appended with the next id, the given reference, date, name, index and status; the CHECK and one row per slot are kept |
| `Tables.SlotUpsertReadBack` | database.cpp:399-463 | after an upsert that is not rejected, the slot holds exactly one row, with the given name, status and reference, and getPlanByDate reports it |
| `Tables.SlotUpsertCounts` | database.cpp:416-429 | an update leaves every day's row count unchanged; an insert adds one row to its own day only |
| `Tables.SlotUpsert` | database.cpp:399-463 | a rejection changes nothing; one row is added exactly when the slot was empty; existing rows keep id, date and slot; when not rejected the slot is filled afterwards |
| `Tables.RewriteReview` | database.cpp:468-473 | exactly the reviews of that date get the new reflection and summary |
| `Tables.ReviewUpsert` | database.cpp:465-492 | one row is added exactly when the date had no review; the date has a review afterwards; existing rows keep id and date |
| `Tables.ReviewUpsertShape` | database.cpp:465-492 | rows keep their place, date and id; only rows of the date get the new text; a row with the next id is appended exactly when the date had none; unique dates stay unique |
| `Tables.ReviewUpsertOtherDate` | database.cpp:465-492 | an upsert for one date leaves the review reported for any other date unchanged |
| `Tables.ReviewUpsertReadBack` | database.cpp:465-492 | afterwards the date's review is the one written, every other date's review is unchanged, and dates stay unique |
| `Persistence.Database.constructor` | database.cpp:5-15 | a store with empty tables satisfying the schema invariants, every AUTOINCREMENT counter at 1 so the first id of each table is 1, open or not as the connection turned out |
| `Persistence.Database.Valid` | database.cpp:17-64 | the schema's invariants: ids are unique in each of the four tables, and every plan row refers to exactly one of a task and a habit |
| `Persistence.Database.GetTaskByStatus` | database.cpp:66-101 | the rows of the selector (all for 0, status s-1 for s), in order; empty when the store is not open |
| `Persistence.Database.GetHabitByStatus` | database.cpp:103-137 | the habits of the selector (all for 0, status s-1 for s), in order; empty when the store is not open |
| `Persistence.Database.GetPlanByDate` | database.cpp:139-169 | exactly the items of that date's rows, one per row, each tagged task or habit |
| `Persistence.Database.GetPlanNumberByDate` | database.cpp:171-198 | a key exactly for each day in [start, end] with plan rows, mapped to its completed and total counts, with 1 <= total and completed <= total |
| `Persistence.Database.GetReviewByDate` | database.cpp:200-217 | the stored reflection and summary of that date, or empty strings when there is none |
| `Persistence.Database.GetTaskIdByName` | database.cpp:380-397 | 0 exactly when no task has the name (0 is no task's id); otherwise the id of a task with that name, the first one |
| `Persistence.Database.GetHabitIdByName` | database.cpp:362-378 | 0 exactly when no habit has the name (0 is no habit's id); otherwise the id of a habit with that name, the first one |
| `Persistence.Database.AddTask` | database.cpp:219-230 | appends one task with an unused id, the name and due date, created today, status 0, not completed; nothing else changes |
| `Persistence.Database.AddHabit` | database.cpp:232-243 | appends one habit with an unused id, the name and frequency, created today, status 0; nothing else changes |
| `Persistence.Database.UpdateTaskName` | database.cpp:245-255 | only the task with that id is renamed; invariants kept |
| `Persistence.Database.UpdateTaskDueDate` | database.cpp:257-267 | only the task with that id gets the new due date; invariants kept |
| `Persistence.Database.UpdateTaskStatus` | database.cpp:269-312 | the task gets the status; its completion date is cleared for 0, 2 and 4 and is today otherwise; only if that update ran, today's plan rows of the task follow the cascade |
| `Persistence.Database.UpdateHabitName` | database.cpp:314-324 | only the habit with that id is renamed; invariants kept |
| `Persistence.Database.UpdateHabitCreatedDate` | database.cpp:326-336 | only the habit with that id gets the new creation date; invariants kept |
| `Persistence.Database.UpdateHabitFrequency` | database.cpp:338-348 | only the habit with that id gets the new frequency; invariants kept |
| `Persistence.Database.UpdateHabitStatus` | database.cpp:350-360 | only the habit with that id gets the new status; invariants kept |
| `Persistence.Database.UpsertSlot` | database.cpp:399-463 | update by (date, index), insert when no row matched, nothing when the CHECK rejects the update; invariants and one row per slot kept |
| `Persistence.Database.UpdateHabitPlan` | database.cpp:399-430 | slot upsert with a habit id; a slot that holds a task row is left unchanged |
| `Persistence.Database.UpdateTaskPlan` | database.cpp:432-463 | slot upsert with a task id; a slot that holds a habit row is left unchanged |
| `Persistence.Database.UpdateReview` | database.cpp:465-492 | afterwards getReviewByDate(date) returns the written reflection and summary, other dates are unchanged, one review per date; the AUTOINCREMENT counter advances exactly when a row was inserted |

## Left out

- The SQLite engine and the `QSqlQuery` binding mechanics. Each statement is modelled as the table operation it performs.
- `createTables` as DDL. Its constraints are the invariant `Database.Valid()`. The constructor starts from empty tables, so rows already in an existing database file are not modelled.
- Statement failures other than an unopened connection and the CHECK of `daily_plan` are not modelled: disk errors, locking, and NULL bound from a null `QString` or invalid `QDate` into a NOT NULL column. Strings and dates in the model are always present, except for the due date and the completion date, which are `Option`s.
- Persistence.Database.UpdateHabitCreatedDate: does not model an invalid `QDate` being stored as NULL.
- Foreign keys are not enforced (SQLite leaves them off unless a pragma enables them), so plan rows may refer to id 0 or to missing rows. The model allows this too. `ON DELETE CASCADE` is not modelled because no delete operation exists.
- Persistence.Database.GetPlanNumberByDate: returns the completed and total counts (`Ratio`) instead of the `double` quotient.
- Persistence.Database.UpdateTaskStatus: reads the current date once. The C++ code reads it twice, so around midnight the completion date and the cascade's date can differ. The model also uses the same `today` for SQLite's UTC `CURRENT_DATE` default and Qt's local date.
- Rows come back in rowid order (insertion order). This is SQLite's usual order for a query without `ORDER BY`; SQL does not guarantee it.
- Ids and statuses are unbounded integers. The 32-bit `toInt()` conversion is not modelled.
- `qDebug` logging.
- The window, its header labels and the three status delegates. They only fill combo boxes from the label lists.
- The stale declarations in `database.h` and `utils.h`.
- Deriving which recurring habits appear on a date from their frequency, and saving an edited day's plan row by row. Neither is part of this model.
