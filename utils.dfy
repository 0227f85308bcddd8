/** The planner's status vocabularies: three fixed label lists (tasks, habits,
    plan items), the habit-frequency list, and the code <-> label mappings.
    A code is a position in its list; a label outside the list maps to -1 and
    a code outside the list maps to the fallback label. */
module Utils {

  /** Label shown for a code that is not in its vocabulary. */
  const UnknownStatus: string := "未知状态"

  /** Task statuses: in progress, completed, not completed, completed late, cancelled. */
  const TaskStatusList: seq<string> := ["进行中", "已完成", "未完成", "超时完成", "已取消"]

  /** Habit statuses: in progress, completed, cancelled. */
  const HabitStatusList: seq<string> := ["进行中", "已完成", "已取消"]

  /** Habit frequencies: daily, every second day, every third day, Fridays, Saturdays. */
  const HabitFrequencyList: seq<string> := ["每日一次", "每二日一次", "每三日一次", "每周周五", "每周周六"]

  /** Plan-item statuses: in progress, completed, not completed. */
  const PlanStatusList: seq<string> := ["进行中", "已完成", "未完成"]

  /** No label occurs twice in the list. */
  predicate Distinct(list: seq<string>) {
    forall i, j :: 0 <= i < j < |list| ==> list[i] != list[j]
  }

  /** QStringList::indexOf: the position of the first occurrence of `text`, or -1. */
  function IndexOf(list: seq<string>, text: string): (k: int)
    ensures -1 <= k < |list|
    ensures k == -1 <==> text !in list
    ensures 0 <= k ==> list[k] == text && forall j :: 0 <= j < k ==> list[j] != text
  {
    if list == [] then -1
    else if list[0] == text then 0
    else
      var k := IndexOf(list[1..], text);
      assert text in list[1..] <==> text in list;
      if k == -1 then -1 else k + 1
  }

  /** Bounds-checked lookup shared by the three *StatusToString functions. */
  function LabelAt(list: seq<string>, code: int): (text: string)
    requires UnknownStatus !in list
    ensures text == UnknownStatus <==> !(0 <= code < |list|)
    ensures 0 <= code < |list| ==> text == list[code]
  {
    if 0 <= code < |list| then list[code] else UnknownStatus
  }

  /** The position of a label in a list without repetitions is the code it stands at. */
  lemma {:induction false} IndexOfDistinct(list: seq<string>, code: int)
    requires Distinct(list)
    requires 0 <= code < |list|
    ensures IndexOf(list, list[code]) == code
  {
    assert list[code] in list;
  }

  /** Every list has its fixed size and no repeated label, and the fallback
      label is in none of the status lists. */
  lemma VocabulariesWellFormed()
    ensures |TaskStatusList| == 5 && |HabitStatusList| == 3 && |PlanStatusList| == 3
    ensures |HabitFrequencyList| == 5
    ensures Distinct(TaskStatusList) && Distinct(HabitStatusList) && Distinct(PlanStatusList)
    ensures Distinct(HabitFrequencyList)
    ensures UnknownStatus !in TaskStatusList && UnknownStatus !in HabitStatusList
    ensures UnknownStatus !in PlanStatusList
  {
  }

  function TaskStatusToString(status: int): (text: string)
    ensures 0 <= status < |TaskStatusList| ==> text == TaskStatusList[status]
    ensures text == UnknownStatus <==> !(0 <= status < |TaskStatusList|)
  {
    VocabulariesWellFormed();
    LabelAt(TaskStatusList, status)
  }

  function HabitStatusToString(status: int): (text: string)
    ensures 0 <= status < |HabitStatusList| ==> text == HabitStatusList[status]
    ensures text == UnknownStatus <==> !(0 <= status < |HabitStatusList|)
  {
    VocabulariesWellFormed();
    LabelAt(HabitStatusList, status)
  }

  function PlanStatusToString(status: int): (text: string)
    ensures 0 <= status < |PlanStatusList| ==> text == PlanStatusList[status]
    ensures text == UnknownStatus <==> !(0 <= status < |PlanStatusList|)
  {
    VocabulariesWellFormed();
    LabelAt(PlanStatusList, status)
  }

  function TaskStatusFromString(text: string): (code: int)
    ensures -1 <= code < |TaskStatusList|
    ensures code == -1 <==> text !in TaskStatusList
    ensures 0 <= code ==> TaskStatusList[code] == text
  {
    IndexOf(TaskStatusList, text)
  }

  function HabitStatusFromString(text: string): (code: int)
    ensures -1 <= code < |HabitStatusList|
    ensures code == -1 <==> text !in HabitStatusList
    ensures 0 <= code ==> HabitStatusList[code] == text
  {
    IndexOf(HabitStatusList, text)
  }

  function PlanStatusFromString(text: string): (code: int)
    ensures -1 <= code < |PlanStatusList|
    ensures code == -1 <==> text !in PlanStatusList
    ensures 0 <= code ==> PlanStatusList[code] == text
  {
    IndexOf(PlanStatusList, text)
  }

  /** Code -> label -> code is the identity on each vocabulary. */
  lemma {:induction false} TaskStatusRoundTrip(status: int)
    requires 0 <= status < 5
    ensures TaskStatusFromString(TaskStatusToString(status)) == status
  {
    VocabulariesWellFormed();
    IndexOfDistinct(TaskStatusList, status);
  }

  lemma {:induction false} HabitStatusRoundTrip(status: int)
    requires 0 <= status < 3
    ensures HabitStatusFromString(HabitStatusToString(status)) == status
  {
    VocabulariesWellFormed();
    IndexOfDistinct(HabitStatusList, status);
  }

  lemma {:induction false} PlanStatusRoundTrip(status: int)
    requires 0 <= status < 3
    ensures PlanStatusFromString(PlanStatusToString(status)) == status
  {
    VocabulariesWellFormed();
    IndexOfDistinct(PlanStatusList, status);
  }

  /** Label -> code -> label is the identity on every label a vocabulary
      knows, and every other label is rejected with -1. */
  lemma LabelRoundTrip(text: string)
    ensures text in TaskStatusList ==> TaskStatusToString(TaskStatusFromString(text)) == text
    ensures text in HabitStatusList ==> HabitStatusToString(HabitStatusFromString(text)) == text
    ensures text in PlanStatusList ==> PlanStatusToString(PlanStatusFromString(text)) == text
    ensures text !in TaskStatusList ==> TaskStatusFromString(text) == -1
    ensures text !in HabitStatusList ==> HabitStatusFromString(text) == -1
    ensures text !in PlanStatusList ==> PlanStatusFromString(text) == -1
  {
  }

  /** The fallback label is not a status: parsing it fails in every vocabulary,
      so printing an out-of-range code and parsing it back yields -1. */
  lemma {:induction false} UnknownStatusRejected(status: int)
    ensures TaskStatusFromString(UnknownStatus) == -1
    ensures HabitStatusFromString(UnknownStatus) == -1
    ensures PlanStatusFromString(UnknownStatus) == -1
    ensures !(0 <= status < 5) ==> TaskStatusFromString(TaskStatusToString(status)) == -1
    ensures !(0 <= status < 3) ==> HabitStatusFromString(HabitStatusToString(status)) == -1
    ensures !(0 <= status < 3) ==> PlanStatusFromString(PlanStatusToString(status)) == -1
  {
    VocabulariesWellFormed();
  }
}
