/**
 * The task logic of the GUI to-do manager (todo.py): class `TaskManager`
 * keeps a list of `{title, due}` records, validates what is added, deletes,
 * searches a copy sorted by lower-cased title with binary search, and finds
 * the task due first.
 */
module TaskList {
  import opened Wrappers
  import opened Text
  import opened Dates

  /** One task: the dictionary `{"title": ..., "due": ...}`. */
  datatype Record = Record(title: string, due: string)

  /** The key `sorted` orders by and `binary_search` compares: the lower-cased title. */
  function TitleKey(r: Record): string {
    Lower(r.title)
  }

  /** No task ranks after a later one by lower-cased title. */
  ghost predicate SortedByTitle(s: seq<Record>) {
    forall i, j :: 0 <= i < j < |s| ==> !Less(TitleKey(s[j]), TitleKey(s[i]))
  }

  /** Puts `x` into the sorted list `s` after every task whose key is not larger. */
  function InsertByTitle(x: Record, s: seq<Record>): (r: seq<Record>)
    ensures multiset(r) == multiset(s) + multiset{x}
  {
    if s == [] || Less(TitleKey(x), TitleKey(s[0])) then [x] + s
    else
      assert s == [s[0]] + s[1..];
      [s[0]] + InsertByTitle(x, s[1..])
  }

  lemma {:induction false} InsertByTitleSorted(x: Record, s: seq<Record>)
    requires SortedByTitle(s)
    ensures SortedByTitle(InsertByTitle(x, s))
  {
    var r := InsertByTitle(x, s);
    if s == [] {
    } else if Less(TitleKey(x), TitleKey(s[0])) {
      forall k | 0 < k < |r|
        ensures !Less(TitleKey(r[k]), TitleKey(x))
      {
        assert r[k] == s[k - 1];
        if k == 1 {
          LessAsymmetric(TitleKey(x), TitleKey(s[0]));
        } else if Less(TitleKey(r[k]), TitleKey(x)) {
          LessTransitive(TitleKey(r[k]), TitleKey(x), TitleKey(s[0]));
        }
      }
    } else {
      InsertByTitleSorted(x, s[1..]);
      var rest := InsertByTitle(x, s[1..]);
      forall k | 0 <= k < |rest|
        ensures !Less(TitleKey(rest[k]), TitleKey(s[0]))
      {
        assert rest[k] in multiset(rest);
        if rest[k] != x {
          assert rest[k] in s[1..];
        }
      }
    }
  }

  /**
   * `sorted(self.tasks, key=lambda x: x['title'].lower())`: a rearrangement of
   * the tasks that is sorted by lower-cased title.
   */
  function SortByTitle(s: seq<Record>): (r: seq<Record>)
    ensures SortedByTitle(r)
    ensures multiset(r) == multiset(s)
  {
    if s == [] then []
    else
      var rest := SortByTitle(s[..|s| - 1]);
      InsertByTitleSorted(s[|s| - 1], rest);
      assert s == s[..|s| - 1] + [s[|s| - 1]];
      InsertByTitle(s[|s| - 1], rest)
  }

  /** A task as `add_task` stores it: a stripped, non-empty title and a due date `strptime` accepts. */
  ghost predicate WellFormed(r: Record) {
    r.title != [] && Strip(r.title) == r.title && Strip(r.due) == r.due && IsValidDate(r.due)
  }

  /** `i` is the first position of a task whose due string is not larger than any other. */
  ghost predicate FirstLeastDue(s: seq<Record>, i: int) {
    && 0 <= i < |s|
    && (forall k :: 0 <= k < |s| ==> !Less(s[k].due, s[i].due))
    && (forall k :: 0 <= k < i ==> Less(s[i].due, s[k].due))
  }

  /** The date a task is due on, where `strptime` accepts its due string. */
  function DueDate(r: Record): Date
    requires IsValidDate(r.due)
  {
    ParseDate(r.due).value
  }

  /** Every due string in `s` is one `strptime` accepts. */
  ghost predicate DatesValid(s: seq<Record>) {
    forall k :: 0 <= k < |s| ==> IsValidDate(s[k].due)
  }

  /** The due dates of the tasks, in list order. */
  function DueDates(s: seq<Record>): (r: seq<Date>)
    requires DatesValid(s)
    ensures |r| == |s| && forall k :: 0 <= k < |s| ==> r[k] == DueDate(s[k])
  {
    seq(|s|, k requires 0 <= k < |s| => DueDate(s[k]))
  }

  /** `i` is the first position of a date no later than any other in `dates`. */
  ghost predicate FirstEarliest(dates: seq<Date>, i: int) {
    && 0 <= i < |dates|
    && (forall k :: 0 <= k < |dates| ==> !Before(dates[k], dates[i]))
    && (forall k :: 0 <= k < i ==> Before(dates[i], dates[k]))
  }

  /** `i` is the first position of a task due no later than any other, by the calendar. */
  ghost predicate FirstEarliestDate(s: seq<Record>, i: int) {
    DatesValid(s) && FirstEarliest(DueDates(s), i)
  }

  /** The first position of the earliest of a non-empty list of dates. */
  method EarliestDate(dates: seq<Date>) returns (index: nat)
    requires dates != []
    ensures FirstEarliest(dates, index)
  {
    index := 0;
    for i := 0 to |dates|
      invariant 0 <= index < |dates| && index <= i
      invariant forall k :: 0 <= k < i ==> !Before(dates[k], dates[index])
      invariant forall k :: 0 <= k < index ==> Before(dates[index], dates[k])
    {
      if Before(dates[i], dates[index]) {
        index := i;
      }
    }
  }

  /**
   * A due string below one that no earlier due string is below is itself
   * below every earlier due string.
   */
  lemma NewLeastDue(s: seq<Record>, i: int, least: string)
    requires 0 <= i < |s| && Less(s[i].due, least)
    requires forall k :: 0 <= k < i ==> !Less(s[k].due, least)
    ensures forall k :: 0 <= k < i ==> Less(s[i].due, s[k].due) && !Less(s[k].due, s[i].due)
    ensures !Less(s[i].due, s[i].due)
  {
    forall k | 0 <= k < i
      ensures Less(s[i].due, s[k].due) && !Less(s[k].due, s[i].due)
    {
      if s[k].due != least {
        LessTotal(s[k].due, least);
        LessTransitive(s[i].due, least, s[k].due);
      }
      LessAsymmetric(s[i].due, s[k].due);
    }
    LessIrreflexive(s[i].due);
  }

  /** What `add_task` does with the two input fields. */
  datatype AddOutcome = Added | EmptyTitle | BadDate

  /** What `search_task` reports. */
  datatype SearchOutcome = NoTasks | Cancelled | Found(task: Record) | NotFound

  class TaskManager {
    /** `self.tasks`: the task list, in insertion order. */
    var tasks: seq<Record>

    /** Every listed task passed the checks of `add_task`. */
    ghost predicate Valid()
      reads this
    {
      forall k :: 0 <= k < |tasks| ==> WellFormed(tasks[k])
    }

    /** `__init__`, without the window: the task list starts empty. */
    constructor ()
      ensures tasks == [] && Valid()
    {
      tasks := [];
    }

    /**
     * `add_task`: strips both fields, refuses an empty title, then refuses a
     * date `strptime(..., "%Y-%m-%d")` rejects, and otherwise appends the task.
     */
    method AddTask(taskField: string, dateField: string) returns (outcome: AddOutcome)
      requires Valid()
      modifies this
      ensures Valid()
      ensures Strip(taskField) == [] ==> outcome == EmptyTitle && tasks == old(tasks)
      ensures Strip(taskField) != [] && !IsValidDate(Strip(dateField)) ==>
        outcome == BadDate && tasks == old(tasks)
      ensures Strip(taskField) != [] && IsValidDate(Strip(dateField)) ==>
        outcome == Added && tasks == old(tasks) + [Record(Strip(taskField), Strip(dateField))]
    {
      var task := Strip(taskField);
      var dueDate := Strip(dateField);
      if task == [] {
        return EmptyTitle;
      }
      if ParseDate(dueDate).None? {
        return BadDate;
      }
      StripIdempotent(taskField);
      StripIdempotent(dateField);
      tasks := tasks + [Record(task, dueDate)];
      return Added;
    }

    /**
     * `delete_task`: removes the task at the first selected position; with
     * nothing selected, or a position past the end, `IndexError` is caught
     * and nothing changes.
     */
    method DeleteTask(selection: seq<nat>) returns (deleted: bool)
      requires Valid()
      modifies this
      ensures Valid()
      ensures deleted <==> selection != [] && selection[0] < |old(tasks)|
      ensures deleted ==> tasks == old(tasks)[..selection[0]] + old(tasks)[selection[0] + 1..]
      ensures !deleted ==> tasks == old(tasks)
    {
      if selection == [] || selection[0] >= |tasks| {
        return false;
      }
      var index := selection[0];
      tasks := tasks[..index] + tasks[index + 1..];
      return true;
    }

    /** `delete_all_tasks`: empties the list when the user confirms. */
    method DeleteAllTasks(confirmed: bool)
      requires Valid()
      modifies this
      ensures Valid()
      ensures tasks == if confirmed then [] else old(tasks)
    {
      if confirmed {
        tasks := [];
      }
    }

    /**
     * `binary_search`: a position whose lower-cased title equals the
     * lower-cased target, or -1. On a list sorted by lower-cased title, -1
     * means no title matches.
     */
    method BinarySearch(sortedTasks: seq<Record>, target: string) returns (index: int)
      ensures index == -1 || (0 <= index < |sortedTasks| && TitleKey(sortedTasks[index]) == Lower(target))
      ensures index == -1 && SortedByTitle(sortedTasks) ==>
        forall k :: 0 <= k < |sortedTasks| ==> TitleKey(sortedTasks[k]) != Lower(target)
    {
      var low, high := 0, |sortedTasks| - 1;
      while low <= high
        invariant 0 <= low && high < |sortedTasks|
        invariant SortedByTitle(sortedTasks) ==>
          forall k :: 0 <= k < |sortedTasks| && TitleKey(sortedTasks[k]) == Lower(target) ==> low <= k <= high
        decreases high - low
      {
        var mid := (low + high) / 2;
        var midVal := TitleKey(sortedTasks[mid]);
        if midVal == Lower(target) {
          return mid;
        } else if Less(midVal, Lower(target)) {
          low := mid + 1;
        } else {
          LessTotal(midVal, Lower(target));
          high := mid - 1;
        }
      }
      return -1;
    }

    /**
     * `search_task`: with tasks listed and a non-empty name given, finds a
     * task whose lower-cased title equals the lower-cased name by binary
     * search over a copy sorted by title; the task list is not changed.
     */
    method SearchTask(taskName: Option<string>) returns (outcome: SearchOutcome)
      ensures outcome == NoTasks <==> tasks == []
      ensures outcome == Cancelled <==> tasks != [] && (taskName == None || taskName == Some(""))
      ensures outcome.Found? ==> taskName.Some? && outcome.task in tasks && TitleKey(outcome.task) == Lower(taskName.value)
      ensures outcome == NotFound ==>
        taskName.Some? && forall k :: 0 <= k < |tasks| ==> TitleKey(tasks[k]) != Lower(taskName.value)
    {
      if tasks == [] {
        return NoTasks;
      }
      if taskName == None || taskName == Some("") {
        return Cancelled;
      }
      var sortedTasks := SortByTitle(tasks);
      var index := BinarySearch(sortedTasks, taskName.value);
      if index != -1 {
        assert sortedTasks[index] in multiset(tasks);
        return Found(sortedTasks[index]);
      }
      forall k | 0 <= k < |tasks|
        ensures TitleKey(tasks[k]) != Lower(taskName.value)
      {
        assert tasks[k] in multiset(sortedTasks);
      }
      return NotFound;
    }

    /**
     * `get_earliest_due_index`: `None` for an empty list, otherwise the first
     * position whose due string is smallest as Python compares strings.
     */
    method GetEarliestDueIndex() returns (index: Option<nat>)
      ensures index.None? <==> tasks == []
      ensures index.Some? ==> FirstLeastDue(tasks, index.value)
    {
      if tasks == [] {
        return None;
      }
      var earliestIndex := 0;
      var earliestDate := tasks[0].due;
      for i := 0 to |tasks|
        invariant 0 <= earliestIndex < |tasks| && earliestIndex <= i
        invariant earliestDate == tasks[earliestIndex].due
        invariant forall k :: 0 <= k < i ==> !Less(tasks[k].due, earliestDate)
        invariant forall k :: 0 <= k < earliestIndex ==> Less(earliestDate, tasks[k].due)
      {
        if Less(tasks[i].due, earliestDate) {
          NewLeastDue(tasks, i, earliestDate);
          earliestDate := tasks[i].due;
          earliestIndex := i;
        }
      }
      return Some(earliestIndex);
    }

    /**
     * The intended `get_earliest_due_index`: the first position of a task due
     * no later than any other by the calendar, comparing the dates
     * `strptime` read rather than the strings.
     */
    method GetEarliestDateIndex() returns (index: Option<nat>)
      requires Valid()
      ensures index.None? <==> tasks == []
      ensures index.Some? ==> FirstEarliestDate(tasks, index.value)
    {
      if tasks == [] {
        return None;
      }
      assert DatesValid(tasks);
      var earliestIndex := EarliestDate(DueDates(tasks));
      return Some(earliestIndex);
    }
  }

  /**
   * Two tasks whose due strings Python orders one way while their dates run
   * the other: comparing strings picks the second where the first is due first.
   */
  lemma MisorderedPair(s: seq<Record>)
    requires |s| == 2 && DatesValid(s)
    requires Less(s[1].due, s[0].due) && Before(DueDate(s[0]), DueDate(s[1]))
    ensures FirstLeastDue(s, 1) && !FirstLeastDue(s, 0)
    ensures FirstEarliestDate(s, 0) && !FirstEarliestDate(s, 1)
  {
    StringScanPicksSecond(s);
    DateScanPicksFirst(DueDates(s));
  }

  lemma StringScanPicksSecond(s: seq<Record>)
    requires |s| == 2 && Less(s[1].due, s[0].due)
    ensures FirstLeastDue(s, 1) && !FirstLeastDue(s, 0)
  {
    LessAsymmetric(s[1].due, s[0].due);
    LessIrreflexive(s[1].due);
  }

  lemma DateScanPicksFirst(dates: seq<Date>)
    requires |dates| == 2 && Before(dates[0], dates[1])
    ensures FirstEarliest(dates, 0) && !FirstEarliest(dates, 1)
  {
  }

  /** Two tasks `add_task` accepts, with due dates written without the month's leading zero. */
  const UnpaddedTasks: seq<Record> := [Record("Alpha", "2025-9-01"), Record("Beta", "2025-10-01")]

  /**
   * `strptime` accepts a month without its leading zero, and on such dates
   * Python's string order is not the calendar's: "2025-10-01" compares below
   * "2025-9-01", so `get_earliest_due_index` picks the October task where the
   * September one is due first.
   */
  lemma UnpaddedDueMisordered()
    ensures FirstLeastDue(UnpaddedTasks, 1) && !FirstLeastDue(UnpaddedTasks, 0)
    ensures FirstEarliestDate(UnpaddedTasks, 0) && !FirstEarliestDate(UnpaddedTasks, 1)
  {
    UnpaddedOrdersDisagree();
    MisorderedPair(UnpaddedTasks);
  }

  /** On the example, Python's string order and the calendar disagree. */
  lemma UnpaddedOrdersDisagree()
    ensures |UnpaddedTasks| == 2 && DatesValid(UnpaddedTasks)
    ensures Less(UnpaddedTasks[1].due, UnpaddedTasks[0].due)
    ensures Before(DueDate(UnpaddedTasks[0]), DueDate(UnpaddedTasks[1]))
  {
    UnpaddedDues();
    OctoberSortsFirst();
  }

  /** The example's due dates, as strings and as the dates `strptime` reads. */
  lemma UnpaddedDues()
    ensures |UnpaddedTasks| == 2
    ensures UnpaddedTasks[0].due == "2025-9-01" && UnpaddedTasks[1].due == "2025-10-01"
    ensures DatesValid(UnpaddedTasks)
    ensures DueDate(UnpaddedTasks[0]) == Date(2025, 9, 1) && DueDate(UnpaddedTasks[1]) == Date(2025, 10, 1)
  {
    ParsesSeptember();
    ParsesOctober();
  }

  /** As strings, the October date compares below the September one. */
  lemma OctoberSortsFirst()
    ensures Less("2025-10-01", "2025-9-01")
  {
    var september, october := "2025-9-01", "2025-10-01";
    assert october[..5] == september[..5];
    LessAtFirstDifference(october, september, 5);
  }

  /** Both example tasks pass the checks of `add_task`. */
  lemma UnpaddedTasksAccepted()
    ensures WellFormed(UnpaddedTasks[0]) && WellFormed(UnpaddedTasks[1])
    ensures DueDate(UnpaddedTasks[0]) == Date(2025, 9, 1) && DueDate(UnpaddedTasks[1]) == Date(2025, 10, 1)
  {
    SeptemberTaskAccepted();
    OctoberTaskAccepted();
  }

  lemma SeptemberTaskAccepted()
    ensures WellFormed(Record("Alpha", "2025-9-01"))
    ensures DueDate(Record("Alpha", "2025-9-01")) == Date(2025, 9, 1)
  {
    ParsesSeptember();
    StripUnspaced("Alpha");
    StripUnspaced("2025-9-01");
  }

  lemma OctoberTaskAccepted()
    ensures WellFormed(Record("Beta", "2025-10-01"))
    ensures DueDate(Record("Beta", "2025-10-01")) == Date(2025, 10, 1)
  {
    ParsesOctober();
    StripUnspaced("Beta");
    StripUnspaced("2025-10-01");
  }

  lemma ParsesSeptember()
    ensures ParseDate("2025-9-01") == Some(Date(2025, 9, 1))
  {
    var s := "2025-9-01";
    assert s[..4] == "2025" && s[5..] == "9-01";
    assert "9-01"[..1] == "9" && "9-01"[2..] == "01";
  }

  lemma ParsesOctober()
    ensures ParseDate("2025-10-01") == Some(Date(2025, 10, 1))
  {
    var s := "2025-10-01";
    assert s[..4] == "2025" && s[5..] == "10-01";
    assert "10-01"[..2] == "10" && "10-01"[3..] == "01";
  }

  /** A string that neither starts nor ends with white space is its own strip. */
  lemma StripUnspaced(s: string)
    requires s != [] && !IsSpace(s[0]) && !IsSpace(s[|s| - 1])
    ensures Strip(s) == s
  {
    assert LeadingSpaces(s) == 0;
    assert s[0..] == s;
    assert TrailingSpaces(s) == 0;
  }

  /** A due date in the zero-padded form `strftime('%Y-%m-%d')` writes. */
  ghost predicate IsPadded(due: string) {
    IsValidDate(due) && 1000 <= ParseDate(due).value.year && FormatDate(ParseDate(due).value) == due
  }

  /**
   * When every due date has the zero-padded form the date field is filled
   * with, comparing the strings picks the same task as comparing the dates.
   */
  lemma PaddedDuesAgree(s: seq<Record>, i: int)
    requires forall k :: 0 <= k < |s| ==> IsPadded(s[k].due)
    ensures FirstLeastDue(s, i) <==> FirstEarliestDate(s, i)
  {
    forall k, l | 0 <= k < |s| && 0 <= l < |s|
      ensures Less(s[k].due, s[l].due) <==> Before(DueDate(s[k]), DueDate(s[l]))
    {
      FormattedOrderIsChronological(DueDate(s[k]), DueDate(s[l]));
    }
  }
}
