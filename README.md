# To-do managers: a Dafny model

The repository holds two small in-memory to-do managers. This project models
the list logic underneath their user interfaces and proves what it promises.

- `TO-DO.py`, class `DSATodo`. It is a console manager of `(title, priority)`
  tasks. A priority name maps case-insensitively to a rank (High 1, Medium 2,
  anything else 3). Every added task also goes onto an undo stack and a
  queue of upcoming tasks. The class offers linear search by title, undo,
  "next task", deletion by 1-based number, and bubble, selection and
  insertion sort of a copy of the list by priority.
- `todo.py`, class `TaskManager`. It is a window-based manager of
  `{title, due}` records. Adding validates the title (non-empty once
  stripped) and the due date (`strptime` with `"%Y-%m-%d"`). It also offers
  deletion of the selected task, deletion of all tasks, search through a
  copy sorted by lower-cased title with binary search, and the position of
  the task due first.

Modules:

- `Wrappers` holds `Option`.
- `Text` models the pieces of Python's `str` the code relies on: `lower()`
  (ASCII letters), `strip()` (Python's white-space set), and `<`
  (code-point lexicographic order), with the order's laws.
- `Dates` models what `datetime.strptime(s, "%Y-%m-%d")` accepts and
  `strftime('%Y-%m-%d')` writes.
- `PriorityTasks` holds the priority map and the specification of a sorted,
  stable rearrangement.
- `DsaTodo` models `TO-DO.py`.
- `TaskList` models `todo.py`.

Both classes keep their lists as `seq` fields that the methods reassign.
The three sorts copy the list into a fresh `array` and sort it in place, as
the source does with `self.tasks[:]`. The user's choices (the selected row,
the yes/no confirmation, the text typed into the search dialog) are method
parameters.

`TO-DO.py:12` spells the constructor `init` rather than `__init__`, so as
written `DSATodo()` creates an object with no lists at all. The model's
constructor sets up the three empty lists the code evidently intends.

## Model

| member | source | states |
|---|---|---|
| PriorityTasks.PriorityOf | TO-DO.py:19 | the rank is 1 exactly for "high", 2 exactly for "medium" (ignoring case), and 3 for every other name |
| PriorityTasks.PriorityIgnoresCase | TO-DO.py:19 | two names that lower-case alike get the same rank |
| PriorityTasks.PriorityText | TO-DO.py:39-40 | the label is one of "High", "Medium", "Low" |
| PriorityTasks.PriorityTextRoundTrip | TO-DO.py:39-40 | looking up a rank's label gives the rank back for 1 and 2, and 3 for every other rank |
| PriorityTasks.StableSortUnique | TO-DO.py:52-91 | two lists sorted by priority that keep the same order within each priority are equal, so bubble and insertion sort return the same list |
| PriorityTasks.SortedPermutationsAgreeOnRanks | TO-DO.py:64-75 | any two sorted rearrangements of the same tasks have the same sequence of priorities, so selection sort differs from the stable sorts only in the order of equal priorities |
| PriorityTasks.AdjacentSwapKeepsOrderWithinPriority | TO-DO.py:58-59 | exchanging neighbours of different priority keeps the order within every priority |
| DsaTodo.FirstIndex | TO-DO.py:105 | the position of the first task equal to the one looked for |
| DsaTodo.RemoveFirst | TO-DO.py:105 | `list.remove` deletes the first equal task, and only that one |
| DsaTodo.UndoRestoresList | TO-DO.py:99-105 | undoing an add of a task not already listed gives back the list as it was |
| DsaTodo.UndoRemovesEarlierDuplicate | TO-DO.py:99-105 | undoing an add of a task already listed removes the earlier copy and keeps the new one at the end |
| DsaTodo.DSATodo.constructor | TO-DO.py:12-15 | the task list, undo stack and queue start empty |
| DsaTodo.DSATodo.AddTask | TO-DO.py:18-24 | the same task, with its mapped rank, is appended to all three lists |
| DsaTodo.DSATodo.SearchTask | TO-DO.py:43-49 | the first position whose title equals the key ignoring case, and none only when no title matches |
| DsaTodo.DSATodo.BubbleSort | TO-DO.py:52-61 | a rearrangement of the tasks, sorted by priority, with equal priorities in list order; the list is unchanged |
| DsaTodo.BubbleForward | TO-DO.py:57-59 | one pass of the inner loop over `arr[..b]` leaves a task of the lowest rank at position `b - 1`, so the sorted tail grows by one; `arr[b..]` is untouched; the array stays a rearrangement of the tasks with equal priorities in order |
| DsaTodo.DSATodo.SelectionSort | TO-DO.py:64-75 | a rearrangement of the tasks, sorted by priority; the list is unchanged |
| DsaTodo.DSATodo.InsertionSort | TO-DO.py:78-91 | a rearrangement of the tasks, sorted by priority, with equal priorities in list order; the list is unchanged |
| DsaTodo.InsertBackward | TO-DO.py:82-89 | after one pass of the outer loop the first `i + 1` tasks are sorted by priority and keep equal priorities in order, `arr[i + 1..]` is untouched, and the array is still a rearrangement of the tasks |
| DsaTodo.DSATodo.Undo | TO-DO.py:99-105 | nothing changes on an empty stack; otherwise the top is popped and the first equal task removed, or the removal fails after the pop; the queue is untouched |
| DsaTodo.DSATodo.NextTask | TO-DO.py:109-115 | the head of the queue, which is there whenever a task is listed; nothing changes |
| DsaTodo.DSATodo.DeleteTask | TO-DO.py:118-123 | a number from 1 to the list length removes exactly that task and keeps the rest in order; any other number changes nothing; the stack and queue are untouched |
| Text.Lower | TO-DO.py:46 | same length; each ASCII capital becomes its small letter, every other character is unchanged, and no capital is left |
| Text.Strip | todo.py:93-94 | the slice of the input between its leading and trailing white space; empty exactly when the input is all white space |
| Text.StripIdempotent | todo.py:93-94 | stripping a stripped string changes nothing |
| Text.Less | todo.py:140 | Python's `<` on strings: at the end of the common prefix, the first string is smaller when it ends there and the second does not, or when its next character has the smaller code point |
| Text.LessTransitive | todo.py:170 | string order is transitive |
| Text.LessTotal | todo.py:140 | two different strings are ordered one way or the other |
| Text.LessConcat | todo.py:170 | comparing concatenations with equal-length heads compares the heads first, then the tails |
| Dates.ParseDate | todo.py:100 | every accepted string names a calendar date, has a '-' at position 4 and is 8 to 10 characters long |
| Dates.FormatDate | todo.py:55 | `strftime('%Y-%m-%d')` writes ten characters, digits everywhere except the two '-' at positions 4 and 7 |
| Dates.ParseFormatted | todo.py:55 | the zero-padded form the date field starts with parses back to the same date |
| Dates.FormattedOrderIsChronological | todo.py:170 | on zero-padded dates, string order is calendar order |
| TaskList.SortByTitle | todo.py:155 | a rearrangement of the tasks sorted by lower-cased title |
| TaskList.InsertByTitleSorted | todo.py:155 | inserting into a list sorted by title keeps it sorted |
| TaskList.TaskManager.constructor | todo.py:6-8 | the task list starts empty |
| TaskList.TaskManager.AddTask | todo.py:92-105 | an empty stripped title, then an unparsable stripped date, are refused with no change; otherwise exactly the stripped record is appended |
| TaskList.TaskManager.DeleteTask | todo.py:109-115 | the first selected position, when in range, is removed and the rest keep their order; no selection changes nothing |
| TaskList.TaskManager.DeleteAllTasks | todo.py:117-120 | the list is empty after a confirmation and unchanged otherwise |
| TaskList.TaskManager.BinarySearch | todo.py:133-144 | a result other than -1 is in range and its lower-cased title equals the lower-cased target; on a list sorted by lower-cased title, -1 means no title matches |
| TaskList.TaskManager.SearchTask | todo.py:146-162 | nothing to search on an empty list, nothing done for an empty name, else a listed matching task, or "not found" only when no task matches |
| TaskList.TaskManager.GetEarliestDueIndex | todo.py:164-173 | none for an empty list, else the first position whose due string is not above any other |
| TaskList.EarliestDate | todo.py:167-173 | the first position of a date no later than any other |
| TaskList.TaskManager.GetEarliestDateIndex | todo.py:164-173 | none for an empty list, else the first position of the task due first by the calendar |
| TaskList.MisorderedPair | todo.py:170 | for two tasks whose string order is the reverse of their date order, the string scan picks the second task and the date scan the first |
| TaskList.UnpaddedTasksAccepted | todo.py:92-105 | `add_task` accepts "Alpha" due "2025-9-01" and "Beta" due "2025-10-01", reading them as 1 September and 1 October 2025 |
| TaskList.UnpaddedDueMisordered | todo.py:170 | of the tasks due "2025-9-01" and "2025-10-01", the string scan picks the October one and the date scan the September one |
| TaskList.PaddedDuesAgree | todo.py:170 | when every due date has the zero-padded form, the string scan and the date scan pick the same task |

## Left out

- The tkinter window, styles, list rendering (`load_tasks`) and dialogs, the console menu loop, `show_tasks`, `print_sorted`, and the `int(...)` parse of menu input are user interface. The selected row, the yes/no answer and the search text are parameters instead.
- `load_tasks` highlights the task `get_earliest_due_index` returns. Only the index computation is modelled.
- `import bisect` in `TO-DO.py` is unused.
- Text.Lower: lower-cases ASCII letters only, not the full Unicode mapping of `str.lower()`.
- Dates.ParseDate: reads ASCII digits only, where `strptime` also accepts other Unicode decimal digits. The case-insensitive matching of literal text does not arise for this format.
- Dates.FormatDate: covers years 1000 to 9999 only, because `strftime` pads shorter years differently across platforms.
- TaskList.SortByTitle: states a sorted rearrangement only, not the stability of Python's Timsort. Binary search does not depend on it.
- TaskList.TaskManager.SearchTask: does not say which of several tasks with the same lower-cased title is reported. Which one the source reports depends on where the binary search lands.
- DsaTodo.DSATodo.SelectionSort: states sorted and a rearrangement only, because its exchange does not keep equal priorities in order.
- DsaTodo.DSATodo.Undo: when `list.remove` raises `ValueError`, the console program stops. The model returns `RemoveFailed` with the stack already popped and the task list unchanged.
- DsaTodo.BubbleForward: does not state the order of `arr[..b - 1]` after one pass, only that it holds no task ranking below the one at `b - 1`; the result of the whole sort is still pinned, because `PriorityTasks.StableSortUnique` makes a sorted, stable rearrangement unique.
- DsaTodo.InsertBackward: the inner `while` loop of insertion sort is its own method, but it works on the same array as `insertion_sort`.

## Findings

| source | as written | input that shows it | evidently intended | confidence | as-written member | corrected member |
|---|---|---|---|---|---|---|
| todo.py:170 | the earliest task is found by comparing the `due` strings, but `strptime` also accepts a month or day without its leading zero | tasks "Alpha" due "2025-9-01" and "Beta" due "2025-10-01": "2025-10-01" < "2025-9-01" as strings, so Beta (October) is picked | the task due first by the calendar, Alpha | high; not executed | TaskList.UnpaddedDueMisordered | TaskList.TaskManager.GetEarliestDateIndex |
