/**
 * The console to-do manager of TO-DO.py: class `DSATodo` with its task list,
 * its undo stack and its queue of pending tasks, and the textbook algorithms
 * it runs over them.
 */
module DsaTodo {
  import opened Wrappers
  import opened Text
  import opened PriorityTasks

  /** The position of the first occurrence of `x` in `s`. */
  function FirstIndex(s: seq<Item>, x: Item): (i: nat)
    requires x in s
    ensures i < |s| && s[i] == x && x !in s[..i]
  {
    if s[0] == x then 0 else 1 + FirstIndex(s[1..], x)
  }

  /** The first occurrence is the one with no occurrence before it. */
  lemma {:induction false} FirstIndexUnique(s: seq<Item>, x: Item, i: nat)
    requires i < |s| && s[i] == x && x !in s[..i]
    ensures FirstIndex(s, x) == i
  {
    if i > 0 {
      assert s[0] in s[..i];
      assert s[1..][..i - 1] == s[..i][1..];
      FirstIndexUnique(s[1..], x, i - 1);
    }
  }

  /**
   * `list.remove(x)` where `x` occurs: the list without the first task equal
   * to `x`, whatever its position.
   */
  function RemoveFirst(s: seq<Item>, x: Item): (r: seq<Item>)
    requires x in s
    ensures r == s[..FirstIndex(s, x)] + s[FirstIndex(s, x) + 1..]
    ensures multiset(r) == multiset(s) - multiset{x}
  {
    var i := FirstIndex(s, x);
    MultisetWithout(s, i);
    s[..i] + s[i + 1..]
  }

  /**
   * Undoing an add removes the added task again, leaving the list as it was,
   * when no equal task was listed before it.
   */
  lemma UndoRestoresList(s: seq<Item>, x: Item)
    requires x !in s
    ensures RemoveFirst(s + [x], x) == s
  {
    assert FirstIndex(s + [x], x) == |s|;
    assert (s + [x])[..|s|] == s;
  }

  /**
   * When an equal task was already listed, undoing the add removes that
   * earlier task and the one just added stays at the end of the list.
   */
  lemma UndoRemovesEarlierDuplicate(s: seq<Item>, x: Item)
    requires x in s
    ensures RemoveFirst(s + [x], x) == RemoveFirst(s, x) + [x]
  {
    var i := FirstIndex(s, x);
    assert (s + [x])[..i] == s[..i];
    FirstIndexUnique(s + [x], x, i);
    assert (s + [x])[i + 1..] == s[i + 1..] + [x];
  }

  /** What `undo` reports. */
  datatype UndoOutcome =
    | NothingToUndo
    | Undone(item: Item)
      /** `list.remove` raised `ValueError`: the popped task is no longer listed. */
    | RemoveFailed(item: Item)

  /** The tasks of `a` from position `b` on are sorted by priority. */
  ghost predicate SortedFrom(a: seq<Item>, b: int)
    requires 0 <= b
  {
    forall k, l :: b <= k < l < |a| ==> a[k].priority <= a[l].priority
  }

  /** No task before position `b` ranks below a task from `b` on. */
  ghost predicate SplitAt(a: seq<Item>, b: int)
    requires 0 <= b
  {
    forall k, l :: 0 <= k < b <= l < |a| ==> a[k].priority <= a[l].priority
  }

  /** No task up to position `j` ranks below the task at `j`. */
  ghost predicate LowestRankAt(a: seq<Item>, j: int)
    requires 0 <= j < |a|
  {
    forall k :: 0 <= k <= j ==> a[k].priority <= a[j].priority
  }

  /** One comparison of bubble sort's inner loop carries the lowest rank one place right. */
  lemma BubbleStep(a: seq<Item>, j: int, b: int)
    requires 0 <= j < b - 1 && b <= |a|
    requires LowestRankAt(a, j) && SortedFrom(a, b) && SplitAt(a, b)
    ensures var a' := if a[j].priority > a[j + 1].priority then Swap(a, j, j + 1) else a;
      LowestRankAt(a', j + 1) && SortedFrom(a', b) && SplitAt(a', b)
  {
  }

  /** A full pass of bubble sort's inner loop extends the sorted tail by one. */
  lemma BubblePass(a: seq<Item>, b: int)
    requires 1 <= b <= |a|
    requires LowestRankAt(a, b - 1) && SortedFrom(a, b) && SplitAt(a, b)
    ensures SortedFrom(a, b - 1) && SplitAt(a, b - 1)
  {
  }

  /**
   * The body of bubble sort's outer loop: neighbours in `arr[..b]` are
   * exchanged, left to right, when the first ranks strictly lower, which
   * carries a task of the lowest rank to position `b - 1`.
   */
  method BubbleForward(arr: array<Item>, b: int, ghost t: seq<Item>)
    requires 1 <= b <= arr.Length
    requires SortedFrom(arr[..], b) && SplitAt(arr[..], b)
    requires multiset(arr[..]) == multiset(t) && SameOrderWithinPriority(arr[..], t)
    modifies arr
    ensures SortedFrom(arr[..], b - 1) && SplitAt(arr[..], b - 1)
    ensures multiset(arr[..]) == multiset(t) && SameOrderWithinPriority(arr[..], t)
    ensures arr[b..] == old(arr[b..])
  {
    for j := 0 to b - 1
      invariant arr[b..] == old(arr[b..])
      invariant LowestRankAt(arr[..], j)
      invariant SortedFrom(arr[..], b) && SplitAt(arr[..], b)
      invariant multiset(arr[..]) == multiset(t)
      invariant SameOrderWithinPriority(arr[..], t)
    {
      BubbleStep(arr[..], j, b);
      if arr[j].priority > arr[j + 1].priority {
        ghost var before := arr[..];
        AdjacentSwapKeepsOrderWithinPriority(before, j, t);
        arr[j], arr[j + 1] := arr[j + 1], arr[j];
        assert arr[..] == Swap(before, j, j + 1);
      }
    }
    BubblePass(arr[..], b);
  }

  /** The first `i` tasks of `a` are sorted by priority. */
  ghost predicate SortedBelow(a: seq<Item>, i: int)
    requires 0 <= i <= |a|
  {
    forall k, l :: 0 <= k < l < i ==> a[k].priority <= a[l].priority
  }

  /** `a[..i + 1]` is sorted by priority once the gap at `g` is ignored. */
  ghost predicate SortedAroundGap(a: seq<Item>, i: int, g: int)
    requires i < |a|
  {
    forall k, l :: 0 <= k < l <= i && k != g && l != g ==> a[k].priority <= a[l].priority
  }

  /** Every task after the gap `g`, up to `i`, ranks strictly below `p`. */
  ghost predicate RankAbove(a: seq<Item>, g: int, i: int, p: int)
    requires -1 <= g && i < |a|
  {
    forall k :: g < k <= i ==> p < a[k].priority
  }

  /**
   * The state of insertion sort's inner loop: `key` has been lifted out of
   * `a`, leaving a gap at `j + 1`; `cur` is `a` with `key` put back into the
   * gap, which is a rearrangement of `t` that keeps its order within each
   * priority; `a[..i + 1]` is sorted around the gap and everything after the
   * gap ranks strictly below `key`.
   */
  ghost predicate Inserting(a: seq<Item>, cur: seq<Item>, i: int, j: int, key: Item, t: seq<Item>)
    requires -1 <= j < i < |a|
  {
    && cur == a[j + 1 := key]
    && multiset(cur) == multiset(t)
    && SameOrderWithinPriority(cur, t)
    && SortedAroundGap(a, i, j + 1)
    && RankAbove(a, j + 1, i, key.priority)
  }

  /** Lifting the task at `i` out of a list sorted below `i` starts the inner loop. */
  lemma StartInserting(a: seq<Item>, i: int, t: seq<Item>)
    requires 1 <= i < |a|
    requires SortedBelow(a, i) && multiset(a) == multiset(t) && SameOrderWithinPriority(a, t)
    ensures Inserting(a, a, i, i - 1, a[i], t)
  {
  }

  /** One step of insertion sort's inner loop moves the gap one place left. */
  lemma ShiftRight(a: seq<Item>, cur: seq<Item>, i: int, j: int, key: Item, t: seq<Item>)
    requires 0 <= j < i < |a|
    requires Inserting(a, cur, i, j, key, t)
    requires a[j].priority > key.priority
    ensures Inserting(a[j + 1 := a[j]], Swap(cur, j, j + 1), i, j - 1, key, t)
  {
    AdjacentSwapKeepsOrderWithinPriority(cur, j, t);
    assert Swap(cur, j, j + 1) == a[j + 1 := a[j]][j := key];
  }

  /** Dropping the task into the gap leaves the first `i + 1` tasks sorted. */
  lemma FillGap(a: seq<Item>, cur: seq<Item>, i: int, j: int, key: Item, t: seq<Item>)
    requires -1 <= j < i < |a|
    requires Inserting(a, cur, i, j, key, t)
    requires j >= 0 ==> a[j].priority <= key.priority
    ensures a[j + 1 := key] == cur && SortedBelow(cur, i + 1)
  {
  }

  /**
   * The body of insertion sort's outer loop: the task at `i` is shifted left
   * past every task before it that ranks strictly lower, so that the first
   * `i + 1` tasks are sorted and tasks of equal priority keep their order.
   */
  method InsertBackward(arr: array<Item>, i: int, ghost t: seq<Item>)
    requires 1 <= i < arr.Length
    requires SortedBelow(arr[..], i)
    requires multiset(arr[..]) == multiset(t) && SameOrderWithinPriority(arr[..], t)
    modifies arr
    ensures SortedBelow(arr[..], i + 1)
    ensures multiset(arr[..]) == multiset(t) && SameOrderWithinPriority(arr[..], t)
    ensures arr[i + 1..] == old(arr[i + 1..])
  {
    var keyItem := arr[i];
    var j := i - 1;
    // the list as it stands, with `keyItem` put back into the gap at j + 1
    ghost var current := arr[..];
    StartInserting(arr[..], i, t);
    while j >= 0 && arr[j].priority > keyItem.priority
      invariant -1 <= j < i
      invariant arr[i + 1..] == old(arr[i + 1..])
      invariant Inserting(arr[..], current, i, j, keyItem, t)
    {
      ShiftRight(arr[..], current, i, j, keyItem, t);
      current := Swap(current, j, j + 1);
      arr[j + 1] := arr[j];
      j := j - 1;
    }
    FillGap(arr[..], current, i, j, keyItem, t);
    arr[j + 1] := keyItem;
  }

  class DSATodo {
    /** `self.tasks`: the task list, in insertion order. */
    var tasks: seq<Item>
    /** `self.undo_stack`: the added tasks, the most recent last. */
    var undoStack: seq<Item>
    /** `self.queue`: every added task in order of addition; never dequeued. */
    var queue: seq<Item>

    /**
     * Every listed task, and every task the undo stack holds, entered the
     * queue when it was added, and the queue never loses one.
     */
    ghost predicate Valid()
      reads this
    {
      multiset(tasks) <= multiset(queue) && multiset(undoStack) <= multiset(queue)
    }

    /** The three empty lists that `init` sets up. */
    constructor ()
      ensures tasks == [] && undoStack == [] && queue == []
      ensures Valid()
    {
      tasks, undoStack, queue := [], [], [];
    }

    /** `add_task`: the same task goes to the end of all three lists. */
    method AddTask(task: string, priority: string)
      requires Valid()
      modifies this
      ensures Valid()
      ensures tasks == old(tasks) + [Item(task, PriorityOf(priority))]
      ensures undoStack == old(undoStack) + [Item(task, PriorityOf(priority))]
      ensures queue == old(queue) + [Item(task, PriorityOf(priority))]
    {
      var item := Item(task, PriorityOf(priority));
      tasks := tasks + [item];
      undoStack := undoStack + [item];
      queue := queue + [item];
    }

    /**
     * `search_task`: the position of the first task whose title equals `key`
     * when both are lower-cased (reported to the user as that position plus
     * one), or `None` when no title does.
     */
    method SearchTask(key: string) returns (found: Option<nat>)
      ensures found.Some? ==> found.value < |tasks| && Lower(tasks[found.value].title) == Lower(key)
      ensures found.Some? ==> forall k :: 0 <= k < found.value ==> Lower(tasks[k].title) != Lower(key)
      ensures found.None? <==> forall k :: 0 <= k < |tasks| ==> Lower(tasks[k].title) != Lower(key)
    {
      for i := 0 to |tasks|
        invariant forall k :: 0 <= k < i ==> Lower(tasks[k].title) != Lower(key)
      {
        if Lower(tasks[i].title) == Lower(key) {
          return Some(i);
        }
      }
      return None;
    }

    /**
     * `bubble_sort`: sorts a copy of the task list by priority, exchanging
     * neighbours only when the first ranks strictly lower, so tasks of equal
     * priority keep their order; the task list itself is left as it is.
     */
    method BubbleSort() returns (sorted: seq<Item>)
      ensures SortedByPriority(sorted)
      ensures multiset(sorted) == multiset(tasks)
      ensures SameOrderWithinPriority(sorted, tasks)
    {
      var t := tasks;
      var arr := new Item[|t|](k requires 0 <= k < |t| => t[k]);
      assert arr[..] == t;
      var n := arr.Length;
      for i := 0 to n
        invariant SortedFrom(arr[..], n - i) && SplitAt(arr[..], n - i)
        invariant multiset(arr[..]) == multiset(t)
        invariant SameOrderWithinPriority(arr[..], t)
      {
        BubbleForward(arr, n - i, t);
      }
      sorted := arr[..];
    }

    /**
     * `selection_sort`: sorts a copy of the task list by priority, moving the
     * first task of least priority value into each place in turn. The
     * exchange can carry a task past others of its priority, so the order of
     * equal priorities is not kept.
     */
    method SelectionSort() returns (sorted: seq<Item>)
      ensures SortedByPriority(sorted)
      ensures multiset(sorted) == multiset(tasks)
    {
      var t := tasks;
      var arr := new Item[|t|](k requires 0 <= k < |t| => t[k]);
      assert arr[..] == t;
      var n := arr.Length;
      for i := 0 to n
        invariant forall k, l :: 0 <= k < i && k < l < n ==> arr[k].priority <= arr[l].priority
        invariant multiset(arr[..]) == multiset(t)
      {
        var minIdx := i;
        for j := i + 1 to n
          invariant i <= minIdx < n
          invariant forall k :: i <= k < j ==> arr[minIdx].priority <= arr[k].priority
        {
          if arr[j].priority < arr[minIdx].priority {
            minIdx := j;
          }
        }
        ghost var before := arr[..];
        arr[i], arr[minIdx] := arr[minIdx], arr[i];
        assert arr[..] == Swap(before, i, minIdx);
      }
      sorted := arr[..];
    }

    /**
     * `insertion_sort`: sorts a copy of the task list by priority, shifting
     * each task left past the tasks that rank strictly lower, so tasks of
     * equal priority keep their order; the task list itself is left as it is.
     */
    method InsertionSort() returns (sorted: seq<Item>)
      ensures SortedByPriority(sorted)
      ensures multiset(sorted) == multiset(tasks)
      ensures SameOrderWithinPriority(sorted, tasks)
    {
      var t := tasks;
      var arr := new Item[|t|](k requires 0 <= k < |t| => t[k]);
      assert arr[..] == t;
      var n := arr.Length;
      if n > 0 {
        for i := 1 to n
          invariant SortedBelow(arr[..], i)
          invariant multiset(arr[..]) == multiset(t)
          invariant SameOrderWithinPriority(arr[..], t)
        {
          InsertBackward(arr, i, t);
        }
      }
      sorted := arr[..];
    }

    /**
     * `undo`: pops the most recently added task off the undo stack and
     * removes the first listed task equal to it. The queue is left alone.
     * When that task is no longer listed, `list.remove` raises `ValueError`
     * after the pop has already happened.
     */
    method Undo() returns (outcome: UndoOutcome)
      requires Valid()
      modifies this
      ensures Valid()
      ensures old(undoStack) == [] ==> outcome == NothingToUndo && undoStack == old(undoStack) && tasks == old(tasks)
      ensures old(undoStack) != [] ==>
        var last := old(undoStack)[|old(undoStack)| - 1];
        && undoStack == old(undoStack)[..|old(undoStack)| - 1]
        && (last in old(tasks) ==> outcome == Undone(last) && tasks == RemoveFirst(old(tasks), last))
        && (last !in old(tasks) ==> outcome == RemoveFailed(last) && tasks == old(tasks))
      ensures queue == old(queue)
    {
      if undoStack == [] {
        return NothingToUndo;
      }
      var last := undoStack[|undoStack| - 1];
      assert undoStack == undoStack[..|undoStack| - 1] + [last];
      undoStack := undoStack[..|undoStack| - 1];
      if last !in tasks {
        return RemoveFailed(last);
      }
      tasks := RemoveFirst(tasks, last);
      outcome := Undone(last);
    }

    /**
     * `next_task`: the oldest task ever added, which is the head of the queue
     * and stays there; nothing is changed. While any task is listed there is
     * one to report, but a deleted task can still be the one reported.
     */
    method NextTask() returns (next: Option<Item>)
      ensures next.None? <==> queue == []
      ensures next.Some? ==> next.value == queue[0]
      ensures Valid() && tasks != [] ==> next.Some?
    {
      if queue == [] {
        if tasks != [] {
          assert tasks[0] in multiset(tasks);
        }
        return None;
      }
      return Some(queue[0]);
    }

    /**
     * `delete_task(num)`: removes the task at 1-based position `num` when
     * there is one, keeping the others in order; otherwise changes nothing.
     * The undo stack and the queue are never touched.
     */
    method DeleteTask(num: int) returns (removed: Option<Item>)
      requires Valid()
      modifies this
      ensures Valid()
      ensures removed.Some? <==> 1 <= num <= |old(tasks)|
      ensures removed.Some? ==> removed.value == old(tasks)[num - 1] && tasks == old(tasks)[..num - 1] + old(tasks)[num..]
      ensures removed.None? ==> tasks == old(tasks)
      ensures undoStack == old(undoStack) && queue == old(queue)
    {
      if 0 <= num - 1 < |tasks| {
        var item := tasks[num - 1];
        MultisetWithout(tasks, num - 1);
        tasks := tasks[..num - 1] + tasks[num..];
        return Some(item);
      }
      return None;
    }
  }
}
