/** The to-do list: pending tasks kept in a growable array sorted by priority,
    completed tasks appended to a second growable array. Console prompts and
    printing are not modelled: what the user types arrives as parameters. */
module ToDo {
  import opened Tasks

  /** The inner loop of the selection sort: scan a[lo..n] and return the
      position of the last entry of smallest priority. */
  method SelectLastMin(a: array<Task>, lo: nat, n: nat) returns (m: nat)
    requires lo < n <= a.Length
    ensures lo <= m < n
    ensures m == LastMinFrom(a[..n], lo)
  {
    m := lo;
    var j := lo + 1;
    while j < n
      invariant lo < j <= n && lo <= m < j
      invariant forall k :: lo <= k < j ==> a[m].priority <= a[k].priority
      invariant forall k :: m < k < j ==> a[m].priority < a[k].priority
    {
      if a[j].priority <= a[m].priority {
        m := j;
      }
      j := j + 1;
    }
    LastMinUnique(a[..n], lo, m);
  }

  /** Exchanges the entries at i and j of a, both below n. */
  method SwapEntries(a: array<Task>, i: nat, j: nat, n: nat)
    requires i < n && j < n && n <= a.Length
    modifies a
    ensures a[..n] == Swap(old(a[..n]), i, j)
    ensures a[n..] == old(a[n..])
  {
    a[i], a[j] := a[j], a[i];
  }

  /** One pass of the outer loop: swap the last minimum of a[i..n] into position i. */
  method SelectionPass(a: array<Task>, i: nat, n: nat)
    requires i < n <= a.Length
    modifies a
    ensures a[..n] == Swap(old(a[..n]), i, LastMinFrom(old(a[..n]), i))
    ensures a[n..] == old(a[n..])
  {
    var m := SelectLastMin(a, i, n);
    SwapEntries(a, i, m, n);
  }

  /** The two nested loops of the selection sort over the first n entries of
      a: each pass swaps the last minimum of a[i..n] into position i. */
  method SelectionSortPrefix(a: array<Task>, n: nat)
    requires n <= a.Length
    modifies a
    ensures a[..n] == SelectionSort(old(a[..n]))
    ensures a[n..] == old(a[n..])
  {
    ghost var sorted := SelectionSort(a[..n]);
    ghost var cur := a[..n];
    var i := 0;
    while i + 1 < n
      invariant 0 <= i <= n && cur == a[..n]
      invariant a[n..] == old(a[n..])
      invariant SelectFrom(cur, i) == sorted
    {
      SelectFromStep(cur, i);
      SelectionPass(a, i, n);
      cur := a[..n];
      i := i + 1;
    }
    SelectFromDone(cur, i);
  }

  /** The loop that closes the gap at i among the first n entries of a: each
      later entry moves one place left. Only slots i..n-2 are written, so
      the entries before i and the last slot keep their values. */
  method ShiftLeft(a: array<Task>, i: nat, n: nat)
    requires i < n <= a.Length
    modifies a
    ensures a[..n - 1] == RemoveAt(old(a[..n]), i)
    ensures forall k :: 0 <= k < i ==> a[k] == old(a[k])
    ensures a[n - 1..] == old(a[n - 1..])
  {
    var j := i;
    while j < n - 1
      invariant i <= j <= n - 1
      invariant forall k :: 0 <= k < i ==> a[k] == old(a[k])
      invariant forall k :: i <= k < j ==> a[k] == old(a[k + 1])
      invariant forall k :: j <= k < a.Length ==> a[k] == old(a[k])
    {
      a[j] := a[j + 1];
      j := j + 1;
    }
  }

  /** How completeTask ended: the task was moved, there was nothing to
      complete, or the number given is not that of a pending task. */
  datatype Completion = Done | NoTasks | InvalidTaskNumber

  class ToDoList {
    var tasksArray: array<Task>
    var completedArray: array<Task>
    var taskCount: nat
    var completedCount: nat
    var taskSize: nat
    var completedSize: nat

    /** Every task ever added, each as it was when added. */
    ghost var Created: multiset<Task>

    /** The pending tasks, in the order they are listed. */
    ghost function Pending(): seq<Task>
      reads this, tasksArray
      requires taskCount <= tasksArray.Length
    {
      tasksArray[..taskCount]
    }

    /** The completed tasks, in the order they were completed. */
    ghost function Completed(): seq<Task>
      reads this, completedArray
      requires completedCount <= completedArray.Length
    {
      completedArray[..completedCount]
    }

    /** The two arrays are distinct, each count fits its array and each
        capacity is the array's length, 10 doubled some number of times. */
    ghost predicate Shape()
      reads this
    {
      tasksArray != completedArray &&
      taskCount <= taskSize == tasksArray.Length &&
      completedCount <= completedSize == completedArray.Length &&
      ReachableCapacity(taskSize) && ReachableCapacity(completedSize)
    }

    /** The list invariant: pending tasks are sorted by priority and not
        completed, completed tasks are completed, and every task ever added
        is in exactly one of the two lists. */
    ghost predicate Valid()
      reads this, tasksArray, completedArray
    {
      Shape() && ListsInvariant(Pending(), Completed(), Created)
    }

    constructor ()
      ensures Valid() && fresh(tasksArray) && fresh(completedArray)
      ensures taskSize == 10 && completedSize == 10
      ensures Pending() == [] && Completed() == [] && Created == multiset{}
    {
      taskCount, completedCount := 0, 0;
      taskSize, completedSize := 10, 10;
      tasksArray := new Task[10];
      completedArray := new Task[10];
      Created := multiset{};
    }

    /** Doubles the capacity of the pending array, keeping its entries. */
    method ResizeTaskArray()
      requires Shape()
      modifies this
      ensures Shape() && fresh(tasksArray)
      ensures taskSize == 2 * old(taskSize) && taskCount == old(taskCount) < taskSize
      ensures Pending() == old(Pending())
      ensures completedArray == old(completedArray) && completedCount == old(completedCount)
      ensures completedSize == old(completedSize) && Created == old(Created)
    {
      DoubledCapacityReachable(taskSize);
      taskSize := taskSize * 2;
      var newTasks := new Task[taskSize];
      for i := 0 to taskCount
        modifies newTasks
        invariant newTasks[..i] == tasksArray[..i]
      {
        newTasks[i] := tasksArray[i];
      }
      tasksArray := newTasks;
    }

    /** Doubles the capacity of the completed array, keeping its entries. */
    method ResizeCompletedArray()
      requires Shape()
      modifies this
      ensures Shape() && fresh(completedArray)
      ensures completedSize == 2 * old(completedSize) && completedCount == old(completedCount) < completedSize
      ensures Completed() == old(Completed())
      ensures tasksArray == old(tasksArray) && taskCount == old(taskCount)
      ensures taskSize == old(taskSize) && Created == old(Created)
    {
      DoubledCapacityReachable(completedSize);
      completedSize := completedSize * 2;
      var newCompleted := new Task[completedSize];
      for i := 0 to completedCount
        modifies newCompleted
        invariant newCompleted[..i] == completedArray[..i]
      {
        newCompleted[i] := completedArray[i];
      }
      completedArray := newCompleted;
    }

    /** Selection sort of the pending entries, in place. */
    method SortTasks()
      requires Shape()
      modifies tasksArray
      ensures Pending() == SelectionSort(old(Pending()))
      ensures tasksArray[taskCount..] == old(tasksArray[taskCount..])
    {
      SelectionSortPrefix(tasksArray, taskCount);
    }

    /** Adds a task with the given name and priority (the prompt loop that
        insists on a positive priority is the precondition), growing the
        pending array first if it is full, then re-sorts the pending tasks. */
    method AddTask(name: string, priority: int)
      requires Valid() && priority > 0
      modifies this, tasksArray
      ensures Valid()
      ensures Pending() == SelectionSort(old(Pending()) + [Task(name, priority, false)])
      ensures multiset(Pending()) == old(multiset(Pending())) + multiset{Task(name, priority, false)}
      ensures taskCount == old(taskCount) + 1
      ensures if old(taskCount) == old(taskSize)
              then fresh(tasksArray) && taskSize == 2 * old(taskSize)
              else tasksArray == old(tasksArray) && taskSize == old(taskSize)
      ensures completedArray == old(completedArray) && completedCount == old(completedCount)
      ensures completedSize == old(completedSize) && Completed() == old(Completed())
      ensures Created == old(Created) + multiset{Task(name, priority, false)}
    {
      ghost var pending := Pending();
      ghost var completed := Completed();
      if taskCount == taskSize {
        ResizeTaskArray();
      }
      var t := Task(name, priority, false);
      tasksArray[taskCount] := t;
      taskCount := taskCount + 1;
      assert Pending() == pending + [t];
      Created := Created + multiset{t};
      SortTasks();
      assert Pending() == SelectionSort(pending + [t]);
      assert Completed() == completed;
      AddKeepsInvariant(pending, completed, old(Created), t);
    }

    /** Appends the pending task at index i to the completed list (growing
        that array first if it is full) and closes the gap it leaves by
        shifting the later pending tasks one place left. */
    method MoveToCompleted(i: nat)
      requires Shape() && i < taskCount
      modifies this, tasksArray, completedArray
      ensures Shape()
      ensures tasksArray == old(tasksArray) && taskSize == old(taskSize)
      ensures Pending() == RemoveAt(old(Pending()), i)
      ensures Completed() == old(Completed()) + [old(Pending())[i]]
      ensures if old(completedCount) == old(completedSize)
              then fresh(completedArray) && completedSize == 2 * old(completedSize)
              else completedArray == old(completedArray) && completedSize == old(completedSize)
      ensures Created == old(Created)
    {
      if completedCount == completedSize {
        ResizeCompletedArray();
      }
      ghost var pending := tasksArray[..taskCount];
      ghost var completed := completedArray[..completedCount];
      completedArray[completedCount] := tasksArray[i];
      completedCount := completedCount + 1;
      assert Completed() == completed + [pending[i]];
      ShiftLeft(tasksArray, i, taskCount);
      taskCount := taskCount - 1;
    }

    /** Marks the k-th pending task (counting from 1, as listed) completed and
        moves it to the completed list. With no pending task, or a number
        outside 1..taskCount, nothing changes. */
    method CompleteTask(k: int) returns (r: Completion)
      requires Valid()
      modifies this, tasksArray, completedArray
      ensures Valid()
      ensures r == if old(taskCount) == 0 then NoTasks
                   else if 0 < k <= old(taskCount) then Done
                   else InvalidTaskNumber
      ensures r != Done ==> unchanged(this) && unchanged(tasksArray) && unchanged(completedArray)
      ensures r == Done ==>
                Pending() == RemoveAt(old(Pending()), k - 1) &&
                Completed() == old(Completed()) + [old(Pending())[k - 1].(completed := true)]
      ensures taskCount + completedCount == old(taskCount) + old(completedCount)
      ensures tasksArray == old(tasksArray) && taskSize == old(taskSize)
      ensures if r == Done && old(completedCount) == old(completedSize)
              then fresh(completedArray) && completedSize == 2 * old(completedSize)
              else completedArray == old(completedArray) && completedSize == old(completedSize)
      ensures Created == old(Created)
    {
      if taskCount == 0 {
        return NoTasks;
      }
      if k > 0 && k <= taskCount {
        ghost var pending := Pending();
        ghost var completed := Completed();
        var t := tasksArray[k - 1];
        tasksArray[k - 1] := t.(completed := true);
        assert Pending() == pending[k - 1 := t.(completed := true)];
        MoveToCompleted(k - 1);
        RemoveAtUpdated(pending, k - 1, t.(completed := true));
        CompleteKeepsInvariant(pending, completed, Created, k - 1);
        r := Done;
      } else {
        r := InvalidTaskNumber;
      }
    }
  }

  /** The orders the selection sort produces in the worked example below
      after the first and the second addition. */
  lemma WorkedExampleFirstOrders(w: Task, f: Task)
    requires w.priority == 3 && f.priority == 1
    ensures SelectionSort([w]) == [w]
    ensures SelectionSort([w, f]) == [f, w]
  {
    assert LastMinFrom([w, f], 0) == 1;
    assert Swap([w, f], 0, 1) == [f, w];
    SelectFromStep([w, f], 0);
  }

  /** The order it produces after the third addition. */
  lemma WorkedExampleThirdOrder(f: Task, w: Task, r: Task)
    requires f.priority == 1 && w.priority == 3 && r.priority == 2
    ensures SelectionSort([f, w, r]) == [f, r, w]
  {
    assert LastMinFrom([f, w, r], 1) == 2;
    assert LastMinFrom([f, w, r], 0) == 0;
    assert Swap([f, w, r], 0, 0) == [f, w, r];
    assert Swap([f, w, r], 1, 2) == [f, r, w];
    SelectFromStep([f, w, r], 0);
    SelectFromStep([f, w, r], 1);
  }

  /** A worked example, first part: "Write report" with
      priority 3, then "Fix bug" with priority 1, added to a new list. */
  method WorkedExampleFirstAdds(report: string, bug: string) returns (list: ToDoList)
    ensures fresh(list) && fresh(list.tasksArray) && fresh(list.completedArray) && list.Valid()
    ensures list.Pending() == [Task(bug, 1, false), Task(report, 3, false)]
    ensures list.Completed() == [] && list.taskSize == 10
  {
    var w, f := Task(report, 3, false), Task(bug, 1, false);
    WorkedExampleFirstOrders(w, f);
    list := new ToDoList();
    list.AddTask(report, 3);
    assert list.Pending() == [w];
    list.AddTask(bug, 1);
    assert [w] + [f] == [w, f];
  }

  /** Second part: "Review PR" with priority 2 lands between the two. */
  method WorkedExampleThirdAdd(list: ToDoList, report: string, bug: string, review: string)
    requires list.Valid() && list.taskSize == 10
    requires list.Pending() == [Task(bug, 1, false), Task(report, 3, false)]
    modifies list, list.tasksArray
    ensures list.Valid() && list.tasksArray == old(list.tasksArray)
    ensures list.Pending() == [Task(bug, 1, false), Task(review, 2, false), Task(report, 3, false)]
    ensures list.completedArray == old(list.completedArray) && list.Completed() == old(list.Completed())
  {
    var w, f, p := Task(report, 3, false), Task(bug, 1, false), Task(review, 2, false);
    WorkedExampleThirdOrder(f, w, p);
    list.AddTask(review, 2);
    assert [f, w] + [p] == [f, w, p];
  }

  /** Completing number 99 on a list of two pending tasks is refused and
      changes neither list. */
  method WorkedExampleInvalidNumber(list: ToDoList) returns (r: Completion)
    requires list.Valid() && list.taskCount == 2
    modifies list, list.tasksArray, list.completedArray
    ensures r == InvalidTaskNumber && list.Valid()
    ensures list.Pending() == old(list.Pending()) && list.Completed() == old(list.Completed())
  {
    r := list.CompleteTask(99);
  }

  /** Third part: completing the first task moves it to the completed list,
      and a number past the end of the list changes nothing. */
  method WorkedExampleCompletes(report: string, bug: string, review: string) {
    var list := WorkedExampleFirstAdds(report, bug);
    WorkedExampleThirdAdd(list, report, bug, review);
    var r := list.CompleteTask(1);
    assert r == Done;
    assert list.Pending() == [Task(review, 2, false), Task(report, 3, false)];
    assert list.Completed() == [Task(bug, 1, true)];
    r := WorkedExampleInvalidNumber(list);
    assert r == InvalidTaskNumber;
    assert list.Pending() == [Task(review, 2, false), Task(report, 3, false)];
    assert list.Completed() == [Task(bug, 1, true)];
  }
}
