# To-do list: verified model of `ToDoList`

This project models the `ToDoList` class of a console to-do list program
(`To-Do-List-index.cpp`). The class keeps two growable arrays of tasks:

- the **pending** array (`tasksArray`, `taskCount`, `taskSize`). Adding a task
  doubles the array when it is full, writes the new task at `taskCount`, and
  then re-sorts the array in place with a selection sort on priority;
- the **completed** array (`completedArray`, `completedCount`,
  `completedSize`). Completing the k-th pending task (counted from 1) marks it
  completed, appends it to this array (doubling it when full) and closes the
  gap in the pending array by shifting the later tasks one place left.

Both arrays start with capacity 10.

The model has two modules:

- `Tasks` (`tasks.dfy`) works on values. It holds the `Task` datatype (name,
  priority, completed flag). It also holds functions for what the loops of
  the class compute:
  - `LastMinFrom` is the index the inner selection loop settles on;
  - `SelectFrom` and `SelectionSort` are the outer loop;
  - `RemoveAt` is the left shift;
  - `ReachableCapacity` is the capacity rule, and `CapacityAfter(k)` is the
    capacity after k resizes.

  The lemmas prove that the sort yields a sorted permutation and that removal
  keeps order and the multiset of tasks. They also prove that both list
  operations keep `ListsInvariant`: pending sorted and not completed,
  completed flagged, and every task ever created in exactly one list.
- `ToDo` (`todo_list.dfy`) is the imperative model. `ToDoList` is a class
  with the two `array<Task>` fields and the four counters. Its methods have
  the loops of the source: the copy loops of the two resize methods, the
  selection sort and the left shift. Ghost functions give the views:
  `Pending()` is `tasksArray[..taskCount]` and `Completed()` is
  `completedArray[..completedCount]`. `Valid()` is the class invariant.
  `Shape()` is its array and capacity part. `MoveToCompleted` needs only
  `Shape()`, because the source sets the flag of the task before moving it.
  The sort loops, the inner scan, the swap and the shift loop are small
  methods over the array (`SelectionSortPrefix`, `SelectionPass`,
  `SelectLastMin`, `SwapEntries`, `ShiftLeft`). A worked example (the
  `WorkedExample*` members) adds "Write report" (3), "Fix bug" (1) and
  "Review PR" (2). It gets them back sorted, completes the first, and sees
  that completing number 99 changes nothing.

What the user types is passed in as parameters. `AddTask(name, priority)`
requires `priority > 0`, in place of the source's re-prompt loop.
`CompleteTask(k)` returns a `Completion`. It is `NoTasks` when the pending
list is empty, which is the source's early return. It is `InvalidTaskNumber`
when k is outside `1..taskCount`, and `Done` otherwise.

The sort is not stable, though a stable order among equal priorities (by
insertion) might be expected of it. The scan at line 163 keeps the *last*
minimum (`<=`), and the swap at line 167 follows. So when a task is added
next to one of equal priority, the one added second comes first right
after it is added (`SelectionSortSwapsTies`). The order of tied tasks after
later additions depends on what else is in the list: adding a task of
larger priority can sort the pair back into insertion order
(`SelectionSortTiesRestored`). The model proves "sorted and a permutation",
together with the exact order `SelectionSort` produces.

## Model

| member | source | states |
|---|---|---|
| `Tasks.LastMinFrom` | To-Do-List-index.cpp:161-166 | the scan of positions lo.. lands on an index whose priority is at most every later one, and strictly below every one after it (the last minimum, since `<=` replaces the candidate) |
| `Tasks.Swap` | To-Do-List-index.cpp:167 | exchanging two entries puts each at the other's place and leaves every other entry alone |
| `Tasks.SwapPermutes` | To-Do-List-index.cpp:167 | a swap keeps the multiset of entries |
| `Tasks.SelectFrom` | To-Do-List-index.cpp:160-168 | the outer loop from position i keeps the length of the list |
| `Tasks.SelectStepSettles` | To-Do-List-index.cpp:160-168 | swapping the last minimum of the suffix into position i settles one more position: every position up to i is no larger than any later one |
| `Tasks.SelectFromSorts` | To-Do-List-index.cpp:160-168 | once the positions before i are settled, the rest of the loop leaves the list sorted by priority |
| `Tasks.SelectionSort` | To-Do-List-index.cpp:158-169 | the functional model of `sortTasks`: the outer loop run from position 0; its result has the length of its input (its order and its contents are the two lemmas below) |
| `Tasks.SelectionSortSorted` | To-Do-List-index.cpp:158-169 | after `sortTasks` the list is non-decreasing by priority |
| `Tasks.SelectFromPermutes` | To-Do-List-index.cpp:160-168 | the loop from any position keeps the multiset of tasks |
| `Tasks.SelectionSortPermutes` | To-Do-List-index.cpp:158-169 | `sortTasks` only permutes the tasks |
| `Tasks.SelectionSortSwapsTies` | To-Do-List-index.cpp:163 | two tasks of equal priority come out in reverse order: the sort is not stable |
| `Tasks.SelectionSortTiesRestored` | To-Do-List-index.cpp:160-167 | sorting [b, a, c] with a and b tied below c gives [a, b, c]: ties are not always reversed either, so no fixed order among equal priorities holds |
| `Tasks.RemoveAt` | To-Do-List-index.cpp:152-155 | removing index i keeps the entries before i and moves each later entry one place left; the length drops by one |
| `Tasks.RemoveAtMultiset` | To-Do-List-index.cpp:152-155 | removal takes exactly one copy of the removed task out of the list |
| `Tasks.RemoveAtSorted` | To-Do-List-index.cpp:152-155 | removal keeps a sorted pending list sorted |
| `Tasks.RemoveAtUpdated` | To-Do-List-index.cpp:84-85 | setting the flag of the entry that is then removed does not change what remains |
| `Tasks.ReopenedAppend` | To-Do-List-index.cpp:148-149 | appending a task marked completed adds exactly that task, as it was while pending, to what the completed list accounts for |
| `Tasks.AddKeepsInvariant` | To-Do-List-index.cpp:46-69 | appending a new pending task with a positive priority and sorting keeps the list invariant and adds exactly that task |
| `Tasks.CompleteKeepsInvariant` | To-Do-List-index.cpp:142-156 | moving a pending task, flagged completed, to the end of the completed list keeps the list invariant with no task lost or duplicated |
| `Tasks.ReachableCapacity` | To-Do-List-index.cpp:116-131 | the capacity rule: 10, or an even number above 10 whose half obeys the rule; every capacity it admits is a multiple of 10 and at least 10 |
| `Tasks.CapacityAfter` | To-Do-List-index.cpp:116-131 | the capacity after k resizes, 10 doubled k times; it is a multiple of 10 and at least 10 * (k + 1) |
| `Tasks.CapacityAfterReachable` | To-Do-List-index.cpp:30 | the capacity after any number of resizes, starting from 10, satisfies the capacity rule |
| `Tasks.ReachableIsCapacityAfter` | To-Do-List-index.cpp:30 | every capacity the rule allows is 10 doubled some number of times, so the rule admits nothing else |
| `Tasks.DoubledCapacityReachable` | To-Do-List-index.cpp:116-118 | doubling a reachable capacity gives a reachable capacity |
| `ToDo.SelectLastMin` | To-Do-List-index.cpp:161-166 | the inner loop returns `LastMinFrom` of the pending prefix |
| `ToDo.SwapEntries` | To-Do-List-index.cpp:167 | `swap` on the array changes the prefix exactly as `Swap` does and leaves the slots past it alone |
| `ToDo.SelectionPass` | To-Do-List-index.cpp:161-167 | one pass of the outer loop changes the prefix exactly as swapping its last minimum into position i does, and leaves the slots past it alone |
| `ToDo.SelectionSortPrefix` | To-Do-List-index.cpp:160-168 | the nested loops leave `SelectionSort` of the old prefix in the first n slots and leave the slots past it alone |
| `ToDo.ShiftLeft` | To-Do-List-index.cpp:152-154 | the shift loop leaves `RemoveAt` of the old prefix in the first n-1 slots, does not touch the slots before i and leaves the last slot as it was |
| `ToDo.ToDoList.constructor` | To-Do-List-index.cpp:30-33 | both lists empty, both capacities 10, invariant established |
| `ToDo.ToDoList.ResizeTaskArray` | To-Do-List-index.cpp:116-127 | capacity doubled and still allowed by the capacity rule, a fresh array holding the same pending tasks with room for one more, nothing else changed |
| `ToDo.ToDoList.ResizeCompletedArray` | To-Do-List-index.cpp:129-140 | capacity doubled and still allowed by the capacity rule, a fresh array holding the same completed tasks with room for one more, nothing else changed |
| `ToDo.ToDoList.SortTasks` | To-Do-List-index.cpp:158-169 | the pending prefix becomes `SelectionSort` of what it was; the slots past it keep their values |
| `ToDo.ToDoList.AddTask` | To-Do-List-index.cpp:46-69 | count up by one; pending is the selection sort of the old list plus the new task (not completed), so it is sorted and holds exactly one more task; capacity doubles exactly when the array was full; the completed list is unchanged; invariant kept |
| `ToDo.ToDoList.MoveToCompleted` | To-Do-List-index.cpp:142-156 | the task at i leaves the pending list with the others in order and is appended to the completed list; that array doubles exactly when full |
| `ToDo.ToDoList.CompleteTask` | To-Do-List-index.cpp:71-89 | `NoTasks` on an empty list, `InvalidTaskNumber` outside 1..taskCount, with no change at all in either case; otherwise the k-th task leaves the pending list in order and, flagged completed, ends the completed list; the sum of the counts is kept; invariant kept |
| `ToDo.WorkedExampleFirstOrders` | To-Do-List-index.cpp:158-169 | the sort orders after adding priority 3, then 1 |
| `ToDo.WorkedExampleThirdOrder` | To-Do-List-index.cpp:158-169 | the sort places priority 2 between 1 and 3 |
| `ToDo.WorkedExampleFirstAdds` | To-Do-List-index.cpp:46-69 | a new list after adding "Write report" (3) then "Fix bug" (1) holds them in the order 1, 3 |
| `ToDo.WorkedExampleInvalidNumber` | To-Do-List-index.cpp:82-87 | completing number 99 on a list of two pending tasks returns `InvalidTaskNumber` and changes neither list |
| `ToDo.WorkedExampleThirdAdd` | To-Do-List-index.cpp:46-69 | adding "Review PR" (2) then gives the order 1, 2, 3 |

`WorkedExampleCompletes` has no contract of its own. It asserts that
completing task 1 leaves [Review PR, Write report] pending and [Fix bug]
completed, and that completing task 99 then returns `InvalidTaskNumber` and
leaves both lists as they were.

## Left out

- Console I/O: the prompts and messages of `addTask` and `completeTask`, `displayTasks` and `displayCompletedTasks` (lines 91-113, which only print) and the `main` menu loop (lines 172-208). The views `Pending()` and `Completed()` stand for what the two display functions list.
- ToDo.ToDoList.AddTask: the loop that re-prompts until the priority is positive (lines 60-63) is the precondition `priority > 0`. The behaviour of `cin` on non-numeric input is not modelled.
- Memory management: the destructor (lines 35-44), `new`/`delete` of tasks and arrays, and the ownership of the task pointers. Tasks are values here. The source never shares a task between two live slots, so values behave the same.
- The stale pointer left in the last pending slot after a shift is modelled only as "that slot keeps its value" (`ShiftLeft`). Nothing reads it.
- 32-bit `int`: `taskSize *= 2` and `completedSize *= 2` could overflow after about 27 doublings. Capacities and counts are unbounded `nat` here. Priorities are only compared, never computed on.
- The default `Task()` constructor (line 13) is never used by the list.
