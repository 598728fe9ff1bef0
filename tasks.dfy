/** Tasks of the to-do list and the value-level specification of the list
    operations: priority order, the selection sort the list runs after every
    insertion, removal at an index and the capacity rule of the backing arrays. */
module Tasks {

  /** A task: its name, its priority (a lower number is more urgent) and
      whether it has been completed. A freshly created task is not completed. */
  datatype Task = Task(name: string, priority: int, completed: bool)

  /** The task a completed entry was before it was marked completed. */
  function Reopen(t: Task): (r: Task)
    ensures r.name == t.name && r.priority == t.priority && !r.completed
  {
    t.(completed := false)
  }

  /** Every entry of a completed list, as it was while still pending. */
  function Reopened(s: seq<Task>): (r: seq<Task>)
    ensures |r| == |s|
    ensures forall k :: 0 <= k < |s| ==> r[k] == Reopen(s[k])
  {
    seq(|s|, k requires 0 <= k < |s| => Reopen(s[k]))
  }

  /** Non-decreasing by priority. */
  ghost predicate Sorted(s: seq<Task>) {
    forall p, q :: 0 <= p < q < |s| ==> s[p].priority <= s[q].priority
  }

  /** What a pending list holds: tasks not yet completed, each with a positive priority. */
  ghost predicate AllPending(s: seq<Task>) {
    forall k :: 0 <= k < |s| ==> !s[k].completed && s[k].priority > 0
  }

  /** What a completed list holds: completed tasks, each with a positive priority. */
  ghost predicate AllDone(s: seq<Task>) {
    forall k :: 0 <= k < |s| ==> s[k].completed && s[k].priority > 0
  }

  // ---------------------------------------------------------------------------
  // Selection sort

  /** The index the inner loop of the selection sort settles on when it scans
      s[lo..]: the LAST position holding the smallest priority, because the
      scan replaces its candidate whenever an entry is less than OR EQUAL to it. */
  function LastMinFrom(s: seq<Task>, lo: nat): (m: nat)
    requires lo < |s|
    ensures lo <= m < |s|
    ensures forall k :: lo <= k < |s| ==> s[m].priority <= s[k].priority
    ensures forall k :: m < k < |s| ==> s[m].priority < s[k].priority
    decreases |s| - lo
  {
    if lo == |s| - 1 then lo
    else
      var m := LastMinFrom(s, lo + 1);
      if s[m].priority <= s[lo].priority then m else lo
  }

  /** The two conditions above single out one index. */
  lemma LastMinUnique(s: seq<Task>, lo: nat, m: nat)
    requires lo <= m < |s|
    requires forall k :: lo <= k < |s| ==> s[m].priority <= s[k].priority
    requires forall k :: m < k < |s| ==> s[m].priority < s[k].priority
    ensures m == LastMinFrom(s, lo)
  {
  }

  /** s with the entries at i and j exchanged (the same s when i == j). */
  function Swap(s: seq<Task>, i: nat, j: nat): (r: seq<Task>)
    requires i < |s| && j < |s|
    ensures |r| == |s| && r[i] == s[j] && r[j] == s[i]
    ensures forall k :: 0 <= k < |s| && k != i && k != j ==> r[k] == s[k]
  {
    s[i := s[j]][j := s[i]]
  }

  /** Exchanging two entries keeps the same entries. */
  lemma SwapPermutes(s: seq<Task>, i: nat, j: nat)
    requires i < |s| && j < |s|
    ensures multiset(Swap(s, i, j)) == multiset(s)
  {
  }

  /** The outer loop of the selection sort from position i on: while i is not
      the last position, swap the last minimum of s[i..] into position i. */
  function SelectFrom(s: seq<Task>, i: nat): (r: seq<Task>)
    requires i <= |s|
    ensures |r| == |s|
    decreases |s| - i
  {
    if i + 1 >= |s| then s
    else SelectFrom(Swap(s, i, LastMinFrom(s, i)), i + 1)
  }

  lemma SelectFromStep(s: seq<Task>, i: nat)
    requires i + 1 < |s|
    ensures SelectFrom(s, i) == SelectFrom(Swap(s, i, LastMinFrom(s, i)), i + 1)
  {
  }

  lemma SelectFromDone(s: seq<Task>, i: nat)
    requires i <= |s| && i + 1 >= |s|
    ensures SelectFrom(s, i) == s
  {
  }

  /** The selection sort of the whole list: its result has the same length. */
  function SelectionSort(s: seq<Task>): (r: seq<Task>)
    ensures |r| == |s|
  {
    SelectFrom(s, 0)
  }

  /** Positions before i hold their final entries: each is no larger than any later entry. */
  ghost predicate SettledBelow(s: seq<Task>, i: nat) {
    forall p, q :: 0 <= p < q < |s| && p < i ==> s[p].priority <= s[q].priority
  }

  /** One step of the outer loop settles one more position. */
  lemma SelectStepSettles(s: seq<Task>, i: nat)
    requires i < |s| && SettledBelow(s, i)
    ensures SettledBelow(Swap(s, i, LastMinFrom(s, i)), i + 1)
  {
  }

  lemma {:induction false} SelectFromSorts(s: seq<Task>, i: nat)
    requires i <= |s| && SettledBelow(s, i)
    ensures Sorted(SelectFrom(s, i))
    decreases |s| - i
  {
    if i + 1 < |s| {
      SelectStepSettles(s, i);
      SelectFromSorts(Swap(s, i, LastMinFrom(s, i)), i + 1);
    } else {
      forall p, q | 0 <= p < q < |s| ensures s[p].priority <= s[q].priority {
        assert p < i;
      }
    }
  }

  /** The selection sort orders the list by priority. */
  lemma SelectionSortSorted(s: seq<Task>)
    ensures Sorted(SelectionSort(s))
  {
    SelectFromSorts(s, 0);
  }

  lemma {:induction false} SelectFromPermutes(s: seq<Task>, i: nat)
    requires i <= |s|
    ensures multiset(SelectFrom(s, i)) == multiset(s)
    decreases |s| - i
  {
    if i + 1 < |s| {
      var t := Swap(s, i, LastMinFrom(s, i));
      calc {
        multiset(SelectFrom(s, i));
        { SelectFromStep(s, i); }
        multiset(SelectFrom(t, i + 1));
        { SelectFromPermutes(t, i + 1); }
        multiset(t);
        { SwapPermutes(s, i, LastMinFrom(s, i)); }
        multiset(s);
      }
    } else {
      SelectFromDone(s, i);
    }
  }

  /** The selection sort only exchanges entries: the result is a permutation. */
  lemma SelectionSortPermutes(s: seq<Task>)
    ensures multiset(SelectionSort(s)) == multiset(s)
  {
    SelectFromPermutes(s, 0);
  }

  /** The sort is not stable: of two tasks with the same priority, the one
      that came second ends up first. */
  lemma SelectionSortSwapsTies(a: Task, b: Task)
    requires a.priority == b.priority
    ensures SelectionSort([a, b]) == [b, a]
  {
    var s := [a, b];
    assert LastMinFrom(s, 0) == 1;
    assert Swap(s, 0, 1) == [b, a];
    assert SelectFrom(s, 0) == SelectFrom([b, a], 1);
  }

  /** Nor does it always reverse ties: adding a third task of larger priority
      to the two-task list above sorts the tied pair back into insertion order. */
  lemma SelectionSortTiesRestored(a: Task, b: Task, c: Task)
    requires a.priority == b.priority < c.priority
    ensures SelectionSort([b, a, c]) == [a, b, c]
  {
    var s := [b, a, c];
    assert LastMinFrom(s, 1) == 1;
    assert LastMinFrom(s, 0) == 1;
    var t := Swap(s, 0, 1);
    assert t == [a, b, c];
    assert SelectFrom(s, 0) == SelectFrom(t, 1);
    assert LastMinFrom(t, 1) == 1;
    assert Swap(t, 1, 1) == t;
    assert SelectFrom(t, 1) == SelectFrom(t, 2);
  }

  // ---------------------------------------------------------------------------
  // Removal

  /** s without its entry at index i, the others in their order. */
  function RemoveAt(s: seq<Task>, i: nat): (r: seq<Task>)
    requires i < |s|
    ensures |r| == |s| - 1
    ensures forall k :: 0 <= k < i ==> r[k] == s[k]
    ensures forall k :: i <= k < |r| ==> r[k] == s[k + 1]
  {
    s[..i] + s[i + 1..]
  }

  /** Removing at i takes exactly one copy of s[i] out of the list. */
  lemma RemoveAtMultiset(s: seq<Task>, i: nat)
    requires i < |s|
    ensures multiset(RemoveAt(s, i)) + multiset{s[i]} == multiset(s)
  {
    assert s == s[..i] + [s[i]] + s[i + 1..];
  }

  /** Removing an entry keeps a sorted list sorted. */
  lemma RemoveAtSorted(s: seq<Task>, i: nat)
    requires i < |s| && Sorted(s)
    ensures Sorted(RemoveAt(s, i))
  {
  }

  /** Marking the entries completed and reopening them gives back the entries. */
  lemma ReopenedAppend(s: seq<Task>, t: Task)
    requires !t.completed
    ensures Reopened(s + [t.(completed := true)]) == Reopened(s) + [t]
  {
  }

  /** Replacing the entry that is then removed makes no difference. */
  lemma RemoveAtUpdated(s: seq<Task>, i: nat, t: Task)
    requires i < |s|
    ensures RemoveAt(s[i := t], i) == RemoveAt(s, i)
  {
  }

  // ---------------------------------------------------------------------------
  // The two list operations on values

  /** What holds of the two lists at all times: the pending list is sorted by
      priority and holds only pending tasks, the completed list only completed
      ones, and every task ever created is in exactly one of the two lists. */
  ghost predicate ListsInvariant(pending: seq<Task>, completed: seq<Task>, created: multiset<Task>) {
    Sorted(pending) && AllPending(pending) && AllDone(completed) &&
    multiset(pending) + multiset(Reopened(completed)) == created
  }

  /** Adding a new, not completed task with a positive priority and sorting
      keeps the invariant, with the new task counted as created, and the
      pending list then holds exactly the old tasks and the new one. */
  lemma AddKeepsInvariant(p: seq<Task>, c: seq<Task>, created: multiset<Task>, t: Task)
    requires ListsInvariant(p, c, created) && !t.completed && t.priority > 0
    ensures ListsInvariant(SelectionSort(p + [t]), c, created + multiset{t})
    ensures multiset(SelectionSort(p + [t])) == multiset(p) + multiset{t}
  {
    var r := SelectionSort(p + [t]);
    SelectionSortSorted(p + [t]);
    SelectionSortPermutes(p + [t]);
    forall k | 0 <= k < |r| ensures !r[k].completed && r[k].priority > 0 {
      assert r[k] in multiset(p + [t]);
      assert r[k] in p + [t];
    }
  }

  /** Completing the pending task at i keeps the invariant: the task leaves
      the pending list, marked completed it joins the end of the completed
      list, and no task is lost or duplicated. */
  lemma CompleteKeepsInvariant(p: seq<Task>, c: seq<Task>, created: multiset<Task>, i: nat)
    requires i < |p| && ListsInvariant(p, c, created)
    ensures ListsInvariant(RemoveAt(p, i), c + [p[i].(completed := true)], created)
  {
    RemoveAtSorted(p, i);
    RemoveAtMultiset(p, i);
    ReopenedAppend(c, p[i]);
  }

  // ---------------------------------------------------------------------------
  // Capacity

  /** A capacity the backing arrays can have: 10, doubled any number of times. */
  predicate ReachableCapacity(n: nat): (b: bool)
    ensures b ==> n >= 10 && n % 10 == 0
    decreases n
  {
    n == 10 || (n > 10 && n % 2 == 0 && ReachableCapacity(n / 2))
  }

  /** Doubling a reachable capacity gives a reachable capacity. */
  lemma DoubledCapacityReachable(n: nat)
    requires ReachableCapacity(n)
    ensures ReachableCapacity(2 * n)
  {
  }

  /** The capacity after k resizes: 10, doubled k times. */
  function CapacityAfter(k: nat): (c: nat)
    ensures c >= 10 * (k + 1) && c % 10 == 0
  {
    if k == 0 then 10 else 2 * CapacityAfter(k - 1)
  }

  /** Every capacity some number of resizes produces is reachable ... */
  lemma {:induction false} CapacityAfterReachable(k: nat)
    ensures ReachableCapacity(CapacityAfter(k))
  {
    if k > 0 {
      CapacityAfterReachable(k - 1);
      DoubledCapacityReachable(CapacityAfter(k - 1));
    }
  }

  /** ... and every reachable capacity is produced by some number of resizes. */
  lemma {:induction false} ReachableIsCapacityAfter(n: nat)
    requires ReachableCapacity(n)
    ensures exists k: nat :: CapacityAfter(k) == n
    decreases n
  {
    if n == 10 {
      assert CapacityAfter(0) == n;
    } else {
      ReachableIsCapacityAfter(n / 2);
      var k: nat :| CapacityAfter(k) == n / 2;
      assert CapacityAfter(k + 1) == n;
    }
  }
}
