/** The value side of the to-do list in todo.c: the enums, the task record, the
    comparator handed to qsort, the priority cycle of the badge, the filter test of
    the task view, and the sequence-level specifications (visible tasks, removal)
    that the store's methods in todo_app.dfy are proved against. */
module TaskList {

  /** The C enum Priority; LOW = 0, MEDIUM = 1, HIGH = 2. */
  datatype Priority = Low | Medium | High

  /** The integer value of a Priority enumerator. */
  function Rank(p: Priority): (r: nat)
    ensures r < 3
    ensures r == 0 <==> p == Low
    ensures r == 2 <==> p == High
  {
    match p
    case Low => 0
    case Medium => 1
    case High => 2
  }

  /** The cast `(Priority) k` for an enumerator value k. */
  function PriorityOfIndex(k: int): (p: Priority)
    requires 0 <= k < 3
    ensures Rank(p) == k
  {
    if k == 0 then Low else if k == 1 then Medium else High
  }

  /** One task record: completion flag, description, creation date and priority. */
  datatype Task = Task(completed: bool, description: string, date: string, priority: Priority)

  /** A click on the priority badge: `if (priority + 1 >= HIGH + 1) priority = 0; else ++priority;`. */
  function CyclePriority(p: Priority): (r: Priority)
    ensures Rank(r) == (Rank(p) + 1) % 3
  {
    if Rank(p) + 1 >= Rank(High) + 1 then PriorityOfIndex(0) else PriorityOfIndex(Rank(p) + 1)
  }

  lemma CyclePrioritySteps()
    ensures CyclePriority(Low) == Medium
    ensures CyclePriority(Medium) == High
    ensures CyclePriority(High) == Low
  {
  }

  /** Three clicks on the badge bring a task back to the priority it had. */
  lemma CyclePriorityPeriodThree(p: Priority)
    ensures CyclePriority(CyclePriority(CyclePriority(p))) == p
    ensures CyclePriority(p) != p
  {
  }

  /** compare_task_priority: negative when a must come before b, that is when a has the
      higher priority; zero when both have the same priority. */
  function ComparePriority(a: Task, b: Task): (r: int)
    ensures -2 <= r <= 2
    ensures r < 0 <==> Rank(a.priority) > Rank(b.priority)
    ensures r > 0 <==> Rank(a.priority) < Rank(b.priority)
    ensures r == 0 <==> a.priority == b.priority
  {
    Rank(b.priority) - Rank(a.priority)
  }

  /** The comparator is a consistent total preorder, as qsort requires of it. */
  lemma ComparePriorityIsTotalPreorder(a: Task, b: Task, c: Task)
    ensures ComparePriority(a, b) == -ComparePriority(b, a)
    ensures ComparePriority(a, a) == 0
    ensures ComparePriority(a, b) <= 0 && ComparePriority(b, c) <= 0 ==> ComparePriority(a, c) <= 0
  {
  }

  /** The order qsort establishes with compare_task_priority: no pair of tasks out of order. */
  ghost predicate SortedByPriority(s: seq<Task>)
  {
    forall j, k :: 0 <= j < k < |s| ==> ComparePriority(s[j], s[k]) <= 0
  }

  /** Sorted by the comparator means priorities do not increase along the list. */
  lemma SortedByPriorityMeansNonIncreasing(s: seq<Task>)
    ensures SortedByPriority(s) <==>
              forall j, k :: 0 <= j < k < |s| ==> Rank(s[j].priority) >= Rank(s[k].priority)
  {
  }

  /** The C enum Filter; ALL = 0, IN_PROGRESS = 1, COMPLETED = 2. */
  datatype Filter = All | InProgress | Completed

  /** The cast `(Filter) i` applied to the index of a filter button. */
  function FilterOfIndex(k: int): (f: Filter)
    requires 0 <= k < 3
    ensures k == 0 <==> f == All
    ensures k == 1 <==> f == InProgress
    ensures k == 2 <==> f == Completed
  {
    if k == 0 then All else if k == 1 then InProgress else Completed
  }

  /** The row filter of the task view: a task is skipped when the view is IN_PROGRESS and
      the task is completed, or the view is COMPLETED and the task is not. */
  predicate Shown(f: Filter, t: Task): (r: bool)
    ensures f == All ==> r
    ensures f == InProgress ==> (r <==> !t.completed)
    ensures f == Completed ==> (r <==> t.completed)
  {
    !(f == InProgress && t.completed) && !(f == Completed && !t.completed)
  }

  /** The tasks the view draws under filter f, in list order. */
  function Visible(f: Filter, s: seq<Task>): (r: seq<Task>)
    ensures |r| <= |s|
  {
    if s == [] then [] else (if Shown(f, s[0]) then [s[0]] else []) + Visible(f, s[1..])
  }

  /** A view holds exactly the tasks of the list that the filter admits. */
  lemma {:induction false} VisibleMembers(f: Filter, s: seq<Task>)
    ensures forall t :: t in Visible(f, s) <==> t in s && Shown(f, t)
  {
    if s != [] {
      VisibleMembers(f, s[1..]);
      assert s == [s[0]] + s[1..];
    }
  }

  lemma {:induction false} VisibleAppend(f: Filter, s: seq<Task>, t: seq<Task>)
    ensures Visible(f, s + t) == Visible(f, s) + Visible(f, t)
  {
    if s == [] {
      assert s + t == t;
    } else {
      assert (s + t)[1..] == s[1..] + t;
      VisibleAppend(f, s[1..], t);
    }
  }

  /** The view of a list split around position k. */
  lemma VisibleAround(f: Filter, s: seq<Task>, k: nat)
    requires k < |s|
    ensures Visible(f, s) == Visible(f, s[..k]) + Visible(f, [s[k]]) + Visible(f, s[k + 1..])
  {
    assert s == s[..k] + [s[k]] + s[k + 1..];
    VisibleAppend(f, s[..k] + [s[k]], s[k + 1..]);
    VisibleAppend(f, s[..k], [s[k]]);
  }

  /** The ALL view is the whole list. */
  lemma {:induction false} VisibleAll(s: seq<Task>)
    ensures Visible(All, s) == s
  {
    if s != [] {
      VisibleAll(s[1..]);
    }
  }

  /** Every task is in exactly one of the IN_PROGRESS and COMPLETED views. */
  lemma {:induction false} VisibleSplit(s: seq<Task>)
    ensures |Visible(InProgress, s)| + |Visible(Completed, s)| == |s|
  {
    if s != [] {
      VisibleSplit(s[1..]);
    }
  }

  /** A view of a sorted list is sorted: filtering does not reorder. */
  lemma {:induction false} VisibleKeepsSorted(f: Filter, s: seq<Task>)
    requires SortedByPriority(s)
    ensures SortedByPriority(Visible(f, s))
  {
    if s != [] {
      var rest := Visible(f, s[1..]);
      assert SortedByPriority(s[1..]) by {
        forall j, k | 0 <= j < k < |s[1..]|
          ensures ComparePriority(s[1..][j], s[1..][k]) <= 0
        {
          assert s[1..][j] == s[j + 1] && s[1..][k] == s[k + 1];
        }
      }
      VisibleKeepsSorted(f, s[1..]);
      if Shown(f, s[0]) {
        var r := [s[0]] + rest;
        forall j, k | 0 <= j < k < |r| ensures ComparePriority(r[j], r[k]) <= 0 {
          if j == 0 {
            VisibleMembers(f, s[1..]);
            assert r[k] in rest;
            var m :| 0 <= m < |s[1..]| && s[1..][m] == r[k];
            assert s[m + 1] == r[k];
          } else {
            assert r[j] == rest[j - 1] && r[k] == rest[k - 1];
          }
        }
      }
    }
  }

  /** Reordering the list (as the sort does) leaves every view with the same tasks. */
  lemma {:induction false} VisiblePermutation(f: Filter, s: seq<Task>, t: seq<Task>)
    requires multiset(s) == multiset(t)
    ensures multiset(Visible(f, s)) == multiset(Visible(f, t))
    ensures |Visible(f, s)| == |Visible(f, t)|
    decreases |s|
  {
    if s == [] {
      assert |t| == |multiset(t)| == 0;
    } else {
      var x := s[0];
      assert x in t by {
        assert x in multiset(t);
      }
      var k :| 0 <= k < |t| && t[k] == x;
      assert multiset(s[1..]) == multiset(Removed(t, k)) by {
        RemovedMultiset(t, k);
        RemovedMultiset(s, 0);
        assert Removed(s, 0) == s[1..];
      }
      VisiblePermutation(f, s[1..], Removed(t, k));
      VisibleRemovedMultiset(f, t, k);
      VisibleRemovedMultiset(f, s, 0);
      assert Removed(s, 0) == s[1..];
      assert |multiset(Visible(f, s))| == |Visible(f, s)|;
    }
  }

  /** The view of a list is the view of the list without task k, plus task k if admitted. */
  lemma VisibleRemovedMultiset(f: Filter, s: seq<Task>, k: nat)
    requires k < |s|
    ensures multiset(Visible(f, s)) == multiset(Visible(f, [s[k]])) + multiset(Visible(f, Removed(s, k)))
  {
    VisibleAround(f, s, k);
    VisibleAppend(f, s[..k], s[k + 1..]);
  }

  /** Ticking or unticking the checkbox of task i moves that task between the IN_PROGRESS
      and COMPLETED views and leaves the ALL view's count alone. */
  lemma ToggleMovesBetweenViews(s: seq<Task>, i: nat)
    requires i < |s|
    ensures var s' := s[i := s[i].(completed := !s[i].completed)];
      && |Visible(All, s')| == |Visible(All, s)|
      && |Visible(InProgress, s')| == |Visible(InProgress, s)| + (if s[i].completed then 1 else -1)
      && |Visible(Completed, s')| == |Visible(Completed, s)| + (if s[i].completed then -1 else 1)
  {
    var s' := s[i := s[i].(completed := !s[i].completed)];
    assert s == s[..i] + [s[i]] + s[i + 1..];
    assert s' == s[..i] + [s'[i]] + s[i + 1..];
    forall f: Filter
      ensures |Visible(f, s')| - |Visible(f, s)|
              == (if Shown(f, s'[i]) then 1 else 0) - (if Shown(f, s[i]) then 1 else 0)
    {
      VisibleAppend(f, s[..i] + [s[i]], s[i + 1..]);
      VisibleAppend(f, s[..i], [s[i]]);
      VisibleAppend(f, s[..i] + [s'[i]], s[i + 1..]);
      VisibleAppend(f, s[..i], [s'[i]]);
    }
  }

  /** The list after the trash button of task i, with the intended order-preserving shift. */
  function Removed(s: seq<Task>, i: nat): (r: seq<Task>)
    requires i < |s|
    ensures |r| == |s| - 1
    ensures forall j :: 0 <= j < i ==> r[j] == s[j]
    ensures forall j :: i <= j < |r| ==> r[j] == s[j + 1]
  {
    s[..i] + s[i + 1..]
  }

  /** Exactly the targeted task leaves the list. */
  lemma RemovedMultiset(s: seq<Task>, i: nat)
    requires i < |s|
    ensures multiset(Removed(s, i)) == multiset(s) - multiset{s[i]}
  {
    assert s == s[..i] + [s[i]] + s[i + 1..];
  }

  /** Removal keeps the list sorted by priority. */
  lemma RemovedKeepsSorted(s: seq<Task>, i: nat)
    requires i < |s| && SortedByPriority(s)
    ensures SortedByPriority(Removed(s, i))
  {
    var r := Removed(s, i);
    forall j, k | 0 <= j < k < |r| ensures ComparePriority(r[j], r[k]) <= 0 {
      var j' := if j < i then j else j + 1;
      var k' := if k < i then k else k + 1;
      assert r[j] == s[j'] && r[k] == s[k'];
    }
  }

  /** The list after the deletion loop of todo.c:291-293 as it is written: every pass of the
      loop copies tasks[i + 1] into tasks[i], and then the count drops by one. */
  function RemovedAsWritten(s: seq<Task>, i: nat): (r: seq<Task>)
    requires i < |s|
    ensures |r| == |s| - 1
    ensures forall j :: 0 <= j < |r| && j != i ==> r[j] == s[j]
    ensures i < |r| ==> r[i] == s[i + 1]
  {
    (if i < |s| - 1 then s[i := s[i + 1]] else s)[..|s| - 1]
  }

  /** Pairwise different task values; two records with equal fields count as equal here. */
  ghost predicate Distinct(s: seq<Task>)
  {
    forall j, k :: 0 <= j < k < |s| ==> s[j] != s[k]
  }

  /** The loop as written agrees with the intended shift exactly when the deleted task is
      one of the last two. */
  lemma RemovedAsWrittenAgreesIff(s: seq<Task>, i: nat)
    requires i < |s| && Distinct(s)
    ensures RemovedAsWritten(s, i) == Removed(s, i) <==> i + 2 >= |s|
  {
    var w, r := RemovedAsWritten(s, i), Removed(s, i);
    if i + 2 >= |s| {
      assert forall j :: 0 <= j < |r| ==> w[j] == r[j];
    } else {
      assert w[i + 1] == s[i + 1] && r[i + 1] == s[i + 2];
      assert w != r;
    }
  }

  /** When an earlier task is deleted, the loop as written loses the last task of the list
      and keeps the task after the deleted one twice. */
  lemma RemovedAsWrittenLosesLast(s: seq<Task>, i: nat)
    requires i + 2 < |s| && Distinct(s)
    ensures s[|s| - 1] !in RemovedAsWritten(s, i)
    ensures s[|s| - 1] in Removed(s, i)
    ensures RemovedAsWritten(s, i)[i] == RemovedAsWritten(s, i)[i + 1] == s[i + 1]
  {
    var w := RemovedAsWritten(s, i);
    var r := Removed(s, i);
    assert r[|r| - 1] == s[|s| - 1];
    forall j | 0 <= j < |w| ensures w[j] != s[|s| - 1] {
      if j == i {
        assert w[j] == s[i + 1];
      } else {
        assert w[j] == s[j];
      }
    }
  }

  /** The values of a `uint8_t`. */
  type Uint8 = x: int | 0 <= x < 256

  /** The `uint8_t task_index` of the deletion loop after k passes of `++task_index`,
      starting from `task_index = i`, which keeps the low 8 bits of the 16-bit i. */
  function TaskIndexAfter(i: nat, k: nat): (x: Uint8)
    ensures x == (i + k) % 256
    decreases k
  {
    if k == 0 then i % 256
    else
      var x := (TaskIndexAfter(i, k - 1) + 1) % 256;
      WrapStep(i + k - 1);
      x
  }

  /** One `++` on a `uint8_t` holding n modulo 256 gives n + 1 modulo 256. */
  lemma WrapStep(n: nat)
    ensures (n % 256 + 1) % 256 == (n + 1) % 256
  {
    var q, r := n / 256, n % 256;
    assert n == 256 * q + r;
    if r < 255 {
      assert n + 1 == 256 * q + (r + 1);
    } else {
      assert n + 1 == 256 * (q + 1) + 0;
    }
  }

  /** With 257 or more tasks the guard `task_index < num_tasks - 1` holds after every
      number of passes: the deletion loop as written never ends. */
  lemma TaskIndexLoopNeverExits(i: nat, numTasks: nat, k: nat)
    requires 257 <= numTasks && i < numTasks
    ensures TaskIndexAfter(i, k) < numTasks - 1
  {
  }

  /** Three tasks, the first one deleted: the loop as written leaves [b, b] where [b, c]
      was meant. */
  lemma RemovedAsWrittenExample(a: Task, b: Task, c: Task)
    requires a != b && b != c && a != c
    ensures RemovedAsWritten([a, b, c], 0) == [b, b]
    ensures Removed([a, b, c], 0) == [b, c]
  {
    assert [a, b, c][1..] == [b, c];
  }
}
