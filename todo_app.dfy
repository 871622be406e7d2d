/** The state side of todo.c: the static globals the render functions read and update
    (the task array and its counter, the current filter and tab, the input buffer of the
    new-task form and the priority chosen in its dropdown), with one method per event
    the render functions react to. Drawing is left out; each method keeps only what the
    event does to the globals. */
module TodoApp {
  import opened TaskList

  /** `static task * tasks[1024]`. */
  const Capacity := 1024
  /** TASK_TEXT_BUFFER_SIZE, the size of the input buffer including its terminating NUL. */
  const InputBufferSize := 512
  /** The dropdown value that means "no priority chosen". */
  const NoPriority := -1

  /** The C enum GuiTab; DASHBOARD = 0, NEW_TASK = 1. */
  datatype GuiTab = Dashboard | NewTask

  /** `valid_task` of the Add button: `strlen` of the buffer is not zero and the dropdown
      value is not -1. */
  predicate ValidTask(input: string, selectedPriority: int): (r: bool)
    requires NoPriority <= selectedPriority < 3
    ensures r <==> input != [] && 0 <= selectedPriority < 3
  {
    |input| != 0 && selectedPriority != NoPriority
  }

  class AppState {
    var tasks: array<Task>
    var numTasks: nat
    var currentFilter: Filter
    var currentTab: GuiTab
    /** The text of new_task_input_value before its terminating NUL; it holds no NUL. */
    var input: string
    /** The function-static selected_priority of render_new_task. */
    var selectedPriority: int

    ghost predicate Valid()
      reads this
    {
      tasks.Length == Capacity && numTasks <= Capacity &&
      |input| < InputBufferSize && '\0' !in input && NoPriority <= selectedPriority < 3
    }

    /** The live tasks, tasks[0 .. num_tasks). */
    function Live(): seq<Task>
      reads this, tasks
      requires Valid()
    {
      tasks[..numTasks]
    }

    /** The state before the first frame: no tasks, the ALL filter on the dashboard, a
        cleared input buffer and no priority chosen. */
    constructor ()
      ensures Valid() && fresh(tasks)
      ensures Live() == []
      ensures currentFilter == All && currentTab == Dashboard
      ensures input == [] && selectedPriority == NoPriority
    {
      tasks := new Task[Capacity];
      numTasks := 0;
      currentFilter := All;
      currentTab := Dashboard;
      input := [];
      selectedPriority := NoPriority;
    }

    /** The "New task" button, drawn on the dashboard only, opens the form. */
    method ClickNewTask()
      requires Valid()
      modifies this`currentTab
      ensures Valid()
      ensures currentTab == NewTask
      ensures old(currentTab) == NewTask ==> unchanged(this)
    {
      if currentTab == Dashboard {
        currentTab := NewTask;
      }
    }

    /** The back button, drawn on the form only, returns to the dashboard. */
    method ClickBack()
      requires Valid()
      modifies this`currentTab
      ensures Valid()
      ensures currentTab == Dashboard
      ensures old(currentTab) == Dashboard ==> unchanged(this)
    {
      if currentTab == NewTask {
        currentTab := Dashboard;
      }
    }

    /** Filter button k of the three ("all", "in progress", "completed") selects filter k.
        The buttons are drawn on the dashboard only; on the form a click changes nothing. */
    method ClickFilter(k: nat)
      requires Valid() && k < 3
      modifies this`currentFilter
      ensures Valid()
      ensures old(currentTab) == Dashboard ==> currentFilter == FilterOfIndex(k)
      ensures old(currentTab) == NewTask ==> unchanged(this)
    {
      if currentTab == Dashboard {
        currentFilter := FilterOfIndex(k);
      }
    }

    /** The input field leaves the typed text in the buffer, which keeps room for its NUL.
        The field is drawn on the form only; on the dashboard typing changes nothing. */
    method TypeDescription(text: string)
      requires Valid() && |text| < InputBufferSize && '\0' !in text
      modifies this`input
      ensures Valid()
      ensures old(currentTab) == NewTask ==> input == text
      ensures old(currentTab) == Dashboard ==> unchanged(this)
    {
      if currentTab == NewTask {
        input := text;
      }
    }

    /** The dropdown stores the index of the item picked: 0 "Low", 1 "Medium", 2 "High".
        It is drawn on the form only; on the dashboard a pick changes nothing. */
    method PickPriority(item: nat)
      requires Valid() && item < 3
      modifies this`selectedPriority
      ensures Valid()
      ensures old(currentTab) == NewTask ==>
                selectedPriority == item && Rank(PriorityOfIndex(selectedPriority)) == item
      ensures old(currentTab) == Dashboard ==> unchanged(this)
    {
      if currentTab == NewTask {
        selectedPriority := item;
      }
    }

    /** The filter pass of render_tasks: the rows drawn under the current filter, how many
        there are, and whether the "no tasks" message is drawn. It changes nothing. */
    method RenderTasks() returns (rows: seq<Task>, numRendered: nat, noTasksMessage: bool)
      requires Valid()
      ensures rows == Visible(currentFilter, Live())
      ensures forall t :: t in rows <==> t in Live() && Shown(currentFilter, t)
      ensures numRendered == |rows| <= numTasks
      ensures noTasksMessage <==> numRendered == 0
    {
      rows, numRendered := [], 0;
      for i := 0 to numTasks
        invariant rows == Visible(currentFilter, tasks[..i])
        invariant numRendered == |rows|
      {
        var t := tasks[i];
        assert tasks[..i + 1] == tasks[..i] + [t];
        VisibleAppend(currentFilter, tasks[..i], [t]);
        if currentFilter == InProgress && t.completed {
          continue;
        }
        if currentFilter == Completed && !t.completed {
          continue;
        }
        rows := rows + [t];
        numRendered := numRendered + 1;
      }
      assert tasks[..numTasks] == Live();
      VisibleMembers(currentFilter, Live());
      noTasksMessage := numRendered == 0;
    }

    /** A left click on the priority badge of task i advances its priority. Badges, checkboxes
        and trash buttons belong to the rows drawn on the dashboard, so the caller names a
        live task that the current filter admits. */
    method ClickPriority(i: nat)
      requires Valid() && i < numTasks
      requires currentTab == Dashboard && Shown(currentFilter, tasks[i])
      modifies tasks
      ensures Valid()
      ensures Live() == old(Live())[i := old(tasks[i]).(priority := CyclePriority(old(tasks[i]).priority))]
      ensures forall j :: numTasks <= j < tasks.Length ==> tasks[j] == old(tasks[j])
    {
      tasks[i] := tasks[i].(priority := CyclePriority(tasks[i].priority));
    }

    /** The checkbox of task i flips its completed flag and nothing else. */
    method ToggleCompleted(i: nat)
      requires Valid() && i < numTasks
      requires currentTab == Dashboard && Shown(currentFilter, tasks[i])
      modifies tasks
      ensures Valid()
      ensures Live() == old(Live())[i := old(tasks[i]).(completed := !old(tasks[i]).completed)]
      ensures forall j :: numTasks <= j < tasks.Length ==> tasks[j] == old(tasks[j])
    {
      tasks[i] := tasks[i].(completed := !tasks[i].completed);
    }

    /** The trash button of task i with the intended loop: every later task moves one slot
        left and the count drops by one. */
    method Remove(i: nat)
      requires Valid() && i < numTasks
      requires currentTab == Dashboard && Shown(currentFilter, tasks[i])
      modifies this`numTasks, tasks
      ensures Valid()
      ensures numTasks == old(numTasks) - 1
      ensures Live() == Removed(old(Live()), i)
      ensures forall j :: 0 <= j < tasks.Length ==>
                tasks[j] == if i <= j < numTasks then old(tasks[j + 1]) else old(tasks[j])
    {
      var k := i;
      while k < numTasks - 1
        invariant i <= k <= numTasks - 1
        modifies tasks
        invariant forall j :: 0 <= j < tasks.Length ==>
                    tasks[j] == if i <= j < k then old(tasks[j + 1]) else old(tasks[j])
      {
        tasks[k] := tasks[k + 1];
        k := k + 1;
      }
      numTasks := numTasks - 1;
    }

    /** The trash button of task i with the loop of todo.c:291-293 as it is written: every
        pass copies tasks[i + 1] into tasks[i], then the count drops by one. */
    method RemoveAsWritten(i: nat)
      requires Valid() && i < numTasks <= 256
      requires currentTab == Dashboard && Shown(currentFilter, tasks[i])
      modifies this`numTasks, tasks
      ensures Valid()
      ensures numTasks == old(numTasks) - 1
      ensures Live() == RemovedAsWritten(old(Live()), i)
      ensures forall j :: 0 <= j < tasks.Length ==>
                tasks[j] == if j == i && i < numTasks then old(tasks[i + 1]) else old(tasks[j])
    {
      var taskIndex := i;
      while taskIndex < numTasks - 1
        invariant i <= taskIndex <= if i < numTasks - 1 then numTasks - 1 else i
        modifies tasks
        invariant forall j :: 0 <= j < tasks.Length ==>
                    tasks[j] == if j == i && i < taskIndex then old(tasks[i + 1]) else old(tasks[j])
      {
        tasks[i] := tasks[i + 1];
        taskIndex := taskIndex + 1;
      }
      numTasks := numTasks - 1;
    }

    /** sort_tasks_by_priority: sorts the live tasks with compare_task_priority, in place. */
    method SortByPriority()
      requires Valid()
      modifies tasks
      ensures Valid()
      ensures SortedByPriority(Live())
      ensures multiset(Live()) == multiset(old(Live()))
      ensures forall j :: numTasks <= j < tasks.Length ==> tasks[j] == old(tasks[j])
    {
      for i := 0 to numTasks
        invariant forall k, l :: 0 <= k < l < i ==> Rank(tasks[k].priority) >= Rank(tasks[l].priority)
        invariant multiset(tasks[..]) == multiset(old(tasks[..]))
        invariant forall j :: numTasks <= j < tasks.Length ==> tasks[j] == old(tasks[j])
      {
        InsertAt(i);
      }
      LiveMultisetFromWhole(old(tasks[..]), tasks[..], numTasks);
    }

    /** `tasks[num_tasks++] = new_task`. */
    method Append(t: Task)
      requires Valid() && numTasks < Capacity
      modifies this`numTasks, tasks
      ensures Valid()
      ensures numTasks == old(numTasks) + 1
      ensures Live() == old(Live()) + [t]
      ensures forall j :: numTasks <= j < tasks.Length ==> tasks[j] == old(tasks[j])
    {
      tasks[numTasks] := t;
      numTasks := numTasks + 1;
    }

    /** One pass of insertion: moves task i left past the tasks of lower priority, so that
        the sorted prefix tasks[0 .. i) grows to tasks[0 .. i]. */
    method InsertAt(i: nat)
      requires Valid() && i < numTasks
      requires forall k, l :: 0 <= k < l < i ==> Rank(tasks[k].priority) >= Rank(tasks[l].priority)
      modifies tasks
      ensures Valid()
      ensures forall k, l :: 0 <= k < l <= i ==> Rank(tasks[k].priority) >= Rank(tasks[l].priority)
      ensures multiset(tasks[..]) == multiset(old(tasks[..]))
      ensures forall j :: i < j < tasks.Length ==> tasks[j] == old(tasks[j])
    {
      var j := i;
      while j > 0 && ComparePriority(tasks[j - 1], tasks[j]) > 0
        invariant 0 <= j <= i
        invariant forall k, l :: 0 <= k < l <= i && k != j && l != j ==>
                    Rank(tasks[k].priority) >= Rank(tasks[l].priority)
        invariant forall l :: j < l <= i ==> Rank(tasks[j].priority) > Rank(tasks[l].priority)
        invariant multiset(tasks[..]) == multiset(old(tasks[..]))
        invariant forall k :: i < k < tasks.Length ==> tasks[k] == old(tasks[k])
      {
        SwapAdjacent(j);
        j := j - 1;
      }
    }

    /** Swaps the live tasks at j - 1 and j. */
    method SwapAdjacent(j: nat)
      requires Valid() && 0 < j < numTasks
      modifies tasks
      ensures Valid()
      ensures tasks[j - 1] == old(tasks[j]) && tasks[j] == old(tasks[j - 1])
      ensures forall k :: 0 <= k < tasks.Length && k != j - 1 && k != j ==> tasks[k] == old(tasks[k])
      ensures multiset(tasks[..]) == multiset(old(tasks[..]))
    {
      tasks[j - 1], tasks[j] := tasks[j], tasks[j - 1];
    }

    /** The Add button or the Enter key on the form. The form is drawn only on the
        new-task tab, so on the dashboard neither does anything. On the form, when it is
        valid, the task is appended, the buffer cleared, the dropdown reset, the list
        re-sorted and the dashboard shown; otherwise nothing changes. */
    method Submit(addClicked: bool, enterPressed: bool, date: string) returns (added: bool)
      requires Valid()
      requires currentTab == NewTask && (addClicked || enterPressed) && ValidTask(input, selectedPriority)
               ==> numTasks < Capacity
      modifies this, tasks
      ensures Valid() && tasks == old(tasks)
      ensures added == (old(currentTab) == NewTask && (addClicked || enterPressed)
                        && ValidTask(old(input), old(selectedPriority)))
      ensures !added ==> unchanged(this) && unchanged(tasks)
      ensures added ==>
                && numTasks == old(numTasks) + 1
                && multiset(Live()) ==
                   multiset(old(Live())) + multiset{Task(false, old(input), date, PriorityOfIndex(old(selectedPriority)))}
                && SortedByPriority(Live())
                && (forall j :: numTasks <= j < tasks.Length ==> tasks[j] == old(tasks[j]))
                && input == [] && selectedPriority == NoPriority
                && currentTab == Dashboard && currentFilter == old(currentFilter)
    {
      var validTask := ValidTask(input, selectedPriority);
      added := currentTab == NewTask && ((addClicked && validTask) || (enterPressed && validTask));
      if added {
        var newTask := Task(false, input, date, PriorityOfIndex(selectedPriority));
        Append(newTask);
        ghost var appended := Live();
        assert multiset(appended) == multiset(old(Live())) + multiset{newTask};
        input := [];
        selectedPriority := NoPriority;
        SortByPriority();
        currentTab := Dashboard;
      }
    }
  }

  /** When two arrays agree from n on and hold the same multiset, so do their first n slots. */
  lemma LiveMultisetFromWhole(before: seq<Task>, after: seq<Task>, n: nat)
    requires n <= |before| == |after|
    requires multiset(after) == multiset(before)
    requires forall j :: n <= j < |after| ==> after[j] == before[j]
    ensures multiset(after[..n]) == multiset(before[..n])
  {
    assert before == before[..n] + before[n..];
    assert after == after[..n] + after[n..];
    assert after[n..] == before[n..];
    assert multiset(after[..n]) == multiset(after) - multiset(after[n..]);
    assert multiset(before[..n]) == multiset(before) - multiset(before[n..]);
  }
}
