# todoc task list, modelled in Dafny

The to-do application in `todo.c` draws its window with an immediate-mode GUI
toolkit. Under the drawing code sits one small store: a fixed array of 1024 task
slots with a counter. Each task has a completion flag, a description, a date and a
priority of LOW, MEDIUM or HIGH. The store has these operations:

- the form appends a task when it is valid, then sorts the list by descending priority with `qsort`;
- the trash button of a row is meant to delete that task by shifting later tasks left.
  The loop as written does not do this (see Findings);
- a click on the priority badge steps the priority LOW → MEDIUM → HIGH → LOW;
- the checkbox flips the completion flag;
- the filter tabs (all / in progress / completed) choose which rows are drawn, and
  "There is no tasks here" is drawn when no row is;
- a two-tab header switches between the dashboard and the new-task form.

The project has two modules:

- `task_list.dfy`, module `TaskList`: the value side. It holds the `Priority`, `Filter` and
  `Task` types, the comparator, the priority cycle and the filter test. It also holds
  the sequence-level specifications the store is proved against (`Visible`, `Removed`,
  `RemovedAsWritten`, `SortedByPriority`) and the lemmas about them.
- `todo_app.dfy`, module `TodoApp`: the state side. Class `AppState` holds the C globals:
  `tasks` (an `array<Task>` of length 1024), `numTasks`, `currentFilter`, `currentTab`,
  the text of the input buffer, and the static `selected_priority` of the form. There is
  one method for each event the render functions react to, plus helper methods for the
  steps of adding a task (`Append`, `SortByPriority`, `InsertAt`, `SwapAdjacent`).
  `Valid()` keeps the counter within the array, the text NUL-free and shorter than 512
  characters, and the chosen priority in -1..2.
  `Live()` is `tasks[0 .. numTasks)`.

The date string comes from a shell script through `popen`. Here it is a parameter of
`Submit`. Each click is one method call. `TypeDescription` stands for the whole text
typed into the field, which is many key presses.

What the model promises, and under what conditions:

- `qsort` is not stable. So `SortByPriority` and `Submit` promise only a sorted
  permutation of the live tasks, and nothing about the order of tasks with equal priority.
- Remove, toggle and cycle run inside the row loop, after the filter's `continue`s, and
  the rows are drawn on the dashboard only. So the index is always a live, drawn one: the
  model requires `i < numTasks`, the dashboard tab and a task the current filter admits.
- Each widget exists on one tab only. The filter buttons are drawn on the dashboard; the
  input field, the dropdown and the Add button are drawn on the form. An event for a widget
  that is not drawn changes nothing.

## Model

| member | source | states |
|---|---|---|
| `TaskList.Rank` | todo.c:26-30 | the enumerator values: LOW is 0, MEDIUM 1, HIGH 2, all below 3 |
| `TaskList.PriorityOfIndex` | todo.c:454 | the cast `(Priority) selected_priority` gives the priority whose enumerator value is the index |
| `TaskList.CyclePriority` | todo.c:248-253 | a badge click gives the priority whose value is the old value plus one, modulo 3 |
| `TaskList.CyclePrioritySteps` | todo.c:248-253 | LOW goes to MEDIUM, MEDIUM to HIGH, HIGH back to LOW |
| `TaskList.CyclePriorityPeriodThree` | todo.c:248-253 | three clicks restore the priority; one click always changes it |
| `TaskList.ComparePriority` | todo.c:352-359 | negative exactly when the first task has the higher priority, zero exactly when the priorities are equal, within -2..2 |
| `TaskList.ComparePriorityIsTotalPreorder` | todo.c:352-359 | the comparator is antisymmetric, reflexive and transitive, so `qsort` may use it |
| `TaskList.SortedByPriorityMeansNonIncreasing` | todo.c:352-365 | ordered by the comparator is the same as priorities non-increasing along the list |
| `TaskList.FilterOfIndex` | todo.c:186-197 | filter button 0 is ALL, 1 IN_PROGRESS, 2 COMPLETED |
| `TaskList.Shown` | todo.c:230-233 | ALL admits every task, IN_PROGRESS exactly the unfinished ones, COMPLETED exactly the finished ones |
| `TaskList.Visible` | todo.c:227-235 | the rows drawn under a filter are never more than the tasks |
| `TaskList.VisibleMembers` | todo.c:227-235 | a task is drawn under a filter exactly when it is live and the filter admits it |
| `TaskList.VisibleAppend` | todo.c:227-235 | the view of a concatenation is the concatenation of the views |
| `TaskList.VisibleAll` | todo.c:230-233 | the ALL view is the whole list, in order |
| `TaskList.VisibleSplit` | todo.c:230-233 | the IN_PROGRESS and COMPLETED views together hold as many rows as there are tasks |
| `TaskList.VisibleKeepsSorted` | todo.c:227-235 | a view of a list sorted by priority is itself sorted: filtering does not reorder |
| `TaskList.VisiblePermutation` | todo.c:364 | reordering the list, as the sort does, leaves every view with the same tasks and the same count |
| `TaskList.ToggleMovesBetweenViews` | todo.c:309 | flipping one task's flag moves exactly that task between the IN_PROGRESS and COMPLETED counts; the ALL count stays |
| `TaskList.Removed` | todo.c:288-294 | intended deletion: one task fewer, tasks before i unchanged, each task from i on is the old task one slot later |
| `TaskList.RemovedMultiset` | todo.c:288-294 | intended deletion takes out exactly the targeted task |
| `TaskList.RemovedKeepsSorted` | todo.c:288-294 | intended deletion keeps a sorted list sorted |
| `TaskList.RemovedAsWritten` | todo.c:291-293 | deletion as written: one task fewer, every slot other than i unchanged, slot i takes the task after it |
| `TaskList.RemovedAsWrittenAgreesIff` | todo.c:291-293 | on pairwise different task values, the loop as written agrees with the intended shift exactly when i is one of the last two slots |
| `TaskList.RemovedAsWrittenLosesLast` | todo.c:291-293 | deleting an earlier task as written loses the last task and keeps the task after i twice |
| `TaskList.RemovedAsWrittenExample` | todo.c:291-293 | deleting the first of [a, b, c] as written gives [b, b] where [b, c] is meant |
| `TodoApp.ValidTask` | todo.c:431 | the Add guard holds exactly when some text is typed and one of the three dropdown priorities is chosen |
| `TodoApp.AppState.constructor` | todo.c:38-52 | no live tasks, filter ALL, tab DASHBOARD, empty input, no priority chosen |
| `TodoApp.AppState.ClickNewTask` | todo.c:144-145 | "New task" on the dashboard opens the form; on the form it changes nothing |
| `TodoApp.AppState.ClickBack` | todo.c:152-157 | the back button on the form returns to the dashboard; on the dashboard it changes nothing |
| `TodoApp.AppState.ClickFilter` | todo.c:186-197 | on the dashboard, clicking filter button k sets the current filter to k and changes nothing else; on the form nothing changes |
| `TodoApp.AppState.TypeDescription` | todo.c:396 | on the form, the input field stores the typed text, which holds no NUL and has fewer than 512 characters; on the dashboard nothing changes |
| `TodoApp.AppState.PickPriority` | todo.c:425 | on the form, the dropdown stores the index of the picked item, 0..2; on the dashboard nothing changes |
| `TodoApp.AppState.RenderTasks` | todo.c:224-335 | changes no state; the rows are exactly the admitted live tasks in list order; the count is their number; the empty message shows exactly when it is 0 |
| `TodoApp.AppState.ClickPriority` | todo.c:242-253 | for a drawn task i, only task i changes, and only its priority, which advances one step of the cycle |
| `TodoApp.AppState.ToggleCompleted` | todo.c:309 | for a drawn task i, only task i changes, and only its completed flag, which flips |
| `TodoApp.AppState.Remove` | todo.c:288-294 | for a drawn task i, the count drops by one; the live tasks are `Removed(old live, i)`; each slot is given in terms of the old array |
| `TaskList.TaskIndexAfter` | todo.c:291 | the `uint8_t` loop counter after k passes: the start truncated to 8 bits plus k, modulo 256 |
| `TaskList.TaskIndexLoopNeverExits` | todo.c:291 | with 257 or more tasks, the guard `task_index < num_tasks - 1` holds after every number of passes |
| `TodoApp.AppState.RemoveAsWritten` | todo.c:291-293 | for a drawn task i, the count drops by one; only slot i changes, to the old task i + 1, and only when i is not the last task |
| `TodoApp.AppState.SortByPriority` | todo.c:361-365 | the live tasks come out sorted by the comparator and are a permutation of the old ones; slots from `numTasks` on are untouched |
| `TodoApp.AppState.Append` | todo.c:462 | `tasks[num_tasks++] = new_task`: the live tasks gain the new task at the end; slots after it are untouched |
| `TodoApp.AppState.Submit` | todo.c:430-472 | a task is added exactly when, on the new-task form, Add or Enter is pressed, the text is non-empty and a priority is chosen. Otherwise nothing changes. When added: the count grows by one; the live tasks are the old ones plus an unfinished task with the typed text, the given date and the chosen priority, sorted by priority; the input is cleared; no priority is chosen; the dashboard is shown |

## Left out

- Drawing: every `lf_*` call, style properties, colours, fonts, textures and the floating-point layout arithmetic. A hover-plus-mouse-down on a widget becomes one method call.
- The GLFW/OpenGL window set-up and the frame loop of `main` (todo.c:479-555).
- `get_cmd_output` (todo.c:54-88), which runs a shell script via `popen`. The date it returns is the `date` parameter of `Submit`.
- The raw memory handling: `malloc`, `strcpy` and `memset`. The description is a copied string. Line 458 allocates `strlen` bytes with no room for the terminator. That is a C memory error and outside this model.
- Tasks are values in the array, not pointers to separately allocated records. So aliasing is not captured: after `RemoveAsWritten` two slots of the C array point to one record, and a later toggle of one would show in both.
- The internals of `qsort`. `SortByPriority` is an insertion sort using the same comparator.
- `TodoApp.AppState.SortByPriority`: promises a sorted permutation and not stability, because `qsort` is not stable.
- The per-frame artefact that after a deletion the row loop's `++i` skips, for that frame, the task shifted into slot i.
- `TodoApp.AppState.RemoveAsWritten`: requires `numTasks <= 256`. The loop counter is a `uint8_t`. With 257 or more tasks it can never reach `num_tasks - 1`, and the loop would run forever (see Findings).
- `TodoApp.AppState.TypeDescription`: the buffer is measured in characters, not bytes. A description with multi-byte UTF-8 characters may fit the model's 511-character bound but not the 512-byte C buffer.
- `TodoApp.AppState.Remove`: uses an unbounded index where the source's loop counter is a `uint8_t`. So it does not model the non-termination described for `RemoveAsWritten` when there are more than 256 tasks.
- `TodoApp.AppState.Submit`: requires `numTasks < 1024` when a task is actually added, that is on the form with a valid entry. The source writes slot `num_tasks` with no capacity check, and the write past the array is undefined behaviour.
- todoc.c is not part of this model: it opens an empty window and has no task logic.

## Findings

| source | as written | input that shows it | evidently intended | confidence | as-written member | corrected member |
|---|---|---|---|---|---|---|
| todo.c:291-292 | the loop advances `task_index`, but every pass copies `tasks[i + 1]` into `tasks[i]` | three distinct tasks [a, b, c], deleting index 0, leaves [b, b]: c is lost and b is kept twice | `tasks[task_index] = tasks[task_index + 1]`, an order-preserving shift leaving [b, c] | high; not executed | `TaskList.RemovedAsWrittenExample` (also `TaskList.RemovedAsWrittenLosesLast`, `TodoApp.AppState.RemoveAsWritten`) | `TodoApp.AppState.Remove` with `TaskList.Removed`, `TaskList.RemovedMultiset` |
| todo.c:291 | the loop counter `task_index` is a `uint8_t`, compared against `num_tasks - 1`, an `int` after integer promotion | 257 tasks, deleting any one: the counter wraps from 255 to 0 and never reaches 256, so the loop never ends | a counter as wide as `num_tasks`, so that the loop stops after `num_tasks - 1 - i` passes | high; not executed | `TaskList.TaskIndexLoopNeverExits` with `TaskList.TaskIndexAfter` | `TodoApp.AppState.Remove`, whose counter is unbounded and whose loop terminates for every `numTasks` up to 1024 |
