# Smart Scheduler ordering engine, in Dafny

This project models the ordering engine of the Smart Scheduler API,
`TopologicalSort.SortTasks`. Given a list of tasks, each with a title, an estimated number of
hours, a due date and the titles of the tasks it depends on, the engine returns the titles in an
order that puts every task after its dependencies. It is a level-by-level Kahn sort:

- It builds an adjacency list and an in-degree for every title.
- It stops at the first dependency that names no task, with the message
  `Task '<task>' depends on unknown task '<dependency>'.`
- It queues the tasks with in-degree zero, in input order.
- It repeatedly drains the whole queue into one batch and sorts the batch by due date, then by
  estimated hours. It appends the batch to the result and lowers the in-degrees of the tasks
  that depend on each placed task. Tasks whose in-degree reaches zero are queued for the next
  batch.
- When the result is shorter than the input, it reports `Cyclic dependency detected.`

The Dafny follows the C# method step by step, as imperative code over local state:

- The dictionaries `graph`, `inDegree` and `taskMap` become `map`s.
- The queue and the result list become `seq`s.
- Each step of the method is a `method`. The source's loops keep their loops, with invariants:
  - `InitGraph`, `AddTaskEdges` and `AddEdges` build the adjacency lists and in-degrees.
  - `SeedQueue` fills the first queue.
  - `DrainQueue`, `ProcessBatch`, `ReleaseSuccessors` and `RunBatches` run the batches.
- The other methods have no loop of their own:
  - `PlaceTask` places one task.
  - `ReleaseEntry` walks one adjacency entry.
  - `RunRound` is one round of the outer loop.
  - `OrderTasks` and `SortTasks` chain the steps and perform the final check.
- A `null` result is `None`. The `out` error list is a returned sequence.

Each method is proved against specification functions in `DependencyGraph`. These describe the
dependency relation independently of the algorithm:

- `FirstUnknown`: the first unknown (task, dependency) pair.
- `Dependents`: the adjacency list of a title.
- `Pending`: the dependencies of a task not yet placed.
- `Ready`: the frontier of tasks whose dependencies are all placed.
- `Levels`: each batch is the sorted frontier left by the batches before it.
- `RespectsDependencies`: every task comes after its dependencies.
- `HasCycle`: a walk from task to dependency that returns to its start.

The task record follows `SmartSchedulerApi/Models.cs:3-9`. `TaskItem` has a title, integer
estimated hours, a due date and a dependency list that may repeat titles. The due date is an
integer key.

Module layout:

| file | module | contents |
|---|---|---|
| `tasks.dfy` | `Tasks` | the task record, titles, the title dictionary, the two messages |
| `seqs.dfy` | `Seqs` | elements, absence of repeats, concatenation of batches |
| `batch_order.dfy` | `BatchOrder` | the (due date, hours) order and the batch sort |
| `dependency_graph.dfy` | `DependencyGraph` | the specification functions and their lemmas |
| `topological_sort.dfy` | `TopologicalSort` | the engine itself |
| `scenarios.dfy` | `Scenarios` | small inputs whose outcome the contracts pin down |

## Model

All source paths below are in `SmartSchedulerApi/Services/TopologicalSort.cs` unless another file is named.

| member | source | states |
|---|---|---|
| TopologicalSort.SortTasks | SmartSchedulerApi/Services/TopologicalSort.cs:9-82 | An order is returned exactly when `errors` is empty, and a failure carries exactly one message. If some dependency names no task, the message names the first such (task, dependency) pair in input and then list order. Otherwise the order is missing exactly when the dependencies form a cycle, and the message is then the cycle message. A returned order has one entry per task and is a permutation of the titles. It puts every task after all its dependencies and is the concatenation of the level-by-level batches. |
| TopologicalSort.InitGraph | SmartSchedulerApi/Services/TopologicalSort.cs:16-20 | Every title gets an empty adjacency list and in-degree 0, and nothing else gets an entry. |
| TopologicalSort.AddTaskEdges | SmartSchedulerApi/Services/TopologicalSort.cs:24-33 | Reports the position of the first dependency of one task that is not a known title. Otherwise the task's title is appended to the list of each dependency, once per listing, and its in-degree grows by the length of its dependency list (`TaskRecorded`). |
| TopologicalSort.AddEdges | SmartSchedulerApi/Services/TopologicalSort.cs:22-34 | Reports exactly `FirstUnknown`, the first unknown pair. Otherwise the list of each title is `Dependents`: every task listing it, in input order, repeats counted. The in-degree of each task is the length of its dependency list. |
| TopologicalSort.SeedQueue | SmartSchedulerApi/Services/TopologicalSort.cs:36-43 | The queue is `ZeroInDegreeTitles`: the titles whose in-degree is 0, in input order. It holds exactly those titles, each once. |
| TopologicalSort.ReleaseSuccessors | SmartSchedulerApi/Services/TopologicalSort.cs:64-71 | Each in-degree drops by the number of times the adjacency list names that task. The queue gains exactly the tasks whose in-degree reaches 0, each once, after what it held. They are appended in `ReleaseOrder`: the order in which the entries bring their in-degree to 0. |
| TopologicalSort.ReleaseEntry | SmartSchedulerApi/Services/TopologicalSort.cs:65-70 | Walking one adjacency entry advances the walk: every in-degree count, the set of released tasks and their release order stay exact. |
| TopologicalSort.ReleaseOrderStep | SmartSchedulerApi/Services/TopologicalSort.cs:66-70 | One entry appends its task to the release order exactly when it brings that task's in-degree to 0. |
| TopologicalSort.PlaceTask | SmartSchedulerApi/Services/TopologicalSort.cs:62-71 | The result grows by the task. The in-degrees stay equal to the not-yet-placed dependencies. The queue holds, each once, exactly the tasks released since the batch began. |
| TopologicalSort.ProcessBatch | SmartSchedulerApi/Services/TopologicalSort.cs:60-72 | The result grows by the batch, and the in-degree invariant is kept. The queue holds, each once, exactly the tasks that waited for something before the batch and for nothing after it. |
| TopologicalSort.DrainQueue | SmartSchedulerApi/Services/TopologicalSort.cs:49-53 | The batch is the whole queue in queue order, and the queue is left empty. |
| TopologicalSort.RunRound | SmartSchedulerApi/Services/TopologicalSort.cs:46-72 | The batch is the frontier left by the result so far, without repeats and sorted by (due date, hours). The round keeps the loop invariant `RoundState`: levels, in-degrees, and the queue as the next frontier. Fewer tasks remain unplaced. |
| TopologicalSort.RunBatches | SmartSchedulerApi/Services/TopologicalSort.cs:36-73 | The batches form a level-by-level schedule whose concatenation is the result. When the loop stops, no unplaced task is ready. |
| TopologicalSort.OrderTasks | SmartSchedulerApi/Services/TopologicalSort.cs:36-81 | With every dependency known, the cycle error is reported exactly when the dependencies have a cycle. Otherwise the order is a permutation of the titles that respects dependencies. |
| TopologicalSort.ReleaseProgressStep | SmartSchedulerApi/Services/TopologicalSort.cs:66-70 | Decrementing one entry and queueing the task if it hits 0 keeps the count of every in-degree and the set of released tasks exact. |
| TopologicalSort.EdgesProgressStep | SmartSchedulerApi/Services/TopologicalSort.cs:31-32 | Recording one more known dependency keeps the partial adjacency lists and in-degree exact. |
| TopologicalSort.EdgesBuiltStep | SmartSchedulerApi/Services/TopologicalSort.cs:22-34 | Recording one more task keeps the adjacency lists equal to the dependents among the recorded tasks, and keeps in-degrees equal to list lengths. |
| TopologicalSort.EdgesBuiltAll | SmartSchedulerApi/Services/TopologicalSort.cs:22-34 | Once every task is recorded, no dependency is unknown and the lists and in-degrees are complete. |
| TopologicalSort.NeighborsBounded | SmartSchedulerApi/Services/TopologicalSort.cs:64-66 | Before a task is placed, every dependent still waits for it at least as often as the adjacency list names the dependent, so no in-degree goes negative. |
| TopologicalSort.ReleasedDegrees | SmartSchedulerApi/Services/TopologicalSort.cs:64-66 | After the decrements, each in-degree equals the dependencies not placed, counted with the new task placed. |
| TopologicalSort.ReleasedQueue | SmartSchedulerApi/Services/TopologicalSort.cs:67-70 | The queue after placing a task holds exactly the tasks released since the batch began, each once. |
| TopologicalSort.BuiltGraphMatches | SmartSchedulerApi/Services/TopologicalSort.cs:31 | The built adjacency list of `d` names each task exactly as often as the task lists `d`, and no other title. |
| TopologicalSort.BuiltInDegreeMatches | SmartSchedulerApi/Services/TopologicalSort.cs:32 | The built in-degrees count every dependency as outstanding. |
| TopologicalSort.SeedIsFirstFrontier | SmartSchedulerApi/Services/TopologicalSort.cs:36-43 | The titles queued first are exactly the tasks with no outstanding dependency. |
| TopologicalSort.TitlesPermutation | SmartSchedulerApi/Services/TopologicalSort.cs:75-81 | A result without repeats that holds exactly the titles is a permutation of the input titles. |
| BatchOrder.SortBatch | SmartSchedulerApi/Services/TopologicalSort.cs:55-58 | The sorted batch is a permutation of the batch, in non-decreasing due date, with non-decreasing hours among equal due dates. |
| BatchOrder.Insert | SmartSchedulerApi/Services/TopologicalSort.cs:55-58 | Inserting into a sorted batch adds exactly one occurrence of the title and keeps the batch sorted. |
| DependencyGraph.FirstUnknownDependency | SmartSchedulerApi/Services/TopologicalSort.cs:24-30 | The reported position holds an unknown title and every earlier entry is known. With no report, every entry is known. |
| DependencyGraph.FirstUnknown | SmartSchedulerApi/Services/TopologicalSort.cs:22-30 | The reported pair holds an unknown title. Every entry of every earlier task, and every earlier entry of the same task, is known. With no report, every entry is known. |
| DependencyGraph.FirstUnknownAt | SmartSchedulerApi/Services/TopologicalSort.cs:22-30 | The pair before which everything is known is the pair reported. |
| DependencyGraph.FirstUnknownDependencyAt | SmartSchedulerApi/Services/TopologicalSort.cs:24-30 | The entry before which everything is known is the entry reported. |
| DependencyGraph.FirstUnknownNone | SmartSchedulerApi/Services/TopologicalSort.cs:22-34 | When every entry is known, nothing is reported. |
| DependencyGraph.NoUnknownIsAllKnown | SmartSchedulerApi/Services/TopologicalSort.cs:26 | No unknown pair is found exactly when every dependency of every task names a task. |
| DependencyGraph.ListingsCount | SmartSchedulerApi/Services/TopologicalSort.cs:31 | One task adds its own title to the list of `d` as often as it lists `d`, and adds nothing else. |
| DependencyGraph.DependentsCount | SmartSchedulerApi/Services/TopologicalSort.cs:31 | The list of `d` names each task exactly as often as the task lists `d`. |
| DependencyGraph.DependentsOnlyTasks | SmartSchedulerApi/Services/TopologicalSort.cs:31 | The list of `d` names no title that is not a task. |
| DependencyGraph.PendingInitially | SmartSchedulerApi/Services/TopologicalSort.cs:32 | Before anything is placed, every entry of a dependency list, repeats counted, is outstanding. |
| DependencyGraph.PendingZero | SmartSchedulerApi/Services/TopologicalSort.cs:67 | Nothing is outstanding exactly when every dependency is placed. |
| DependencyGraph.PendingRelease | SmartSchedulerApi/Services/TopologicalSort.cs:66 | Placing a task lowers the outstanding count by the number of times the list names it. |
| DependencyGraph.PendingMonotone | SmartSchedulerApi/Services/TopologicalSort.cs:66 | Placing more tasks never raises an outstanding count. |
| DependencyGraph.ReleasedStep | SmartSchedulerApi/Services/TopologicalSort.cs:66-70 | Placing one more task releases exactly the tasks that list it and were waiting only for it, never one already released. |
| DependencyGraph.ReleasedIsNextFrontier | SmartSchedulerApi/Services/TopologicalSort.cs:60-72 | Placing a whole frontier releases exactly the next frontier, so a task freed by a batch joins the next batch. |
| DependencyGraph.FirstFrontier | SmartSchedulerApi/Services/TopologicalSort.cs:36-43 | The first frontier is exactly the tasks with an empty dependency list. |
| DependencyGraph.FirstBatch | SmartSchedulerApi/Services/TopologicalSort.cs:36-43 | The first batch of a schedule holds exactly the tasks with no dependencies. |
| DependencyGraph.SortedFrontier | SmartSchedulerApi/Services/TopologicalSort.cs:49-58 | The drained and sorted queue is the frontier, each task once, with no task already placed. |
| DependencyGraph.FrontierShrinks | SmartSchedulerApi/Services/TopologicalSort.cs:46-73 | Placing a frontier leaves fewer tasks unplaced, so the outer loop terminates. |
| DependencyGraph.NextLevel | SmartSchedulerApi/Services/TopologicalSort.cs:46-73 | Placing the frontier extends the schedule by one level. The tasks it releases are exactly the next frontier. |
| DependencyGraph.QueueIsNextFrontier | SmartSchedulerApi/Services/TopologicalSort.cs:60-72 | A queue holding exactly the tasks released by the frontier holds exactly the next frontier. |
| DependencyGraph.LevelsAt | SmartSchedulerApi/Services/TopologicalSort.cs:46-73 | Every batch of a schedule is the sorted frontier left by the batches before it. |
| DependencyGraph.LevelsSchedule | SmartSchedulerApi/Services/TopologicalSort.cs:60-72 | A schedule places each task at most once and only tasks of the request. It puts every task after all its dependencies. |
| DependencyGraph.FrontierIndependent | SmartSchedulerApi/Services/TopologicalSort.cs:66-70 | No task of a batch depends on another task of the same batch. |
| DependencyGraph.WaitsForPreviousBatch | SmartSchedulerApi/Services/TopologicalSort.cs:66-70 | Every task of a later batch depends on some task of the batch just before it. |
| DependencyGraph.SelfDependencyIsCycle | SmartSchedulerApi/Services/TopologicalSort.cs:31-32 | A task that lists itself forms a cycle. |
| DependencyGraph.ScheduleIsAcyclic | SmartSchedulerApi/Services/TopologicalSort.cs:75-81 | An order of all tasks that respects dependencies rules out every cycle. |
| DependencyGraph.StuckIsCyclic | SmartSchedulerApi/Services/TopologicalSort.cs:75-79 | If some task is unplaced, all dependencies are known and nothing is ready, then the dependencies have a cycle. |
| DependencyGraph.ScheduleOutcome | SmartSchedulerApi/Services/TopologicalSort.cs:75-81 | When no task is ready, the schedule holds as many titles as there are tasks exactly when there is no cycle. It then holds every title. |
| Tasks.TaskMap | SmartSchedulerApi/Services/TopologicalSort.cs:14 | The dictionary's keys are the titles, and each title maps to its task. |
| Tasks.TitlesCardinality | SmartSchedulerApi/Services/TopologicalSort.cs:75 | With distinct titles there are as many titles as tasks, so the final count compares like with like. |
| Scenarios.UnknownScenario | SmartSchedulerApi/Services/TopologicalSort.cs:26-29 | A single task that lists a missing title is reported at pair (0, 0). |
| Scenarios.TwoCycleScenario | SmartSchedulerApi/Services/TopologicalSort.cs:75-79 | Two tasks that list each other have no unknown dependency but form a cycle, so the sort reports the cycle. |
| Scenarios.ChainScenario | SmartSchedulerApi/Services/TopologicalSort.cs:60-72 | For a chain `c` needs `b` needs `a`, the only order that is a permutation and respects dependencies is `a, b, c`, whatever the due dates. |
| Scenarios.DiamondScenario | SmartSchedulerApi/Services/TopologicalSort.cs:60-72 | For a diamond, any order that respects dependencies starts with the common prerequisite and ends with the task that needs both branches. |
| Scenarios.DiamondLevels | SmartSchedulerApi/Services/TopologicalSort.cs:46-72 | A level-by-level schedule of the diamond is the common prerequisite, then the two branches by due date, then the task that needs both. |
| Scenarios.DiamondShapedLevels | SmartSchedulerApi/Services/TopologicalSort.cs:46-72 | When the frontiers are one task, then two, then one, a schedule of the four tasks lists them frontier by frontier, with the middle two by key. |
| Scenarios.FrontierOfTwo | SmartSchedulerApi/Services/TopologicalSort.cs:55-58 | A batch of two ready tasks lists them in (due date, hours) order. |
| Scenarios.IndependentScenario | SmartSchedulerApi/Services/TopologicalSort.cs:55-58 | Three tasks without dependencies form one batch and come out by due date, whatever their input order. |

## Left out

- The HTTP controller (`SmartSchedulerApi/Controllers/ScheduleController.cs`) and the web frontend are not part of this model. The controller only wraps the result in an HTTP response.
- The controller rejects an empty task list before calling the engine. The model does not require a non-empty list: on an empty list `SortTasks` returns an empty order and no error.
- `ToDictionary` throws on two tasks with the same title. The model requires distinct titles (`DistinctTitles`) instead of modelling the exception.
- BatchOrder.SortBatch: the LINQ `OrderBy`/`ThenBy` sort is stable, so titles with equal due date and hours keep their queue order. The model promises only sortedness and permutation, because the stability guarantee belongs to the library. So the queue order that `SeedQueue` and `ReleaseSuccessors` promise is not carried through to the promised order of titles with equal keys.
- The due date is an integer key, not a `DateTime`; only its order matters to the engine.
- Estimated hours and in-degrees are unbounded integers. A 32-bit in-degree could only overflow with more than 2^31 dependency entries on one task.
- Null task lists, null titles and null dependency lists are not modelled; such inputs make the C# code throw.
- The `batches` result of `SortTasks`, `OrderTasks` and `RunBatches` is ghost. It records the levels for the proofs and has no counterpart in the C# code.
