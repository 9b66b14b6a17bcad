/** The ordering engine: a level-by-level Kahn topological sort of a task list. Tasks that
    become eligible together form one batch, ordered by due date and then estimated hours;
    a dependency on an unknown title and a dependency cycle are reported as errors. */
module TopologicalSort {
  import opened Tasks
  import opened Seqs
  import opened BatchOrder
  import opened DependencyGraph

  /** Gives every task an empty adjacency list and an in-degree of zero. */
  method InitGraph(tasks: seq<TaskItem>) returns (graph: map<string, seq<string>>, inDegree: map<string, int>)
    ensures graph.Keys == Titles(tasks) && inDegree.Keys == Titles(tasks)
    ensures forall t :: t in graph ==> graph[t] == []
    ensures forall t :: t in inDegree ==> inDegree[t] == 0
  {
    graph, inDegree := map[], map[];
    var i := 0;
    while i < |tasks|
      invariant 0 <= i <= |tasks|
      invariant graph.Keys == Titles(tasks[..i]) && inDegree.Keys == Titles(tasks[..i])
      invariant forall t :: t in graph ==> graph[t] == []
      invariant forall t :: t in inDegree ==> inDegree[t] == 0
    {
      graph := graph[tasks[i].title := []];
      inDegree := inDegree[tasks[i].title := 0];
      TitlesSnoc(tasks[..i + 1]);
      assert tasks[..i + 1][..i] == tasks[..i];
      i := i + 1;
    }
    assert tasks[..i] == tasks;
  }

  /** The adjacency lists and in-degrees after recording every dependency of `title`: `title`
      is appended to the list of each dependency, once per listing, and the in-degree of `title`
      has grown by the number of its dependencies. */
  ghost predicate TaskRecorded(title: string, deps: seq<string>,
                               graph0: map<string, seq<string>>, inDegree0: map<string, int>,
                               graph: map<string, seq<string>>, inDegree: map<string, int>)
  {
    ListedAfter(graph0, graph, title, deps) &&
    title in inDegree0 && inDegree == inDegree0[title := inDegree0[title] + |deps|]
  }

  /** The state after walking the first `j` dependencies of `title`: all of them are known,
      each has `title` appended to its adjacency list, and the in-degree of `title` has grown
      by `j`. */
  ghost predicate EdgesProgress(title: string, deps: seq<string>, known: set<string>, j: nat,
                                graph0: map<string, seq<string>>, inDegree0: map<string, int>,
                                graph: map<string, seq<string>>, inDegree: map<string, int>)
  {
    j <= |deps| && (forall k :: 0 <= k < j ==> deps[k] in known) &&
    ListedAfter(graph0, graph, title, deps[..j]) &&
    title in inDegree0 && inDegree == inDegree0[title := inDegree0[title] + j]
  }

  /** Recording one more known dependency advances the walk by one. */
  lemma EdgesProgressStep(title: string, deps: seq<string>, known: set<string>, j: nat,
                          graph0: map<string, seq<string>>, inDegree0: map<string, int>,
                          graph: map<string, seq<string>>, inDegree: map<string, int>)
    requires graph0.Keys == known
    requires EdgesProgress(title, deps, known, j, graph0, inDegree0, graph, inDegree)
    requires j < |deps| && deps[j] in known
    ensures deps[j] in graph && title in inDegree
    ensures EdgesProgress(title, deps, known, j + 1, graph0, inDegree0,
                          graph[deps[j] := graph[deps[j]] + [title]], inDegree[title := inDegree[title] + 1])
  {
    ListedAfterSnoc(graph0, graph, title, deps, j);
  }

  /** Walks the dependency list of one task, `title`, in order. Stops at the first dependency
      that is not a known title and reports its position; otherwise appends `title` to the
      adjacency list of each dependency and counts the dependency in the in-degree of `title`. */
  method AddTaskEdges(title: string, deps: seq<string>, known: set<string>,
                      graph0: map<string, seq<string>>, inDegree0: map<string, int>)
    returns (unknown: Option<nat>, graph: map<string, seq<string>>, inDegree: map<string, int>)
    requires title in known && graph0.Keys == known && inDegree0.Keys == known
    ensures unknown == FirstUnknownDependency(deps, known)
    ensures unknown.None? ==> TaskRecorded(title, deps, graph0, inDegree0, graph, inDegree)
  {
    graph, inDegree := graph0, inDegree0;
    assert deps[..0] == [];
    var j := 0;
    while j < |deps|
      invariant EdgesProgress(title, deps, known, j, graph0, inDegree0, graph, inDegree)
      decreases |deps| - j
    {
      var dependency := deps[j];
      if dependency !in known {
        unknown := Some(j);
        FirstUnknownDependencyAt(deps, known, j);
        return;
      }
      EdgesProgressStep(title, deps, known, j, graph0, inDegree0, graph, inDegree);
      graph := graph[dependency := graph[dependency] + [title]];
      inDegree := inDegree[title := inDegree[title] + 1];
      j := j + 1;
    }
    assert deps[..j] == deps;
    FirstUnknownNoneDependency(deps, known);
    unknown := None;
  }

  /** The state after recording the first `i` tasks: their dependencies are all known, every
      adjacency list holds the dependents among them, and each of them has its in-degree. */
  ghost predicate EdgesBuilt(tasks: seq<TaskItem>, known: set<string>, i: nat,
                             graph: map<string, seq<string>>, inDegree: map<string, int>)
  {
    i <= |tasks| && KnownBefore(tasks, known, i) &&
    graph.Keys == known && inDegree.Keys == known &&
    (forall d :: d in graph ==> graph[d] == Dependents(tasks[..i], d)) &&
    (forall k :: 0 <= k < |tasks| ==> tasks[k].title in known) &&
    forall k :: 0 <= k < |tasks| ==> inDegree[tasks[k].title] == if k < i then |tasks[k].dependencies| else 0
  }

  /** Once every task is recorded, no dependency is unknown and the adjacency lists and
      in-degrees are complete. */
  lemma EdgesBuiltAll(tasks: seq<TaskItem>, known: set<string>,
                      graph: map<string, seq<string>>, inDegree: map<string, int>)
    requires EdgesBuilt(tasks, known, |tasks|, graph, inDegree)
    ensures FirstUnknown(tasks, known) == None
    ensures graph.Keys == known && inDegree.Keys == known
    ensures forall d :: d in graph ==> graph[d] == Dependents(tasks, d)
    ensures forall i :: 0 <= i < |tasks| ==> inDegree[tasks[i].title] == |tasks[i].dependencies|
  {
    assert tasks[..|tasks|] == tasks;
    FirstUnknownNone(tasks, known);
  }

  /** Recording one more task whose dependencies are all known advances the walk by one. */
  lemma EdgesBuiltStep(tasks: seq<TaskItem>, known: set<string>, i: nat,
                       graph: map<string, seq<string>>, inDegree: map<string, int>,
                       graph': map<string, seq<string>>, inDegree': map<string, int>)
    requires DistinctTitles(tasks) && EdgesBuilt(tasks, known, i, graph, inDegree) && i < |tasks|
    requires FirstUnknownDependency(tasks[i].dependencies, known).None?
    requires TaskRecorded(tasks[i].title, tasks[i].dependencies, graph, inDegree, graph', inDegree')
    ensures EdgesBuilt(tasks, known, i + 1, graph', inDegree')
  {
    assert tasks[..i + 1][..i] == tasks[..i];
    forall k | 0 <= k < |tasks| && k != i ensures tasks[k].title != tasks[i].title { }
  }

  /** Walks every task in input order and records the edges of its dependencies. Stops at the
      first dependency that names no task and reports its (task, dependency) position. */
  method AddEdges(tasks: seq<TaskItem>, known: set<string>,
                  graph0: map<string, seq<string>>, inDegree0: map<string, int>)
    returns (unknown: Option<(nat, nat)>, graph: map<string, seq<string>>, inDegree: map<string, int>)
    requires DistinctTitles(tasks)
    requires forall i :: 0 <= i < |tasks| ==> tasks[i].title in known
    requires graph0.Keys == known && forall t :: t in graph0 ==> graph0[t] == []
    requires inDegree0.Keys == known && forall t :: t in inDegree0 ==> inDegree0[t] == 0
    ensures unknown == FirstUnknown(tasks, known)
    ensures unknown.None? ==> graph.Keys == known && inDegree.Keys == known
    ensures unknown.None? ==> forall d :: d in graph ==> graph[d] == Dependents(tasks, d)
    ensures unknown.None? ==> forall i :: 0 <= i < |tasks| ==> inDegree[tasks[i].title] == |tasks[i].dependencies|
  {
    graph, inDegree := graph0, inDegree0;
    var i := 0;
    while i < |tasks|
      invariant EdgesBuilt(tasks, known, i, graph, inDegree)
      decreases |tasks| - i
    {
      var task := tasks[i];
      var at;
      ghost var graphBefore, inDegreeBefore := graph, inDegree;
      at, graph, inDegree := AddTaskEdges(task.title, task.dependencies, known, graph, inDegree);
      if at.Some? {
        unknown := Some((i, at.value));
        FirstUnknownAt(tasks, known, i, at.value);
        return;
      }
      EdgesBuiltStep(tasks, known, i, graphBefore, inDegreeBefore, graph, inDegree);
      i := i + 1;
    }
    EdgesBuiltAll(tasks, known, graph, inDegree);
    unknown := None;
  }

  /** The titles whose in-degree is zero, in the order of the tasks. */
  function ZeroInDegreeTitles(tasks: seq<TaskItem>, inDegree: map<string, int>): seq<string>
  {
    if |tasks| == 0 then []
    else
      var n := |tasks| - 1;
      var title := tasks[n].title;
      ZeroInDegreeTitles(tasks[..n], inDegree) + (if title in inDegree && inDegree[title] == 0 then [title] else [])
  }

  /** Queues, in input order, every task whose in-degree is zero. */
  method SeedQueue(tasks: seq<TaskItem>, inDegree: map<string, int>) returns (queue: seq<string>)
    requires DistinctTitles(tasks)
    requires Titles(tasks) <= inDegree.Keys
    ensures queue == ZeroInDegreeTitles(tasks, inDegree)
    ensures NoDups(queue)
    ensures forall t :: t in queue <==> t in Titles(tasks) && inDegree[t] == 0
  {
    queue := [];
    var i := 0;
    while i < |tasks|
      invariant 0 <= i <= |tasks|
      invariant queue == ZeroInDegreeTitles(tasks[..i], inDegree)
      invariant NoDups(queue)
      invariant forall t :: t in queue <==> t in Titles(tasks[..i]) && inDegree[t] == 0
    {
      var title := tasks[i].title;
      TitlesSnoc(tasks[..i + 1]);
      assert tasks[..i + 1][..i] == tasks[..i];
      assert title !in Titles(tasks[..i]) by {
        forall k | 0 <= k < i ensures tasks[..i][k].title != title {
          assert tasks[..i][k] == tasks[k];
        }
      }
      if inDegree[title] == 0 {
        queue := queue + [title];
      }
      i := i + 1;
    }
    assert tasks[..i] == tasks;
  }

  /** The tasks released by walking the adjacency list `neighbors`, in the order their in-degree
      reaches zero: an entry releases its task when the entries up to it name the task as often
      as its in-degree. */
  function ReleaseOrder(neighbors: seq<string>, inDegree0: map<string, int>): seq<string>
  {
    if |neighbors| == 0 then []
    else
      var n := |neighbors| - 1;
      var t := neighbors[n];
      ReleaseOrder(neighbors[..n], inDegree0) + (if t in inDegree0 && inDegree0[t] == multiset(neighbors)[t] then [t] else [])
  }

  /** Walking one more entry appends its task to the release order exactly when the entry
      brings the task's in-degree, `before` ahead of the entry, down to zero. */
  lemma ReleaseOrderStep(neighbors: seq<string>, k: nat, inDegree0: map<string, int>, before: int,
                         released: seq<string>, released': seq<string>)
    requires k < |neighbors| && neighbors[k] in inDegree0
    requires before == inDegree0[neighbors[k]] - multiset(neighbors[..k])[neighbors[k]]
    requires released == ReleaseOrder(neighbors[..k], inDegree0)
    requires if before - 1 == 0 then released' == released + [neighbors[k]] else released' == released
    ensures released' == ReleaseOrder(neighbors[..k + 1], inDegree0)
  {
    assert neighbors[..k + 1][..k] == neighbors[..k];
    PrefixSnoc(neighbors, k);
  }

  /** The state after walking the first `k` adjacency entries: each counted entry has lowered
      the in-degree of its task once, and `released` lists, once each, the tasks whose in-degree
      reached zero, after the queue they were appended to. */
  ghost predicate ReleaseProgress(neighbors: seq<string>, k: nat, inDegree0: map<string, int>, queue0: seq<string>,
                                  inDegree: map<string, int>, queue: seq<string>, released: seq<string>)
  {
    k <= |neighbors| && inDegree.Keys == inDegree0.Keys &&
    (forall t :: t in inDegree ==> inDegree[t] == inDegree0[t] - multiset(neighbors[..k])[t]) &&
    queue == queue0 + released && NoDups(released) &&
    forall t :: t in released <==> t in neighbors[..k] && t in inDegree0 && inDegree0[t] == multiset(neighbors[..k])[t]
  }

  /** No prefix counts an entry more often than the whole sequence. */
  lemma PrefixCounts(neighbors: seq<string>, k: nat)
    requires k < |neighbors|
    ensures neighbors[..k + 1] == neighbors[..k] + [neighbors[k]]
    ensures multiset(neighbors[..k + 1])[neighbors[k]] <= multiset(neighbors)[neighbors[k]]
  {
    assert neighbors[..k + 1] == neighbors[..k] + [neighbors[k]];
    assert neighbors == neighbors[..k + 1] + neighbors[k + 1..];
  }

  /** Extending a prefix by one entry counts that entry once more. */
  lemma PrefixSnoc(neighbors: seq<string>, k: nat)
    requires k < |neighbors|
    ensures multiset(neighbors[..k + 1]) == multiset(neighbors[..k]) + multiset{neighbors[k]}
  {
    assert neighbors[..k + 1] == neighbors[..k] + [neighbors[k]];
  }

  /** Counting one more adjacency entry advances the walk by one. */
  lemma ReleaseProgressStep(neighbors: seq<string>, k: nat, inDegree0: map<string, int>, queue0: seq<string>,
                            inDegree: map<string, int>, queue: seq<string>, released: seq<string>,
                            inDegree': map<string, int>, queue': seq<string>, released': seq<string>)
    requires forall t :: t in neighbors ==> t in inDegree0 && inDegree0[t] >= multiset(neighbors)[t]
    requires ReleaseProgress(neighbors, k, inDegree0, queue0, inDegree, queue, released)
    requires k < |neighbors| && neighbors[k] in inDegree
    requires inDegree' == inDegree[neighbors[k] := inDegree[neighbors[k]] - 1]
    requires if inDegree'[neighbors[k]] == 0 then queue' == queue + [neighbors[k]] && released' == released + [neighbors[k]]
             else queue' == queue && released' == released
    ensures ReleaseProgress(neighbors, k + 1, inDegree0, queue0, inDegree', queue', released')
  {
    var n := neighbors[k];
    var before, after := neighbors[..k], neighbors[..k + 1];
    PrefixCounts(neighbors, k);
    assert after == before + [n];
    assert inDegree[n] > 0 by { PrefixSnoc(neighbors, k); }
    assert n !in released;
    var d, r := inDegree', released';
    forall t | t in d ensures d[t] == inDegree0[t] - multiset(after)[t] {
      PrefixSnoc(neighbors, k);
    }
    forall t ensures t in r <==> t in after && t in inDegree0 && inDegree0[t] == multiset(after)[t] {
      PrefixSnoc(neighbors, k);
      assert t in after <==> t in before || t == n;
    }
    assert NoDups(r) by {
      if d[n] == 0 { NoDupsAppend(released, [n]); }
    }
    assert queue' == queue0 + r;
  }

  /** Decrements the in-degree of every entry of the adjacency list `neighbors` of the task
      just placed, and queues each task whose in-degree reaches zero. An in-degree never
      falls below the number of times the list names the task. */
  method ReleaseSuccessors(neighbors: seq<string>, inDegree0: map<string, int>, queue0: seq<string>)
    returns (inDegree: map<string, int>, queue: seq<string>, ghost released: seq<string>)
    requires forall t :: t in neighbors ==> t in inDegree0 && inDegree0[t] >= multiset(neighbors)[t]
    ensures inDegree.Keys == inDegree0.Keys
    ensures forall t :: t in inDegree ==> inDegree[t] == inDegree0[t] - multiset(neighbors)[t]
    ensures queue == queue0 + released && released == ReleaseOrder(neighbors, inDegree0)
    ensures NoDups(released)
    ensures forall t :: t in released <==> t in neighbors && inDegree0[t] == multiset(neighbors)[t]
  {
    inDegree, queue, released := inDegree0, queue0, [];
    var k := 0;
    while k < |neighbors|
      invariant ReleaseProgress(neighbors, k, inDegree0, queue0, inDegree, queue, released)
      invariant released == ReleaseOrder(neighbors[..k], inDegree0)
      decreases |neighbors| - k
    {
      inDegree, queue, released := ReleaseEntry(neighbors, k, inDegree0, queue0, inDegree, queue, released);
      k := k + 1;
    }
    assert neighbors[..k] == neighbors;
  }

  /** Walks adjacency entry `k`: lowers the in-degree of its task and queues the task if the
      in-degree reaches zero. */
  method ReleaseEntry(neighbors: seq<string>, k: nat, inDegree0: map<string, int>, queue0: seq<string>,
                      inDegree: map<string, int>, queue: seq<string>, ghost released: seq<string>)
    returns (inDegree': map<string, int>, queue': seq<string>, ghost released': seq<string>)
    requires forall t :: t in neighbors ==> t in inDegree0 && inDegree0[t] >= multiset(neighbors)[t]
    requires ReleaseProgress(neighbors, k, inDegree0, queue0, inDegree, queue, released)
    requires released == ReleaseOrder(neighbors[..k], inDegree0) && k < |neighbors|
    ensures ReleaseProgress(neighbors, k + 1, inDegree0, queue0, inDegree', queue', released')
    ensures released' == ReleaseOrder(neighbors[..k + 1], inDegree0)
  {
    var neighbor := neighbors[k];
    inDegree' := inDegree[neighbor := inDegree[neighbor] - 1];
    queue', released' := queue, released;
    if inDegree'[neighbor] == 0 {
      queue' := queue + [neighbor];
      released' := released + [neighbor];
    }
    ReleaseProgressStep(neighbors, k, inDegree0, queue0, inDegree, queue, released, inDegree', queue', released');
    ReleaseOrderStep(neighbors, k, inDegree0, inDegree[neighbor], released, released');
  }

  /** Before `x` is placed, each dependent of `x` still waits for `x` at least as many times
      as the adjacency list of `x` names it. */
  lemma NeighborsBounded(taskMap: map<string, TaskItem>, graph: map<string, seq<string>>, x: string,
                         inDegree: map<string, int>, placed: set<string>)
    requires GraphMatches(taskMap, graph) && x in taskMap && x !in placed
    requires InDegreeMatches(taskMap, inDegree, placed)
    ensures x in graph
    ensures forall t :: t in graph[x] ==> t in inDegree && inDegree[t] >= multiset(graph[x])[t]
  {
    forall t | t in graph[x] ensures t in inDegree && inDegree[t] >= multiset(graph[x])[t] {
      PendingRelease(taskMap[t].dependencies, placed, x);
    }
  }

  /** Decrementing by the adjacency list of `x` leaves, for every task, the count of its
      dependencies not placed once `x` is. */
  lemma ReleasedDegrees(taskMap: map<string, TaskItem>, graph: map<string, seq<string>>, x: string,
                        inDegree0: map<string, int>, inDegree: map<string, int>, placed: set<string>)
    requires GraphMatches(taskMap, graph) && x in taskMap && x !in placed
    requires InDegreeMatches(taskMap, inDegree0, placed)
    requires inDegree.Keys == inDegree0.Keys
    requires forall t :: t in inDegree ==> inDegree[t] == inDegree0[t] - multiset(graph[x])[t]
    ensures InDegreeMatches(taskMap, inDegree, placed + {x})
  {
    forall t | t in taskMap ensures t in inDegree && inDegree[t] == Pending(taskMap[t].dependencies, placed + {x}) {
      PendingRelease(taskMap[t].dependencies, placed, x);
    }
  }

  /** The tasks queued by placing `x`, after those released earlier, are the tasks released
      since `before`, each once. */
  lemma ReleasedQueue(taskMap: map<string, TaskItem>, graph: map<string, seq<string>>, x: string,
                      inDegree0: map<string, int>, before: set<string>, placed: set<string>,
                      queue0: seq<string>, released: seq<string>)
    requires GraphMatches(taskMap, graph) && x in taskMap && x !in placed && before <= placed
    requires InDegreeMatches(taskMap, inDegree0, placed)
    requires NoDups(queue0) && HoldsReleased(taskMap, before, placed, queue0)
    requires NoDups(released)
    requires forall t :: t in released <==> t in graph[x] && inDegree0[t] == multiset(graph[x])[t]
    ensures NoDups(queue0 + released)
    ensures HoldsReleased(taskMap, before, placed + {x}, queue0 + released)
  {
    forall t ensures t in queue0 + released <==> Released(taskMap, before, placed + {x}, t) {
      if t in taskMap { ReleasedStep(taskMap, before, placed, x, t); }
    }
    forall t | t in released ensures t !in queue0 {
      assert t in graph[x];
    }
    NoDupsAppend(queue0, released);
  }

  /** Appends one task `x` of the batch to the result and releases its dependents. The queue
      holds the tasks released since `before` was placed, each once. */
  method PlaceTask(taskMap: map<string, TaskItem>, graph: map<string, seq<string>>, x: string,
                   result0: seq<string>, inDegree0: map<string, int>, queue0: seq<string>,
                   ghost before: set<string>)
    returns (result: seq<string>, inDegree: map<string, int>, queue: seq<string>)
    requires GraphMatches(taskMap, graph)
    requires x in taskMap && x !in result0 && before <= Elems(result0)
    requires InDegreeMatches(taskMap, inDegree0, Elems(result0))
    requires NoDups(queue0) && HoldsReleased(taskMap, before, Elems(result0), queue0)
    ensures result == result0 + [x]
    ensures InDegreeMatches(taskMap, inDegree, Elems(result))
    ensures NoDups(queue) && HoldsReleased(taskMap, before, Elems(result), queue)
  {
    ghost var placed := Elems(result0);
    result := result0 + [x];
    ElemsAppend(result0, [x]);
    assert Elems(result) == placed + {x} by { assert Elems([x]) == {x}; }
    NeighborsBounded(taskMap, graph, x, inDegree0, placed);
    ghost var released;
    inDegree, queue, released := ReleaseSuccessors(graph[x], inDegree0, queue0);
    ReleasedDegrees(taskMap, graph, x, inDegree0, inDegree, placed);
    ReleasedQueue(taskMap, graph, x, inDegree0, before, placed, queue0, released);
  }

  /** The next task of a batch of unplaced tasks without repeats is not yet placed. */
  lemma NextInBatchUnplaced(taskMap: map<string, TaskItem>, result0: seq<string>, batch: seq<string>, p: nat)
    requires NoDups(batch) && p < |batch|
    requires forall x :: x in batch ==> x in taskMap && x !in result0
    ensures batch[p] in taskMap && batch[p] !in result0 + batch[..p]
  {
    forall k | 0 <= k < p ensures batch[..p][k] != batch[p] { assert batch[..p][k] == batch[k]; }
  }

  /** The state after placing the first `p` tasks of `batch` after `result0`: the result has
      grown by them, the in-degrees count what is still outstanding, and the queue holds, each
      once, the tasks released since `result0`. */
  ghost predicate BatchProgress(taskMap: map<string, TaskItem>, result0: seq<string>, batch: seq<string>, p: nat,
                                result: seq<string>, inDegree: map<string, int>, queue: seq<string>)
  {
    p <= |batch| && result == result0 + batch[..p] &&
    InDegreeMatches(taskMap, inDegree, Elems(result)) &&
    NoDups(queue) && HoldsReleased(taskMap, Elems(result0), Elems(result), queue)
  }

  /** Placing the next task of the batch advances the progress by one. */
  lemma BatchProgressStep(taskMap: map<string, TaskItem>, result0: seq<string>, batch: seq<string>, p: nat,
                          result: seq<string>, inDegree: map<string, int>, queue: seq<string>,
                          result': seq<string>, inDegree': map<string, int>, queue': seq<string>)
    requires p < |batch| && BatchProgress(taskMap, result0, batch, p, result, inDegree, queue)
    requires result' == result + [batch[p]]
    requires InDegreeMatches(taskMap, inDegree', Elems(result'))
    requires NoDups(queue') && HoldsReleased(taskMap, Elems(result0), Elems(result'), queue')
    ensures BatchProgress(taskMap, result0, batch, p + 1, result', inDegree', queue')
  {
    assert batch[..p + 1] == batch[..p] + [batch[p]];
  }

  /** The tasks placed so far include those placed before the batch. */
  lemma BatchProgressGrows(taskMap: map<string, TaskItem>, result0: seq<string>, batch: seq<string>, p: nat,
                           result: seq<string>, inDegree: map<string, int>, queue: seq<string>)
    requires BatchProgress(taskMap, result0, batch, p, result, inDegree, queue)
    ensures Elems(result0) <= Elems(result)
  {
    ElemsAppend(result0, batch[..p]);
  }

  /** Appends the batch to the result, task by task, releasing each task's dependents. The
      queue ends up holding, each once, the tasks that still waited for something before the
      batch and wait for nothing after it. */
  method ProcessBatch(taskMap: map<string, TaskItem>, graph: map<string, seq<string>>, batch: seq<string>,
                      result0: seq<string>, inDegree0: map<string, int>)
    returns (result: seq<string>, inDegree: map<string, int>, queue: seq<string>)
    requires GraphMatches(taskMap, graph)
    requires InDegreeMatches(taskMap, inDegree0, Elems(result0))
    requires NoDups(batch) && forall x :: x in batch ==> x in taskMap && x !in result0
    ensures result == result0 + batch
    ensures InDegreeMatches(taskMap, inDegree, Elems(result))
    ensures NoDups(queue) && HoldsReleased(taskMap, Elems(result0), Elems(result), queue)
  {
    result, inDegree, queue := result0, inDegree0, [];
    assert batch[..0] == [];
    var p := 0;
    while p < |batch|
      invariant BatchProgress(taskMap, result0, batch, p, result, inDegree, queue)
      decreases |batch| - p
    {
      NextInBatchUnplaced(taskMap, result0, batch, p);
      BatchProgressGrows(taskMap, result0, batch, p, result, inDegree, queue);
      var result', inDegree', queue' := PlaceTask(taskMap, graph, batch[p], result, inDegree, queue, Elems(result0));
      BatchProgressStep(taskMap, result0, batch, p, result, inDegree, queue, result', inDegree', queue');
      result, inDegree, queue := result', inDegree', queue';
      p := p + 1;
    }
    assert batch[..p] == batch;
  }

  /** Dequeues every queued title, in queue order, into a new batch. */
  method DrainQueue(queue0: seq<string>) returns (batch: seq<string>, queue: seq<string>)
    ensures batch == queue0 && queue == []
  {
    batch, queue := [], queue0;
    while |queue| > 0
      invariant batch + queue == queue0
    {
      batch := batch + [queue[0]];
      queue := queue[1..];
    }
  }

  /** The state between two rounds: the batches so far form a level-by-level schedule laid out
      in the result, the in-degrees count what is still outstanding, and the queue holds the
      next frontier, each task once. */
  ghost predicate RoundState(taskMap: map<string, TaskItem>, batches: seq<seq<string>>, result: seq<string>,
                             inDegree: map<string, int>, queue: seq<string>)
  {
    Levels(taskMap, batches) && result == Flatten(batches) &&
    InDegreeMatches(taskMap, inDegree, Elems(result)) &&
    NoDups(queue) && Elems(queue) == Ready(taskMap, Elems(result))
  }

  /** A round that places the frontier `b` leads to the next round state. */
  lemma RoundStateStep(taskMap: map<string, TaskItem>, batches: seq<seq<string>>, b: seq<string>,
                       result: seq<string>, inDegree: map<string, int>, queue: seq<string>)
    requires Levels(taskMap, batches + [b]) && Flatten(batches + [b]) == Flatten(batches) + b
    requires result == Flatten(batches) + b
    requires InDegreeMatches(taskMap, inDegree, Elems(result))
    requires NoDups(queue) && Elems(queue) == Ready(taskMap, Elems(Flatten(batches) + b))
    ensures RoundState(taskMap, batches + [b], result, inDegree, queue)
  {
  }

  /** One round of the outer loop: drains the queue into a batch, sorts the batch by due date
      and estimated hours, places it and queues the tasks it releases. The batch is the next
      level of the schedule, and the round leaves fewer tasks unplaced. */
  method RunRound(taskMap: map<string, TaskItem>, graph: map<string, seq<string>>, ghost batches: seq<seq<string>>,
                  result0: seq<string>, inDegree0: map<string, int>, queue0: seq<string>)
    returns (batch: seq<string>, result: seq<string>, inDegree: map<string, int>, queue: seq<string>)
    requires GraphMatches(taskMap, graph)
    requires RoundState(taskMap, batches, result0, inDegree0, queue0) && |queue0| > 0
    ensures IsFrontier(taskMap, Elems(result0), batch)
    ensures RoundState(taskMap, batches + [batch], result, inDegree, queue)
    ensures |taskMap.Keys - Elems(result)| < |taskMap.Keys - Elems(result0)|
  {
    SortedFrontier(taskMap, result0, queue0);
    var drained;
    drained, queue := DrainQueue(queue0);
    batch := SortBatch(taskMap, drained);
    result, inDegree, queue := ProcessBatch(taskMap, graph, batch, result0, inDegree0);
    NextLevel(taskMap, batches, batch, queue);
    RoundStateStep(taskMap, batches, batch, result, inDegree, queue);
  }

  /** Queues every task whose in-degree is zero, then runs Kahn's algorithm level by level:
      each round takes the whole queue as one batch,
      sorts it by due date and estimated hours, appends it to the result and queues the tasks
      it releases for the next round. Stops when nothing is queued. */
  method RunBatches(tasks: seq<TaskItem>, taskMap: map<string, TaskItem>, graph: map<string, seq<string>>,
                    inDegree0: map<string, int>)
    returns (result: seq<string>, ghost batches: seq<seq<string>>)
    requires DistinctTitles(tasks) && taskMap == TaskMap(tasks)
    requires GraphMatches(taskMap, graph)
    requires InDegreeMatches(taskMap, inDegree0, {})
    ensures Levels(taskMap, batches)
    ensures result == Flatten(batches)
    ensures Ready(taskMap, Elems(result)) == {}
  {
    var queue := SeedQueue(tasks, inDegree0);
    SeedIsFirstFrontier(taskMap, inDegree0, queue);
    result, batches := [], [];
    var inDegree := inDegree0;
    while |queue| > 0
      invariant RoundState(taskMap, batches, result, inDegree, queue)
      decreases |taskMap.Keys - Elems(result)|
    {
      var currentBatch;
      currentBatch, result, inDegree, queue := RunRound(taskMap, graph, batches, result, inDegree, queue);
      batches := batches + [currentBatch];
    }
  }

  /** The adjacency lists built from the task list are those of the task dictionary. */
  lemma BuiltGraphMatches(tasks: seq<TaskItem>, graph: map<string, seq<string>>)
    requires DistinctTitles(tasks)
    requires graph.Keys == Titles(tasks) && forall d :: d in graph ==> graph[d] == Dependents(tasks, d)
    ensures GraphMatches(TaskMap(tasks), graph)
  {
    var m := TaskMap(tasks);
    forall d | d in m
      ensures d in graph && forall t :: multiset(graph[d])[t] == if t in m then multiset(m[t].dependencies)[d] else 0
    {
      forall t ensures multiset(graph[d])[t] == if t in m then multiset(m[t].dependencies)[d] else 0 {
        DependentsOfTaskMap(tasks, d, t);
      }
    }
  }

  /** The in-degrees built from the task list count every dependency as outstanding. */
  lemma BuiltInDegreeMatches(tasks: seq<TaskItem>, inDegree: map<string, int>)
    requires DistinctTitles(tasks)
    requires inDegree.Keys == Titles(tasks)
    requires forall i :: 0 <= i < |tasks| ==> inDegree[tasks[i].title] == |tasks[i].dependencies|
    ensures InDegreeMatches(TaskMap(tasks), inDegree, {})
  {
    var m := TaskMap(tasks);
    forall t | t in m ensures inDegree[t] == Pending(m[t].dependencies, {}) {
      var i :| 0 <= i < |tasks| && tasks[i].title == t;
      PendingInitially(m[t].dependencies);
    }
  }

  /** The tasks queued first are the first frontier. */
  lemma SeedIsFirstFrontier(m: map<string, TaskItem>, inDegree: map<string, int>, queue: seq<string>)
    requires InDegreeMatches(m, inDegree, {})
    requires forall t :: t in queue <==> t in m && inDegree[t] == 0
    ensures Elems(queue) == Ready(m, {})
  {
    forall t | t in m ensures t in queue <==> t in Ready(m, {}) {
      PendingZero(m[t].dependencies, {});
    }
  }

  /** With distinct titles, an order without repeats that holds exactly the titles is a
      reordering of the titles in input order. */
  lemma TitlesPermutation(tasks: seq<TaskItem>, order: seq<string>)
    requires DistinctTitles(tasks) && NoDups(order) && Elems(order) == Titles(tasks)
    ensures multiset(order) == multiset(TitleSeq(tasks))
  {
    TitleSeqElems(tasks);
    assert NoDups(TitleSeq(tasks));
    SameElemsPermutation(order, TitleSeq(tasks));
  }

  /** Runs the level-by-level sort over a graph without unknown dependencies and reports a
      cycle when some task was never placed. */
  method OrderTasks(tasks: seq<TaskItem>, taskMap: map<string, TaskItem>, graph: map<string, seq<string>>,
                    inDegree: map<string, int>)
    returns (order: Option<seq<string>>, errors: seq<string>, ghost batches: seq<seq<string>>)
    requires DistinctTitles(tasks) && taskMap == TaskMap(tasks) && AllKnown(taskMap)
    requires GraphMatches(taskMap, graph)
    requires InDegreeMatches(taskMap, inDegree, {})
    ensures order.None? <==> HasCycle(taskMap)
    ensures order.None? ==> errors == [CyclicDependencyMessage]
    ensures order.Some? ==> errors == []
    ensures order.Some? ==> |order.value| == |tasks| && multiset(order.value) == multiset(TitleSeq(tasks))
    ensures order.Some? ==> RespectsDependencies(taskMap, order.value)
    ensures order.Some? ==> order.value == Flatten(batches)
    ensures Levels(taskMap, batches) && Ready(taskMap, Elems(Flatten(batches))) == {}
  {
    var result;
    result, batches := RunBatches(tasks, taskMap, graph, inDegree);
    LevelsSchedule(taskMap, batches);
    ScheduleOutcome(taskMap, batches);
    TitlesCardinality(tasks);
    if |result| != |tasks| {
      errors := [CyclicDependencyMessage];
      order := None;
      return;
    }
    TitlesPermutation(tasks, result);
    errors := [];
    order := Some(result);
  }

  /** Orders `tasks` so that every task comes after the tasks it depends on, taking the tasks
      level by level and ordering each level by due date and then estimated hours.
      On success `order` holds the titles and `errors` is empty; otherwise `order` is None and
      `errors` holds exactly one message: the first unknown dependency, or the cycle.
      `batches` records the levels. */
  method SortTasks(tasks: seq<TaskItem>)
    returns (order: Option<seq<string>>, errors: seq<string>, ghost batches: seq<seq<string>>)
    requires DistinctTitles(tasks)
    ensures order.Some? <==> errors == []
    ensures order.None? ==> |errors| == 1
    ensures FirstUnknown(tasks, Titles(tasks)).Some? ==>
              var (i, j) := FirstUnknown(tasks, Titles(tasks)).value;
              order.None? && errors == [UnknownDependencyMessage(tasks[i].title, tasks[i].dependencies[j])]
    ensures FirstUnknown(tasks, Titles(tasks)).None? ==> (order.None? <==> HasCycle(TaskMap(tasks)))
    ensures FirstUnknown(tasks, Titles(tasks)).None? && order.None? ==> errors == [CyclicDependencyMessage]
    ensures order.Some? ==> |order.value| == |tasks| && multiset(order.value) == multiset(TitleSeq(tasks))
    ensures order.Some? ==> RespectsDependencies(TaskMap(tasks), order.value)
    ensures order.Some? ==> order.value == Flatten(batches)
    ensures FirstUnknown(tasks, Titles(tasks)).None? ==>
              Levels(TaskMap(tasks), batches) && Ready(TaskMap(tasks), Elems(Flatten(batches))) == {}
  {
    errors := [];
    batches := [];
    var taskMap := TaskMap(tasks);
    var graph, inDegree := InitGraph(tasks);
    var unknown;
    unknown, graph, inDegree := AddEdges(tasks, taskMap.Keys, graph, inDegree);
    assert unknown == FirstUnknown(tasks, Titles(tasks));
    if unknown.Some? {
      var (i, j) := unknown.value;
      errors := errors + [UnknownDependencyMessage(tasks[i].title, tasks[i].dependencies[j])];
      order := None;
      assert FirstUnknown(tasks, Titles(tasks)).Some?;
      return;
    }
    BuiltGraphMatches(tasks, graph);
    BuiltInDegreeMatches(tasks, inDegree);
    NoUnknownIsAllKnown(tasks);
    order, errors, batches := OrderTasks(tasks, taskMap, graph, inDegree);
  }
}
