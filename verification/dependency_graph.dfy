/** The dependency relation of a task set, described independently of the algorithm that
    walks it: adjacency lists, outstanding prerequisites, the frontier of ready tasks, the
    level-by-level schedule, cycles and unknown dependencies. */
module DependencyGraph {
  import opened Tasks
  import opened Seqs
  import opened BatchOrder

  // ---------------------------------------------------------------------------------------
  // Unknown dependencies

  /** Every entry of the dependency lists of `tasks[..i]` is a known title. */
  ghost predicate KnownBefore(tasks: seq<TaskItem>, known: set<string>, i: int)
    requires 0 <= i <= |tasks|
  {
    forall a, k :: 0 <= a < i && 0 <= k < |tasks[a].dependencies| ==> tasks[a].dependencies[k] in known
  }

  /** The position of the first entry of `deps` that is not in `known`, if any. */
  function FirstUnknownDependency(deps: seq<string>, known: set<string>): (r: Option<nat>)
    ensures r.Some? ==> r.value < |deps| && deps[r.value] !in known
    ensures r.Some? ==> forall k :: 0 <= k < r.value ==> deps[k] in known
    ensures r.None? ==> forall k :: 0 <= k < |deps| ==> deps[k] in known
  {
    if |deps| == 0 then None
    else
      match FirstUnknownDependency(deps[..|deps| - 1], known)
      case Some(j) => Some(j)
      case None => if deps[|deps| - 1] in known then None else Some(|deps| - 1)
  }

  /** The first (task, dependency) position, in input order and then dependency-list order,
      whose dependency is not in `known`, if any. */
  function FirstUnknown(tasks: seq<TaskItem>, known: set<string>): (r: Option<(nat, nat)>)
    ensures r.Some? ==> r.value.0 < |tasks| && r.value.1 < |tasks[r.value.0].dependencies|
    ensures r.Some? ==> tasks[r.value.0].dependencies[r.value.1] !in known
    ensures r.Some? ==> KnownBefore(tasks, known, r.value.0)
    ensures r.Some? ==> forall k :: 0 <= k < r.value.1 ==> tasks[r.value.0].dependencies[k] in known
    ensures r.None? ==> KnownBefore(tasks, known, |tasks|)
  {
    if |tasks| == 0 then None
    else
      var n := |tasks| - 1;
      match FirstUnknown(tasks[..n], known)
      case Some(p) => Some(p)
      case None =>
        match FirstUnknownDependency(tasks[n].dependencies, known)
        case Some(j) => Some((n, j))
        case None => None
  }

  /** The first unknown entry of a dependency list is the one before which every entry is known. */
  lemma {:induction false} FirstUnknownDependencyAt(deps: seq<string>, known: set<string>, j: nat)
    requires j < |deps| && deps[j] !in known
    requires forall k :: 0 <= k < j ==> deps[k] in known
    ensures FirstUnknownDependency(deps, known) == Some(j)
  {
    var n := |deps| - 1;
    if j < n {
      FirstUnknownDependencyAt(deps[..n], known, j);
    } else {
      assert forall k :: 0 <= k < n ==> deps[..n][k] == deps[k];
    }
  }

  /** No unknown entry is reported when every entry is known. */
  lemma {:induction false} FirstUnknownNoneDependency(deps: seq<string>, known: set<string>)
    requires forall k :: 0 <= k < |deps| ==> deps[k] in known
    ensures FirstUnknownDependency(deps, known).None?
  {
    if |deps| > 0 {
      var n := |deps| - 1;
      assert forall k :: 0 <= k < n ==> deps[..n][k] == deps[k];
      FirstUnknownNoneDependency(deps[..n], known);
    }
  }

  /** The first unknown (task, dependency) position is the one before which every entry of every
      list is known. */
  lemma {:induction false} FirstUnknownAt(tasks: seq<TaskItem>, known: set<string>, i: nat, j: nat)
    requires i < |tasks| && j < |tasks[i].dependencies| && tasks[i].dependencies[j] !in known
    requires KnownBefore(tasks, known, i)
    requires forall k :: 0 <= k < j ==> tasks[i].dependencies[k] in known
    ensures FirstUnknown(tasks, known) == Some((i, j))
  {
    var n := |tasks| - 1;
    var front := tasks[..n];
    if i < n {
      assert front[i] == tasks[i];
      assert KnownBefore(front, known, i) by {
        forall a | 0 <= a < i ensures front[a] == tasks[a] { }
      }
      FirstUnknownAt(front, known, i, j);
    } else {
      FirstUnknownNone(front, known);
      FirstUnknownDependencyAt(tasks[n].dependencies, known, j);
    }
  }

  /** No unknown position is reported when every entry of every list is known. */
  lemma {:induction false} FirstUnknownNone(tasks: seq<TaskItem>, known: set<string>)
    requires KnownBefore(tasks, known, |tasks|)
    ensures FirstUnknown(tasks, known).None?
  {
    if |tasks| > 0 {
      var n := |tasks| - 1;
      var front := tasks[..n];
      assert KnownBefore(front, known, n) by {
        forall a | 0 <= a < n ensures front[a] == tasks[a] { }
      }
      FirstUnknownNone(front, known);
    }
  }

  /** Every dependency of every task of `m` names a task of `m`. */
  ghost predicate AllKnown(m: map<string, TaskItem>)
  {
    forall t, d :: t in m && d in m[t].dependencies ==> d in m
  }

  /** No unknown dependency is found exactly when every dependency names a task. */
  lemma NoUnknownIsAllKnown(tasks: seq<TaskItem>)
    requires DistinctTitles(tasks)
    ensures FirstUnknown(tasks, Titles(tasks)).None? <==> AllKnown(TaskMap(tasks))
  {
    var m := TaskMap(tasks);
    if FirstUnknown(tasks, Titles(tasks)).None? {
      forall t, d | t in m && d in m[t].dependencies ensures d in m {
        var i :| 0 <= i < |tasks| && tasks[i].title == t;
        var k :| 0 <= k < |tasks[i].dependencies| && tasks[i].dependencies[k] == d;
      }
    } else {
      var (i, j) := FirstUnknown(tasks, Titles(tasks)).value;
      assert tasks[i].dependencies[j] in m[tasks[i].title].dependencies;
    }
  }

  // ---------------------------------------------------------------------------------------
  // Adjacency lists

  /** `title` once for every entry of `deps` that names `d`: the contribution of one task
      to the adjacency list of `d`. */
  function Listings(title: string, deps: seq<string>, d: string): seq<string>
  {
    if |deps| == 0 then []
    else Listings(title, deps[..|deps| - 1], d) + (if deps[|deps| - 1] == d then [title] else [])
  }

  /** `graph` is `graph0` with the contribution of `title` listing `deps` appended to each list. */
  ghost predicate ListedAfter(graph0: map<string, seq<string>>, graph: map<string, seq<string>>,
                              title: string, deps: seq<string>)
  {
    graph.Keys == graph0.Keys && forall d :: d in graph ==> graph[d] == graph0[d] + Listings(title, deps, d)
  }

  /** Appending `title` to the list of the next entry extends the contribution by that entry. */
  lemma ListedAfterSnoc(graph0: map<string, seq<string>>, graph: map<string, seq<string>>,
                        title: string, deps: seq<string>, j: nat)
    requires j < |deps| && deps[j] in graph && ListedAfter(graph0, graph, title, deps[..j])
    ensures ListedAfter(graph0, graph[deps[j] := graph[deps[j]] + [title]], title, deps[..j + 1])
  {
    assert deps[..j + 1][..j] == deps[..j];
  }

  /** A task contributes its own title to the list of `d` as often as it lists `d`, and nothing else. */
  lemma {:induction false} ListingsCount(title: string, deps: seq<string>, d: string, t: string)
    ensures multiset(Listings(title, deps, d))[t] == if t == title then multiset(deps)[d] else 0
  {
    if |deps| > 0 {
      var n := |deps| - 1;
      ListingsCount(title, deps[..n], d, t);
      assert deps == deps[..n] + [deps[n]];
      assert multiset(deps) == multiset(deps[..n]) + multiset{deps[n]};
    }
  }

  /** The adjacency list of `d`: the title of every task of `tasks` that lists `d`, in input
      order, once for each time it lists `d`. */
  function Dependents(tasks: seq<TaskItem>, d: string): seq<string>
  {
    if |tasks| == 0 then []
    else
      var n := |tasks| - 1;
      Dependents(tasks[..n], d) + Listings(tasks[n].title, tasks[n].dependencies, d)
  }

  /** The adjacency list of `d` names each task as often as that task lists `d`. */
  lemma {:induction false} DependentsCount(tasks: seq<TaskItem>, d: string, i: nat)
    requires DistinctTitles(tasks) && i < |tasks|
    ensures multiset(Dependents(tasks, d))[tasks[i].title] == multiset(tasks[i].dependencies)[d]
  {
    var n := |tasks| - 1;
    var front := tasks[..n];
    var last := tasks[n];
    assert multiset(Dependents(tasks, d)) ==
           multiset(Dependents(front, d)) + multiset(Listings(last.title, last.dependencies, d));
    ListingsCount(last.title, last.dependencies, d, tasks[i].title);
    assert DistinctTitles(front) by {
      forall a, b | 0 <= a < b < |front| ensures front[a].title != front[b].title {
        assert front[a] == tasks[a] && front[b] == tasks[b];
      }
    }
    if i < n {
      DependentsCount(front, d, i);
      assert front[i] == tasks[i];
      assert tasks[i].title != last.title;
    } else {
      assert last.title !in Titles(front) by {
        forall a | 0 <= a < |front| ensures front[a].title != last.title {
          assert front[a] == tasks[a];
        }
      }
      DependentsOnlyTasks(front, d, last.title);
    }
  }

  /** The adjacency list of `d` names only tasks of the list. */
  lemma {:induction false} DependentsOnlyTasks(tasks: seq<TaskItem>, d: string, t: string)
    requires t !in Titles(tasks)
    ensures multiset(Dependents(tasks, d))[t] == 0
  {
    if |tasks| > 0 {
      var n := |tasks| - 1;
      TitlesSnoc(tasks);
      DependentsOnlyTasks(tasks[..n], d, t);
      ListingsCount(tasks[n].title, tasks[n].dependencies, d, t);
    }
  }

  /** The adjacency list of `d` names each task of the dictionary as often as it lists `d`,
      and nothing else. */
  lemma DependentsOfTaskMap(tasks: seq<TaskItem>, d: string, t: string)
    requires DistinctTitles(tasks)
    ensures multiset(Dependents(tasks, d))[t] ==
              if t in TaskMap(tasks) then multiset(TaskMap(tasks)[t].dependencies)[d] else 0
  {
    if t in Titles(tasks) {
      var i :| 0 <= i < |tasks| && tasks[i].title == t;
      DependentsCount(tasks, d, i);
    } else {
      DependentsOnlyTasks(tasks, d, t);
    }
  }

  /** `graph` holds the adjacency list of every task of `m`: the list of `d` names each task
      `t` as often as `t` lists `d`. */
  ghost predicate GraphMatches(m: map<string, TaskItem>, graph: map<string, seq<string>>)
  {
    forall d :: d in m ==>
      d in graph &&
      forall t :: multiset(graph[d])[t] == if t in m then multiset(m[t].dependencies)[d] else 0
  }

  // ---------------------------------------------------------------------------------------
  // Outstanding prerequisites

  /** The number of entries of `deps`, repeats counted, that are not yet in `done`. */
  function Pending(deps: seq<string>, done: set<string>): nat
  {
    if |deps| == 0 then 0 else (if deps[0] in done then 0 else 1) + Pending(deps[1..], done)
  }

  /** Before anything is placed, every entry is outstanding. */
  lemma {:induction false} PendingInitially(deps: seq<string>)
    ensures Pending(deps, {}) == |deps|
  {
    if |deps| > 0 { PendingInitially(deps[1..]); }
  }

  /** Nothing is outstanding exactly when every dependency has been placed. */
  lemma {:induction false} PendingZero(deps: seq<string>, done: set<string>)
    ensures Pending(deps, done) == 0 <==> forall d :: d in deps ==> d in done
  {
    if |deps| > 0 {
      PendingZero(deps[1..], done);
      assert forall d :: d in deps <==> d == deps[0] || d in deps[1..];
    }
  }

  /** Placing `x` releases every entry of `deps` that names `x`, and nothing else. */
  lemma {:induction false} PendingRelease(deps: seq<string>, done: set<string>, x: string)
    requires x !in done
    ensures Pending(deps, done + {x}) == Pending(deps, done) - multiset(deps)[x]
  {
    if |deps| > 0 {
      PendingRelease(deps[1..], done, x);
      assert deps == [deps[0]] + deps[1..];
      assert multiset(deps) == multiset{deps[0]} + multiset(deps[1..]);
    }
  }

  /** Placing more tasks never adds outstanding prerequisites. */
  lemma {:induction false} PendingMonotone(deps: seq<string>, A: set<string>, B: set<string>)
    requires A <= B
    ensures Pending(deps, B) <= Pending(deps, A)
  {
    if |deps| > 0 { PendingMonotone(deps[1..], A, B); }
  }

  /** Task `t` became ready while `before` grew to `after`: it had outstanding prerequisites
      and has none left. */
  ghost predicate Released(m: map<string, TaskItem>, before: set<string>, after: set<string>, t: string)
  {
    t in m && Pending(m[t].dependencies, before) > 0 && Pending(m[t].dependencies, after) == 0
  }

  /** `queue` holds exactly the tasks released by placing `after` on top of `before`. */
  ghost predicate HoldsReleased(m: map<string, TaskItem>, before: set<string>, after: set<string>, queue: seq<string>)
  {
    forall t :: t in queue <==> Released(m, before, after, t)
  }

  /** Placing `x` after `placed` releases a task exactly when the task was already released
      by `placed`, or it lists `x` and every prerequisite it still waited for is `x`. */
  lemma ReleasedStep(m: map<string, TaskItem>, before: set<string>, placed: set<string>, x: string, t: string)
    requires before <= placed && x !in placed && t in m
    ensures Released(m, before, placed + {x}, t) <==>
              Released(m, before, placed, t) ||
              (multiset(m[t].dependencies)[x] > 0 && Pending(m[t].dependencies, placed) == multiset(m[t].dependencies)[x])
    ensures !(Released(m, before, placed, t) && multiset(m[t].dependencies)[x] > 0 &&
              Pending(m[t].dependencies, placed) == multiset(m[t].dependencies)[x])
  {
    PendingRelease(m[t].dependencies, placed, x);
    PendingMonotone(m[t].dependencies, before, placed);
  }

  /** Placing the whole frontier releases exactly the next frontier. */
  lemma ReleasedIsNextFrontier(m: map<string, TaskItem>, done: set<string>, t: string)
    requires Closed(m, done)
    ensures Released(m, done, done + Ready(m, done), t) <==> t in Ready(m, done + Ready(m, done))
  {
    var after := done + Ready(m, done);
    if t in m {
      PendingZero(m[t].dependencies, done);
      PendingZero(m[t].dependencies, after);
      if t in done {
        assert forall d :: d in m[t].dependencies ==> d in done;
      }
    }
  }

  /** `inDegree` holds, for every task of `m`, how many of its dependencies are not yet placed. */
  ghost predicate InDegreeMatches(m: map<string, TaskItem>, inDegree: map<string, int>, done: set<string>)
  {
    forall t :: t in m ==> t in inDegree && inDegree[t] == Pending(m[t].dependencies, done)
  }

  // ---------------------------------------------------------------------------------------
  // Frontiers and levels

  /** The tasks not yet placed whose every dependency is placed. */
  ghost function Ready(m: map<string, TaskItem>, done: set<string>): set<string>
  {
    set t | t in m && t !in done && forall d :: d in m[t].dependencies ==> d in done
  }

  /** Every placed task is a task of `m` whose dependencies are all placed. */
  ghost predicate Closed(m: map<string, TaskItem>, done: set<string>)
  {
    forall t :: t in done ==> t in m && forall d :: d in m[t].dependencies ==> d in done
  }

  /** The first frontier is exactly the set of tasks with an empty dependency list. */
  lemma FirstFrontier(m: map<string, TaskItem>)
    ensures Ready(m, {}) == set t | t in m && m[t].dependencies == []
  {
    forall t | t in m ensures t in Ready(m, {}) <==> m[t].dependencies == [] {
      if m[t].dependencies != [] {
        assert m[t].dependencies[0] in m[t].dependencies;
      }
    }
  }

  /** `batch` is the frontier after `done`, each task once, in (due date, hours) order. */
  ghost predicate IsFrontier(m: map<string, TaskItem>, done: set<string>, batch: seq<string>)
  {
    |batch| > 0 && NoDups(batch) && Elems(batch) == Ready(m, done) && SortedByKeys(m, batch)
  }

  /** Each batch of `bs` is the frontier left by the batches before it. */
  ghost predicate Levels(m: map<string, TaskItem>, bs: seq<seq<string>>)
  {
    |bs| == 0 ||
    (Levels(m, bs[..|bs| - 1]) && IsFrontier(m, Elems(Flatten(bs[..|bs| - 1])), bs[|bs| - 1]))
  }

  /** A schedule grows by one level when the next batch is the frontier it leaves. */
  lemma LevelsSnoc(m: map<string, TaskItem>, bs: seq<seq<string>>, b: seq<string>)
    requires Levels(m, bs) && IsFrontier(m, Elems(Flatten(bs)), b)
    ensures Levels(m, bs + [b]) && Flatten(bs + [b]) == Flatten(bs) + b
  {
    assert (bs + [b])[..|bs|] == bs;
    FlattenAppend(bs, b);
  }

  /** The ready tasks, drained from the queue and sorted by (due date, hours), form the frontier. */
  lemma SortedFrontier(m: map<string, TaskItem>, placed: seq<string>, q: seq<string>)
    requires NoDups(q) && Elems(q) == Ready(m, Elems(placed)) && |q| > 0
    ensures forall x :: x in q ==> x in m
    ensures IsFrontier(m, Elems(placed), SortBatch(m, q))
    ensures forall x :: x in SortBatch(m, q) ==> x in m && x !in placed
  {
    assert forall x :: x in q ==> x in m by {
      forall x | x in q ensures x in m { assert x in Elems(q); }
    }
    var b := SortBatch(m, q);
    PermutationNoDups(q, b);
    PermutationElems(q, b);
    assert |b| == |multiset(b)| == |multiset(q)| == |q|;
    forall x | x in b ensures x in m && x !in placed {
      assert x in Elems(b);
      assert x !in Elems(placed);
    }
  }

  /** Placing a frontier leaves fewer tasks unplaced. */
  lemma FrontierShrinks(m: map<string, TaskItem>, done: set<string>, b: seq<string>)
    requires IsFrontier(m, done, b)
    ensures |m.Keys - (done + Elems(b))| < |m.Keys - done|
  {
    var first := b[0];
    assert first in Elems(b);
    assert m.Keys - (done + Elems(b)) <= (m.Keys - done) - {first};
    SubsetSize(m.Keys - (done + Elems(b)), (m.Keys - done) - {first});
  }

  /** Placing the frontier `b` after the schedule `bs` extends it by one level, leaves fewer
      tasks unplaced, and releases exactly the next frontier. */
  lemma NextLevel(m: map<string, TaskItem>, bs: seq<seq<string>>, b: seq<string>, queue: seq<string>)
    requires Levels(m, bs) && IsFrontier(m, Elems(Flatten(bs)), b)
    requires HoldsReleased(m, Elems(Flatten(bs)), Elems(Flatten(bs) + b), queue)
    ensures Levels(m, bs + [b]) && Flatten(bs + [b]) == Flatten(bs) + b
    ensures |m.Keys - Elems(Flatten(bs) + b)| < |m.Keys - Elems(Flatten(bs))|
    ensures Elems(queue) == Ready(m, Elems(Flatten(bs) + b))
  {
    var done := Elems(Flatten(bs));
    LevelsSnoc(m, bs, b);
    assert Closed(m, done) by { LevelsSchedule(m, bs); }
    assert Elems(Flatten(bs) + b) == done + Ready(m, done) by { ElemsAppend(Flatten(bs), b); }
    FrontierShrinks(m, done, b);
    QueueIsNextFrontier(m, done, queue);
  }

  /** A queue holding exactly the tasks released by placing the frontier holds the next frontier. */
  lemma QueueIsNextFrontier(m: map<string, TaskItem>, done: set<string>, queue: seq<string>)
    requires Closed(m, done) && HoldsReleased(m, done, done + Ready(m, done), queue)
    ensures Elems(queue) == Ready(m, done + Ready(m, done))
  {
    forall t ensures t in Elems(queue) <==> t in Ready(m, done + Ready(m, done)) {
      ReleasedIsNextFrontier(m, done, t);
    }
  }

  /** A task appears before every task that depends on it: each dependency of `order[k]`
      is among `order[..k]`. */
  ghost predicate RespectsDependencies(m: map<string, TaskItem>, order: seq<string>)
  {
    forall k, d :: 0 <= k < |order| && order[k] in m && d in m[order[k]].dependencies ==> d in order[..k]
  }

  /** The batch at index `k` is the frontier left by batches `0..k-1`. */
  lemma {:induction false} LevelsAt(m: map<string, TaskItem>, bs: seq<seq<string>>, k: nat)
    requires Levels(m, bs) && k < |bs|
    ensures IsFrontier(m, Elems(Flatten(bs[..k])), bs[k])
  {
    var n := |bs| - 1;
    if k < n {
      LevelsAt(m, bs[..n], k);
      assert bs[..n][..k] == bs[..k];
    } else {
      assert bs[..k] == bs[..n];
    }
  }

  /** Appending tasks that are ready after `order` keeps every placed task's dependencies placed. */
  lemma AppendReadyClosed(m: map<string, TaskItem>, order: seq<string>, b: seq<string>)
    requires Closed(m, Elems(order))
    requires forall x :: x in b ==> x in Ready(m, Elems(order))
    ensures Closed(m, Elems(order + b))
  {
    ElemsAppend(order, b);
    forall t | t in Elems(order + b) ensures t in m && forall d :: d in m[t].dependencies ==> d in Elems(order + b) {
      if t !in Elems(order) { assert t in b; }
    }
  }

  /** Appending tasks that are ready after `order` keeps every task after its dependencies. */
  lemma AppendReadyRespects(m: map<string, TaskItem>, order: seq<string>, b: seq<string>)
    requires RespectsDependencies(m, order)
    requires forall x :: x in b ==> x in Ready(m, Elems(order))
    ensures RespectsDependencies(m, order + b)
  {
    var G := order + b;
    forall k, d | 0 <= k < |G| && G[k] in m && d in m[G[k]].dependencies ensures d in G[..k] {
      if k < |order| {
        assert G[..k] == order[..k];
      } else {
        assert G[k] == b[k - |order|] && G[k] in b;
        assert d in Elems(order);
        assert G[..k] == order + b[..k - |order|];
      }
    }
  }

  /** Appending tasks that are ready after `order`, none twice, places no task twice. */
  lemma AppendReadyNoDups(m: map<string, TaskItem>, order: seq<string>, b: seq<string>)
    requires NoDups(order) && NoDups(b)
    requires forall x :: x in b ==> x in Ready(m, Elems(order))
    ensures NoDups(order + b)
  {
    forall x | x in b ensures x !in order {
      assert x in Ready(m, Elems(order));
      assert x !in Elems(order);
    }
    NoDupsAppend(order, b);
  }

  /** A level-by-level schedule places each task at most once, only tasks of `m`, and
      every task after all of its dependencies. */
  lemma {:induction false} LevelsSchedule(m: map<string, TaskItem>, bs: seq<seq<string>>)
    requires Levels(m, bs)
    ensures NoDups(Flatten(bs))
    ensures Closed(m, Elems(Flatten(bs)))
    ensures RespectsDependencies(m, Flatten(bs))
  {
    if |bs| > 0 {
      var n := |bs| - 1;
      var front, b := bs[..n], bs[n];
      LevelsSchedule(m, front);
      var F := Flatten(front);
      assert Flatten(bs) == F + b;
      assert forall x :: x in b ==> x in Ready(m, Elems(F)) by {
        forall x | x in b ensures x in Ready(m, Elems(F)) { assert x in Elems(b); }
      }
      AppendReadyNoDups(m, F, b);
      AppendReadyClosed(m, F, b);
      AppendReadyRespects(m, F, b);
    }
  }

  /** A task freed by a batch is never in that same batch: no task of a batch depends on
      another task of the same batch. */
  lemma FrontierIndependent(m: map<string, TaskItem>, bs: seq<seq<string>>, k: nat, t: string, d: string)
    requires Levels(m, bs) && k < |bs|
    requires t in bs[k] && t in m && d in m[t].dependencies
    ensures d !in bs[k]
  {
    LevelsAt(m, bs, k);
    var done := Elems(Flatten(bs[..k]));
    assert t in Elems(bs[k]);
    assert d in done;
    assert d in Elems(bs[k]) ==> d !in done;
  }

  /** A task of a later batch waits for the batch just before it: one of its dependencies is there. */
  lemma WaitsForPreviousBatch(m: map<string, TaskItem>, bs: seq<seq<string>>, k: nat, t: string)
    requires Levels(m, bs) && 0 < k < |bs| && t in bs[k]
    ensures t in m && exists d :: d in m[t].dependencies && d in bs[k - 1]
  {
    LevelsAt(m, bs, k);
    LevelsAt(m, bs, k - 1);
    assert t in Elems(bs[k]);
    var before := Flatten(bs[..k - 1]);
    assert bs[..k] == bs[..k - 1] + [bs[k - 1]];
    FlattenAppend(bs[..k - 1], bs[k - 1]);
    assert Flatten(bs[..k]) == before + bs[k - 1];
    assert t !in Elems(before + bs[k - 1]);
    assert t !in Elems(bs[k - 1]);
    assert t !in Ready(m, Elems(before));
    var d :| d in m[t].dependencies && d !in Elems(before);
    assert d in Elems(before + bs[k - 1]);
    assert d in bs[k - 1];
  }

  /** The first batch of a schedule holds exactly the tasks with an empty dependency list. */
  lemma FirstBatch(m: map<string, TaskItem>, bs: seq<seq<string>>)
    requires Levels(m, bs) && |bs| > 0
    ensures Elems(bs[0]) == set t | t in m && m[t].dependencies == []
  {
    LevelsAt(m, bs, 0);
    assert Elems(Flatten(bs[..0])) == {};
    FirstFrontier(m);
  }

  // ---------------------------------------------------------------------------------------
  // Cycles

  /** `p` walks from a task to one of its dependencies, step after step, and returns to its start. */
  ghost predicate IsCycle(m: map<string, TaskItem>, p: seq<string>)
  {
    |p| >= 2 && p[0] == p[|p| - 1] &&
    forall i :: 0 <= i < |p| - 1 ==> p[i] in m && p[i + 1] in m[p[i]].dependencies
  }

  ghost predicate HasCycle(m: map<string, TaskItem>)
  {
    exists p :: IsCycle(m, p)
  }

  /** A task that lists itself is a cycle of length one. */
  lemma SelfDependencyIsCycle(m: map<string, TaskItem>, t: string)
    requires t in m && t in m[t].dependencies
    ensures HasCycle(m)
  {
    assert IsCycle(m, [t, t]);
  }

  /** Along a cycle, each step goes strictly earlier in an order that respects dependencies. */
  lemma {:induction false} CycleDescends(m: map<string, TaskItem>, order: seq<string>, p: seq<string>, j0: nat, k: nat)
    returns (j: nat)
    requires RespectsDependencies(m, order) && IsCycle(m, p)
    requires j0 < |order| && order[j0] == p[0] && k < |p|
    ensures j < |order| && order[j] == p[k] && j + k <= j0
  {
    if k == 0 {
      j := j0;
    } else {
      var j' := CycleDescends(m, order, p, j0, k - 1);
      assert p[k] in m[order[j']].dependencies;
      assert p[k] in order[..j'];
      var i :| 0 <= i < j' && order[..j'][i] == p[k];
      j := i;
    }
  }

  /** An order of all tasks that respects dependencies rules out every cycle. */
  lemma ScheduleIsAcyclic(m: map<string, TaskItem>, order: seq<string>)
    requires NoDups(order) && Elems(order) == m.Keys && RespectsDependencies(m, order)
    ensures !HasCycle(m)
  {
    if p :| IsCycle(m, p) {
      assert p[0] in Elems(order);
      var j0 :| 0 <= j0 < |order| && order[j0] == p[0];
      var j := CycleDescends(m, order, p, j0, |p| - 1);
    }
  }

  /** When every dependency is known and nothing is ready, each unplaced task has an
      unplaced dependency. */
  lemma StuckHasUnplacedDependency(m: map<string, TaskItem>, done: set<string>, t: string)
    requires AllKnown(m) && Ready(m, done) == {}
    requires t in m && t !in done
    ensures Elems(m[t].dependencies) * (m.Keys - done) != {}
  {
    assert t !in Ready(m, done);
    var d :| d in m[t].dependencies && d !in done;
    assert d in Elems(m[t].dependencies) * (m.Keys - done);
  }

  /** When every dependency is known and nothing is ready, a walk from dependency to
      dependency among the unplaced tasks can go on for any number of steps. */
  lemma {:induction false} StuckWalk(m: map<string, TaskItem>, done: set<string>, t0: string, n: nat)
    returns (w: seq<string>)
    requires AllKnown(m) && Ready(m, done) == {}
    requires t0 in m && t0 !in done
    ensures |w| == n + 1 && w[0] == t0
    ensures forall i :: 0 <= i < |w| ==> w[i] in m.Keys - done
    ensures forall i :: 0 <= i < n ==> w[i] in m && w[i + 1] in m[w[i]].dependencies
  {
    if n == 0 {
      w := [t0];
    } else {
      var v := StuckWalk(m, done, t0, n - 1);
      var last := v[n - 1];
      StuckHasUnplacedDependency(m, done, last);
      var d :| d in Elems(m[last].dependencies) * (m.Keys - done);
      w := v + [d];
      assert forall i :: 0 <= i < n ==> w[i] == v[i];
      assert w[n] == d;
    }
  }

  /** When some task is unplaced, every dependency is known and nothing is ready, the
      unplaced tasks contain a cycle. */
  lemma StuckIsCyclic(m: map<string, TaskItem>, done: set<string>)
    requires AllKnown(m)
    requires Ready(m, done) == {}
    requires !(m.Keys <= done)
    ensures HasCycle(m)
  {
    var S := m.Keys - done;
    var t0 :| t0 in m.Keys && t0 !in done;
    assert t0 in S;
    var w := StuckWalk(m, done, t0, |S|);
    var i, j := Pigeonhole(w, S);
    var p := w[i..j + 1];
    assert |p| >= 2 && p[0] == w[i] && p[|p| - 1] == w[j];
    forall k | 0 <= k < |p| - 1 ensures p[k] in m && p[k + 1] in m[p[k]].dependencies {
      assert p[k] == w[i + k] && p[k + 1] == w[i + k + 1];
    }
    assert IsCycle(m, p);
  }

  /** Once no task is ready, a level-by-level schedule holds every task exactly when the
      dependencies have no cycle. */
  lemma ScheduleOutcome(m: map<string, TaskItem>, bs: seq<seq<string>>)
    requires AllKnown(m) && Levels(m, bs) && Ready(m, Elems(Flatten(bs))) == {}
    ensures |Flatten(bs)| == |m.Keys| <==> !HasCycle(m)
    ensures |Flatten(bs)| == |m.Keys| ==> Elems(Flatten(bs)) == m.Keys
  {
    var order := Flatten(bs);
    LevelsSchedule(m, bs);
    NoDupsCardinality(order);
    assert Elems(order) <= m.Keys;
    if |order| == |m.Keys| {
      SubsetSameSize(Elems(order), m.Keys);
      ScheduleIsAcyclic(m, order);
    } else {
      assert Elems(order) != m.Keys;
      StuckIsCyclic(m, Elems(order));
    }
  }
}
