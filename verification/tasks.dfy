/** The task record that the scheduler orders, and the title-keyed dictionary built from a task list. */
module Tasks {

  datatype Option<T> = None | Some(value: T)

  /** One task of a scheduling request. The calendar due date is abstracted as a totally
      ordered integer key; the effort estimate is a whole number of hours. */
  datatype TaskItem = TaskItem(title: string, estimatedHours: int, dueDate: int, dependencies: seq<string>)

  /** The titles of `tasks`, as a set. */
  function Titles(tasks: seq<TaskItem>): set<string>
  {
    set i | 0 <= i < |tasks| :: tasks[i].title
  }

  /** The titles of `tasks`, in input order. */
  function TitleSeq(tasks: seq<TaskItem>): (r: seq<string>)
    ensures |r| == |tasks|
    ensures forall i :: 0 <= i < |tasks| ==> r[i] == tasks[i].title
  {
    seq(|tasks|, i requires 0 <= i < |tasks| => tasks[i].title)
  }

  /** The titles in input order are exactly the titles. */
  lemma TitleSeqElems(tasks: seq<TaskItem>)
    ensures forall t :: t in TitleSeq(tasks) <==> t in Titles(tasks)
  {
    forall t | t in Titles(tasks) ensures t in TitleSeq(tasks) {
      var i :| 0 <= i < |tasks| && tasks[i].title == t;
      assert TitleSeq(tasks)[i] == t;
    }
  }

  /** No two tasks share a title: the title is the key of the task dictionary. */
  predicate DistinctTitles(tasks: seq<TaskItem>)
  {
    forall i, j :: 0 <= i < j < |tasks| ==> tasks[i].title != tasks[j].title
  }

  /** The dictionary from title to task (the `ToDictionary` call). */
  function TaskMap(tasks: seq<TaskItem>): (m: map<string, TaskItem>)
    requires DistinctTitles(tasks)
    ensures m.Keys == Titles(tasks)
    ensures forall i :: 0 <= i < |tasks| ==> m[tasks[i].title] == tasks[i]
  {
    map i | 0 <= i < |tasks| :: tasks[i].title := tasks[i]
  }

  /** A task list with one more task has one more title. */
  lemma TitlesSnoc(tasks: seq<TaskItem>)
    requires |tasks| > 0
    ensures Titles(tasks) == Titles(tasks[..|tasks| - 1]) + {tasks[|tasks| - 1].title}
  {
    var n := |tasks| - 1;
    var front := tasks[..n];
    forall u | u in Titles(tasks) ensures u in Titles(front) + {tasks[n].title} {
      var i :| 0 <= i < |tasks| && tasks[i].title == u;
      if i < n { assert front[i].title == u; }
    }
    forall u | u in Titles(front) ensures u in Titles(tasks) {
      var i :| 0 <= i < |front| && front[i].title == u;
      assert tasks[i].title == u;
    }
  }

  /** With distinct titles, there are as many titles as tasks. */
  lemma {:induction false} TitlesCardinality(tasks: seq<TaskItem>)
    requires DistinctTitles(tasks)
    ensures |Titles(tasks)| == |tasks|
  {
    if |tasks| > 0 {
      var n := |tasks| - 1;
      var front := tasks[..n];
      TitlesCardinality(front);
      TitlesSnoc(tasks);
      assert tasks[n].title !in Titles(front);
    }
  }

  /** The message reported for a dependency that names no task of the request. */
  function UnknownDependencyMessage(task: string, dependency: string): string
  {
    "Task '" + task + "' depends on unknown task '" + dependency + "'."
  }

  /** The message reported when the dependencies form a cycle. */
  const CyclicDependencyMessage: string := "Cyclic dependency detected."
}
