/** Small task lists whose outcome is pinned down by the contract of the sort: an unknown
    dependency, a two-task cycle, a chain, a diamond, and independent tasks ordered by due date. */
module Scenarios {
  import opened Tasks
  import opened Seqs
  import opened BatchOrder
  import opened DependencyGraph

  /** One task `a` that needs a title `b` nobody provides. */
  function Unknown(a: string, b: string): seq<TaskItem>
  {
    [TaskItem(a, 1, 1, [b])]
  }

  /** A task listing a title that is not in the request is reported as the first unknown
      pair: the message names the task and the missing title. */
  lemma UnknownScenario(a: string, b: string)
    requires a != b
    ensures DistinctTitles(Unknown(a, b))
    ensures FirstUnknown(Unknown(a, b), Titles(Unknown(a, b))) == Some((0, 0))
  {
    var tasks := Unknown(a, b);
    assert Titles(tasks) == {a} by {
      assert tasks[0].title in Titles(tasks);
    }
    FirstUnknownAt(tasks, Titles(tasks), 0, 0);
  }

  function TwoCycle(a: string, b: string): seq<TaskItem>
  {
    [TaskItem(a, 1, 1, [b]), TaskItem(b, 1, 1, [a])]
  }

  /** Two tasks that depend on each other form a cycle, with no unknown dependency, so the sort
      reports the cycle. */
  lemma TwoCycleScenario(a: string, b: string)
    requires a != b
    ensures DistinctTitles(TwoCycle(a, b))
    ensures FirstUnknown(TwoCycle(a, b), Titles(TwoCycle(a, b))).None?
    ensures HasCycle(TaskMap(TwoCycle(a, b)))
  {
    var tasks := TwoCycle(a, b);
    var m := TaskMap(tasks);
    assert m[tasks[0].title] == tasks[0] && m[tasks[1].title] == tasks[1];
    assert IsCycle(m, [a, b, a]);
    assert tasks[0].title in Titles(tasks) && tasks[1].title in Titles(tasks);
    FirstUnknownNone(tasks, Titles(tasks));
  }

  /** `c` needs `b` and `b` needs `a`; the due dates run against the dependency order. */
  function Chain(a: string, b: string, c: string): seq<TaskItem>
  {
    [TaskItem(c, 1, 1, [b]), TaskItem(b, 5, 2, [a]), TaskItem(a, 9, 3, [])]
  }

  /** The dictionary of the chain, written out. */
  lemma ChainMap(a: string, b: string, c: string)
    requires a != b && b != c && a != c
    ensures DistinctTitles(Chain(a, b, c))
    ensures TaskMap(Chain(a, b, c)) == map[c := Chain(a, b, c)[0], b := Chain(a, b, c)[1], a := Chain(a, b, c)[2]]
  {
    var tasks := Chain(a, b, c);
    assert Titles(tasks) == {a, b, c} by {
      assert tasks[0].title in Titles(tasks) && tasks[1].title in Titles(tasks) && tasks[2].title in Titles(tasks);
    }
  }

  /** Any order of the chain that keeps every task after its dependencies is a, b, c, whatever
      the due dates. */
  lemma ChainScenario(a: string, b: string, c: string, order: seq<string>)
    requires a != b && b != c && a != c
    requires multiset(order) == multiset(TitleSeq(Chain(a, b, c)))
    requires RespectsDependencies(TaskMap(Chain(a, b, c)), order)
    ensures order == [a, b, c]
  {
    ChainMap(a, b, c);
    var m := TaskMap(Chain(a, b, c));
    assert TitleSeq(Chain(a, b, c)) == [c, b, a];
    PermutationFacts(order, [c, b, a]);
    if order[0] == c { var _ := DependencyBefore(m, order, 0, b); }
    if order[0] == b { var _ := DependencyBefore(m, order, 0, a); }
    assert order[0] == a;
    if order[1] == c { var _ := DependencyBefore(m, order, 1, b); }
    assert order[1] == b;
    assert order[2] == c;
  }

  /** `d` needs `b` and `c`, both of which need `a`. */
  function Diamond(a: string, b: string, c: string, d: string): seq<TaskItem>
  {
    [TaskItem(d, 1, 1, [b, c]), TaskItem(b, 1, 2, [a]), TaskItem(c, 1, 3, [a]), TaskItem(a, 1, 4, [])]
  }

  predicate Distinct4(a: string, b: string, c: string, d: string)
  {
    a != b && a != c && a != d && b != c && b != d && c != d
  }

  /** The dictionary of the diamond, written out. */
  lemma DiamondMap(a: string, b: string, c: string, d: string)
    requires Distinct4(a, b, c, d)
    ensures DistinctTitles(Diamond(a, b, c, d))
    ensures TaskMap(Diamond(a, b, c, d)) ==
              map[d := Diamond(a, b, c, d)[0], b := Diamond(a, b, c, d)[1],
                  c := Diamond(a, b, c, d)[2], a := Diamond(a, b, c, d)[3]]
  {
    var tasks := Diamond(a, b, c, d);
    assert Titles(tasks) == {a, b, c, d} by {
      assert tasks[0].title in Titles(tasks) && tasks[1].title in Titles(tasks);
      assert tasks[2].title in Titles(tasks) && tasks[3].title in Titles(tasks);
    }
  }

  /** Any order of the diamond that keeps every task after its dependencies starts with `a`
      and ends with `d`. */
  lemma DiamondScenario(a: string, b: string, c: string, d: string, order: seq<string>)
    requires Distinct4(a, b, c, d)
    requires multiset(order) == multiset(TitleSeq(Diamond(a, b, c, d)))
    requires RespectsDependencies(TaskMap(Diamond(a, b, c, d)), order)
    ensures |order| == 4 && order[0] == a && order[3] == d
  {
    DiamondMap(a, b, c, d);
    var m := TaskMap(Diamond(a, b, c, d));
    assert TitleSeq(Diamond(a, b, c, d)) == [d, b, c, a];
    PermutationFacts(order, [d, b, c, a]);
    if order[0] != a {
      var _ := DependencyBefore(m, order, 0, m[order[0]].dependencies[0]);
    }
    if order[1] == d { var _ := DependencyBefore(m, order, 1, b); }
    if order[2] == d {
      var i := DependencyBefore(m, order, 2, b);
      var j := DependencyBefore(m, order, 2, c);
    }
  }

  /** After `a` only the two branches are ready, and after `a` and both branches only `d`. */
  lemma DiamondReady(a: string, b: string, c: string, d: string)
    requires Distinct4(a, b, c, d)
    ensures Ready(TaskMap(Diamond(a, b, c, d)), {}) == {a}
    ensures Ready(TaskMap(Diamond(a, b, c, d)), {a}) == {b, c}
    ensures Ready(TaskMap(Diamond(a, b, c, d)), {a, b, c}) == {d}
    ensures b in TaskMap(Diamond(a, b, c, d)) && c in TaskMap(Diamond(a, b, c, d))
    ensures !KeyLe(TaskMap(Diamond(a, b, c, d))[c], TaskMap(Diamond(a, b, c, d))[b])
  {
    DiamondMap(a, b, c, d);
    var m := TaskMap(Diamond(a, b, c, d));
    assert b in m[d].dependencies && c in m[d].dependencies;
    assert a in m[b].dependencies && a in m[c].dependencies;
  }

  /** A level-by-level schedule of the diamond places `a`, then the two branches by due date,
      then `d`. */
  lemma DiamondLevels(a: string, b: string, c: string, d: string, bs: seq<seq<string>>)
    requires Distinct4(a, b, c, d)
    requires Levels(TaskMap(Diamond(a, b, c, d)), bs) && |Flatten(bs)| == 4
    ensures Flatten(bs) == [a, b, c, d]
  {
    DiamondReady(a, b, c, d);
    DiamondShapedLevels(TaskMap(Diamond(a, b, c, d)), bs, a, b, c, d);
  }

  /** When `a` alone is ready first, then `b` and `c`, then `d`, the schedule of four tasks is
      `a`, the two middle tasks by key, then `d`. */
  lemma DiamondShapedLevels(m: map<string, TaskItem>, bs: seq<seq<string>>, a: string, b: string, c: string, d: string)
    requires Distinct4(a, b, c, d)
    requires Levels(m, bs) && |Flatten(bs)| == 4
    requires Ready(m, {}) == {a} && Ready(m, {a}) == {b, c} && Ready(m, {a, b, c}) == {d}
    requires b in m && c in m && !KeyLe(m[c], m[b])
    ensures Flatten(bs) == [a, b, c, d]
  {
    assert |bs| > 0;
    LevelsAt(m, bs, 0);
    assert Elems(Flatten(bs[..0])) == {};
    FrontierOfOne(m, {}, bs[0], a);
    FlattenSnoc(bs, 0);
    assert Flatten(bs[..1]) == [a];

    assert |bs| > 1 by {
      if |bs| == 1 { FlattenFull(bs); }
    }
    LevelsAt(m, bs, 1);
    assert Elems([a]) == {a};
    FrontierOfTwo(m, {a}, bs[1], b, c);
    FlattenSnoc(bs, 1);
    assert Flatten(bs[..2]) == [a, b, c];

    assert |bs| > 2 by {
      if |bs| == 2 { FlattenFull(bs); }
    }
    LevelsAt(m, bs, 2);
    assert Elems([a, b, c]) == {a, b, c};
    FrontierOfOne(m, {a, b, c}, bs[2], d);
    FlattenSnoc(bs, 2);
    assert Flatten(bs[..3]) == [a, b, c, d];

    if |bs| > 3 {
      LevelsAt(m, bs, 3);
      FlattenSnoc(bs, 3);
      FlattenLength(bs, 4);
      assert false;
    }
    FlattenFull(bs);
  }

  /** A frontier with a single ready task is that task alone. */
  lemma FrontierOfOne(m: map<string, TaskItem>, done: set<string>, batch: seq<string>, x: string)
    requires IsFrontier(m, done, batch) && Ready(m, done) == {x}
    ensures batch == [x]
  {
    NoDupsCardinality(batch);
    assert batch[0] in Elems(batch);
  }

  /** A frontier with two ready tasks lists them in (due date, hours) order. */
  lemma FrontierOfTwo(m: map<string, TaskItem>, done: set<string>, batch: seq<string>, x: string, y: string)
    requires IsFrontier(m, done, batch) && Ready(m, done) == {x, y} && x != y
    requires x in m && y in m && !KeyLe(m[y], m[x])
    ensures batch == [x, y]
  {
    NoDupsCardinality(batch);
    assert batch[0] in Elems(batch) && batch[1] in Elems(batch);
    assert KeyLe(m[batch[0]], m[batch[1]]);
  }

  /** Three tasks without dependencies, listed latest due date first. */
  function Independent(a: string, b: string, c: string): seq<TaskItem>
  {
    [TaskItem(c, 4, 3, []), TaskItem(a, 4, 1, []), TaskItem(b, 4, 2, [])]
  }

  /** The dictionary of the independent tasks, written out. */
  lemma IndependentMap(a: string, b: string, c: string)
    requires a != b && b != c && a != c
    ensures DistinctTitles(Independent(a, b, c))
    ensures TaskMap(Independent(a, b, c)) ==
              map[c := Independent(a, b, c)[0], a := Independent(a, b, c)[1], b := Independent(a, b, c)[2]]
  {
    var tasks := Independent(a, b, c);
    assert Titles(tasks) == {a, b, c} by {
      assert tasks[0].title in Titles(tasks) && tasks[1].title in Titles(tasks) && tasks[2].title in Titles(tasks);
    }
  }

  /** Independent tasks form a single batch, so a level-by-level schedule of them lists them by
      due date, whatever their input order. */
  lemma IndependentScenario(a: string, b: string, c: string, bs: seq<seq<string>>)
    requires a != b && b != c && a != c
    requires Levels(TaskMap(Independent(a, b, c)), bs) && |Flatten(bs)| == 3
    ensures Flatten(bs) == [a, b, c]
  {
    IndependentMap(a, b, c);
    var m := TaskMap(Independent(a, b, c));
    assert |bs| > 0;
    FirstBatch(m, bs);
    var batch := bs[0];
    assert Elems(batch) == {a, b, c};
    LevelsAt(m, bs, 0);
    assert NoDups(batch) && SortedByKeys(m, batch);
    NoDupsCardinality(batch);
    FlattenHead(bs);
    assert Flatten(bs) == batch;
    assert batch[0] in Elems(batch) && batch[1] in Elems(batch) && batch[2] in Elems(batch);
    assert KeyLe(m[batch[0]], m[batch[1]]) && KeyLe(m[batch[1]], m[batch[2]]);
  }

  /** A reordering of a list without repeats has the same length, no repeats, and only
      its elements. */
  lemma PermutationFacts(order: seq<string>, titles: seq<string>)
    requires NoDups(titles) && multiset(order) == multiset(titles)
    ensures |order| == |titles| && NoDups(order)
    ensures forall k :: 0 <= k < |order| ==> order[k] in titles
  {
    assert |order| == |multiset(order)| == |multiset(titles)| == |titles|;
    PermutationNoDups(titles, order);
    forall k | 0 <= k < |order| ensures order[k] in titles {
      assert order[k] in multiset(order);
    }
  }

  /** In an order that respects dependencies, a dependency of `order[k]` sits at an earlier position. */
  lemma DependencyBefore(m: map<string, TaskItem>, order: seq<string>, k: nat, d: string) returns (i: nat)
    requires RespectsDependencies(m, order) && k < |order| && order[k] in m && d in m[order[k]].dependencies
    ensures i < k && order[i] == d
  {
    assert d in order[..k];
    i :| 0 <= i < k && order[..k][i] == d;
  }

  /** The batches up to `k` are those before `k` followed by batch `k`. */
  lemma FlattenSnoc<T>(bs: seq<seq<T>>, k: nat)
    requires k < |bs|
    ensures Flatten(bs[..k + 1]) == Flatten(bs[..k]) + bs[k]
  {
    assert bs[..k + 1][..k] == bs[..k];
  }

  /** The prefix of all the batches is the whole schedule. */
  lemma FlattenFull<T>(bs: seq<seq<T>>)
    ensures Flatten(bs[..|bs|]) == Flatten(bs)
  {
    assert bs[..|bs|] == bs;
  }

  /** The concatenation of a prefix of the batches is no longer than the concatenation of all. */
  lemma {:induction false} FlattenLength<T>(bs: seq<seq<T>>, k: nat)
    requires k <= |bs|
    ensures |Flatten(bs[..k])| <= |Flatten(bs)|
  {
    if k < |bs| {
      var n := |bs| - 1;
      FlattenLength(bs[..n], k);
      assert bs[..n][..k] == bs[..k];
      assert bs[..n + 1] == bs;
      FlattenSnoc(bs, n);
    } else {
      assert bs[..k] == bs;
    }
  }

  /** The first batch leads the concatenation of the batches. */
  lemma {:induction false} FlattenHead<T>(bs: seq<seq<T>>)
    requires |bs| > 0
    ensures |bs[0]| <= |Flatten(bs)| && Flatten(bs)[..|bs[0]|] == bs[0]
  {
    if |bs| > 1 {
      var n := |bs| - 1;
      FlattenHead(bs[..n]);
      assert bs[..n][0] == bs[0];
      assert Flatten(bs) == Flatten(bs[..n]) + bs[n];
    }
  }
}
