/** The order imposed on one batch of simultaneously eligible tasks: earlier due date first,
    then fewer estimated hours. */
module BatchOrder {
  import opened Tasks

  /** `a` may come before `b`: its due date is earlier, or the same with no more estimated hours. */
  predicate KeyLe(a: TaskItem, b: TaskItem)
  {
    a.dueDate < b.dueDate || (a.dueDate == b.dueDate && a.estimatedHours <= b.estimatedHours)
  }

  /** Every title of `b` names a task of `m`, and the titles are in non-decreasing
      (due date, estimated hours) order. */
  predicate SortedByKeys(m: map<string, TaskItem>, b: seq<string>)
  {
    (forall x :: x in b ==> x in m) &&
    forall i, j :: 0 <= i < j < |b| ==> KeyLe(m[b[i]], m[b[j]])
  }

  /** A title whose key is not greater than any key of a sorted batch may lead it. */
  lemma SortedCons(m: map<string, TaskItem>, y: string, s: seq<string>)
    requires y in m && SortedByKeys(m, s)
    requires forall j :: 0 <= j < |s| ==> KeyLe(m[y], m[s[j]])
    ensures SortedByKeys(m, [y] + s)
  {
    forall i, j | 0 <= i < j < |[y] + s| ensures KeyLe(m[([y] + s)[i]], m[([y] + s)[j]]) {
      assert ([y] + s)[j] == s[j - 1];
      if i > 0 { assert ([y] + s)[i] == s[i - 1]; }
    }
  }

  /** The head of a sorted batch has a key not greater than anything drawn from the rest of the
      batch or from a title it may precede. */
  lemma HeadBelow(m: map<string, TaskItem>, s: seq<string>, x: string, r: seq<string>)
    requires |s| > 0 && x in m && SortedByKeys(m, s) && KeyLe(m[s[0]], m[x])
    requires forall y :: y in r ==> y in m && (y == x || y in s[1..])
    ensures forall j :: 0 <= j < |r| ==> KeyLe(m[s[0]], m[r[j]])
  {
    forall j | 0 <= j < |r| ensures KeyLe(m[s[0]], m[r[j]]) {
      assert r[j] in r;
      if r[j] != x {
        var k :| 0 <= k < |s[1..]| && s[1..][k] == r[j];
        assert s[k + 1] == r[j];
      }
    }
  }

  /** Inserts `x` into the sorted `s` after every title whose key is not greater. */
  function Insert(m: map<string, TaskItem>, x: string, s: seq<string>): (r: seq<string>)
    requires x in m && SortedByKeys(m, s)
    ensures multiset(r) == multiset(s) + multiset{x}
    ensures forall y :: y in r ==> y == x || y in s
    ensures SortedByKeys(m, r)
  {
    if |s| == 0 then [x]
    else if KeyLe(m[s[0]], m[x]) then
      assert s == [s[0]] + s[1..];
      var tail := Insert(m, x, s[1..]);
      HeadBelow(m, s, x, tail);
      SortedCons(m, s[0], tail);
      [s[0]] + tail
    else
      assert forall j :: 0 <= j < |s| ==> KeyLe(m[x], m[s[j]]) by {
        forall j | 0 <= j < |s| ensures KeyLe(m[x], m[s[j]]) {
          if j > 0 { assert KeyLe(m[s[0]], m[s[j]]); }
        }
      }
      SortedCons(m, x, s);
      [x] + s
  }

  /** The batch reordered by (due date, estimated hours), by insertion; nothing is promised
      about the relative order of titles whose two keys are equal. */
  function SortBatch(m: map<string, TaskItem>, b: seq<string>): (r: seq<string>)
    requires forall x :: x in b ==> x in m
    ensures multiset(r) == multiset(b)
    ensures SortedByKeys(m, r)
  {
    if |b| == 0 then []
    else
      var n := |b| - 1;
      assert b == b[..n] + [b[n]];
      Insert(m, b[n], SortBatch(m, b[..n]))
  }
}
