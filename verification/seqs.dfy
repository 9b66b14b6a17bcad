/** Facts about sequences of titles: elements, repetition, concatenation of batches. */
module Seqs {

  /** The elements of `s`, as a set. */
  function Elems<T(==)>(s: seq<T>): set<T>
  {
    set x | x in s
  }

  /** No element occurs twice in `s`. */
  predicate NoDups<T(==)>(s: seq<T>)
  {
    forall i, j :: 0 <= i < j < |s| ==> s[i] != s[j]
  }

  /** The batches laid end to end, first batch first. */
  function Flatten<T(==)>(bs: seq<seq<T>>): seq<T>
  {
    if |bs| == 0 then [] else Flatten(bs[..|bs| - 1]) + bs[|bs| - 1]
  }

  lemma FlattenAppend<T>(bs: seq<seq<T>>, b: seq<T>)
    ensures Flatten(bs + [b]) == Flatten(bs) + b
  {
    assert (bs + [b])[..|bs|] == bs;
  }

  /** In a sequence without repeats, every element occurs exactly once. */
  lemma {:induction false} NoDupsMultiplicity<T>(s: seq<T>)
    requires NoDups(s)
    ensures forall x :: multiset(s)[x] == if x in s then 1 else 0
  {
    if |s| > 0 {
      var n := |s| - 1;
      NoDupsMultiplicity(s[..n]);
      assert s == s[..n] + [s[n]];
      assert s[n] !in s[..n];
      forall x ensures multiset(s)[x] == if x in s then 1 else 0 {
        assert multiset(s) == multiset(s[..n]) + multiset{s[n]};
        assert x in s <==> x in s[..n] || x == s[n];
      }
    }
  }

  /** A sequence in which every element occurs at most once has no repeats. */
  lemma MultiplicityNoDups<T>(s: seq<T>)
    requires forall x :: multiset(s)[x] <= 1
    ensures NoDups(s)
  {
    forall i, j | 0 <= i < j < |s| ensures s[i] != s[j] {
      var x := s[j];
      assert s == s[..j] + s[j..];
      assert multiset(s)[x] == multiset(s[..j])[x] + multiset(s[j..])[x];
      assert s[j..][0] == x;
      assert multiset(s[..j])[x] == 0;
      assert s[..j][i] == s[i];
    }
  }

  /** Two sequences without repeats and without common elements concatenate without repeats. */
  lemma NoDupsAppend<T>(a: seq<T>, b: seq<T>)
    requires NoDups(a) && NoDups(b)
    requires forall x :: x in b ==> x !in a
    ensures NoDups(a + b)
  {
    forall i, j | 0 <= i < j < |a + b| ensures (a + b)[i] != (a + b)[j] {
      if i < |a| && j >= |a| {
        assert (a + b)[j] == b[j - |a|] && b[j - |a|] in b;
      }
    }
  }

  /** The elements of a concatenation are those of its parts. */
  lemma ElemsAppend<T>(a: seq<T>, b: seq<T>)
    ensures Elems(a + b) == Elems(a) + Elems(b)
  {
    forall x | x in a + b ensures x in a || x in b { }
  }

  /** Reordering preserves the set of elements. */
  lemma PermutationElems<T>(a: seq<T>, b: seq<T>)
    requires multiset(a) == multiset(b)
    ensures Elems(a) == Elems(b)
  {
    forall x ensures x in a <==> x in b {
      assert x in a <==> x in multiset(a);
      assert x in b <==> x in multiset(b);
    }
  }

  /** Reordering preserves the absence of repeats. */
  lemma PermutationNoDups<T>(a: seq<T>, b: seq<T>)
    requires NoDups(a) && multiset(a) == multiset(b)
    ensures NoDups(b)
  {
    NoDupsMultiplicity(a);
    MultiplicityNoDups(b);
  }

  /** Two sequences without repeats and with the same elements are permutations of each other. */
  lemma SameElemsPermutation<T>(a: seq<T>, b: seq<T>)
    requires NoDups(a) && NoDups(b) && Elems(a) == Elems(b)
    ensures multiset(a) == multiset(b)
  {
    NoDupsMultiplicity(a);
    NoDupsMultiplicity(b);
    forall x ensures multiset(a)[x] == multiset(b)[x] {
      assert x in a <==> x in Elems(a);
      assert x in b <==> x in Elems(b);
    }
  }

  /** A sequence without repeats has as many distinct elements as positions. */
  lemma {:induction false} NoDupsCardinality<T>(s: seq<T>)
    requires NoDups(s)
    ensures |Elems(s)| == |s|
  {
    if |s| > 0 {
      var n := |s| - 1;
      NoDupsCardinality(s[..n]);
      assert Elems(s) == Elems(s[..n]) + {s[n]} by {
        assert s == s[..n] + [s[n]];
      }
      assert s[n] !in Elems(s[..n]);
    }
  }

  /** A sequence longer than the set it is drawn from repeats an element. */
  lemma {:induction false} Pigeonhole<T>(s: seq<T>, S: set<T>) returns (i: nat, j: nat)
    requires forall k :: 0 <= k < |s| ==> s[k] in S
    requires |s| > |S|
    ensures i < j < |s| && s[i] == s[j]
  {
    if s[0] in s[1..] {
      var k :| 1 <= k < |s| && s[k] == s[0];
      i, j := 0, k;
    } else {
      var rest := S - {s[0]};
      forall k | 0 <= k < |s[1..]| ensures s[1..][k] in rest {
        assert s[1..][k] == s[k + 1];
      }
      var a, b := Pigeonhole(s[1..], rest);
      i, j := a + 1, b + 1;
    }
  }

  /** A subset of a finite set with as many elements is the whole set. */
  lemma SubsetSameSize<T>(A: set<T>, B: set<T>)
    requires A <= B && |A| == |B|
    ensures A == B
  {
    if A != B {
      var x :| x in B && x !in A;
      assert A <= B - {x};
      assert |B - {x}| == |B| - 1;
      SubsetSize(A, B - {x});
    }
  }

  lemma {:induction false} SubsetSize<T>(A: set<T>, B: set<T>)
    requires A <= B
    ensures |A| <= |B|
  {
    assert B == A + (B - A);
    assert A * (B - A) == {};
  }
}
