/** Cutting a sequence into maximal runs of neighbours that join. */
module Runs {

  ghost predicate IsRun<T(!new)>(run: seq<T>, joins: (T, T) -> bool) {
    && run != []
    && forall k :: 0 <= k < |run| - 1 ==> joins(run[k], run[k + 1])
  }

  function Flatten<T>(runs: seq<seq<T>>): seq<T> {
    if runs == [] then [] else Flatten(runs[..|runs| - 1]) + runs[|runs| - 1]
  }

  /** `s` cut where, and only where, neighbours do not join. */
  ghost predicate AreRuns<T(!new)>(s: seq<T>, runs: seq<seq<T>>, joins: (T, T) -> bool) {
    && Flatten(runs) == s
    && (forall i :: 0 <= i < |runs| ==> IsRun(runs[i], joins))
    && (forall i :: 0 <= i < |runs| - 1 ==> !joins(runs[i][|runs[i]| - 1], runs[i + 1][0]))
  }

  /** The next element joins the last run. */
  lemma RunGrows<T(!new)>(s: seq<T>, runs: seq<seq<T>>, joins: (T, T) -> bool, x: T)
    requires AreRuns(s, runs, joins) && runs != []
    requires joins(runs[|runs| - 1][|runs[|runs| - 1]| - 1], x)
    ensures AreRuns(s + [x], runs[|runs| - 1 := runs[|runs| - 1] + [x]], joins)
  {
    var last := |runs| - 1;
    var run := runs[last];
    var runs' := runs[last := run + [x]];
    assert runs'[..last] == runs[..last];
    assert Flatten(runs') == Flatten(runs) + [x];
    assert forall k :: 0 <= k < |run| ==> runs'[last][k] == run[k];
  }

  /** The next element opens a run. */
  lemma RunStarts<T(!new)>(s: seq<T>, runs: seq<seq<T>>, joins: (T, T) -> bool, x: T)
    requires AreRuns(s, runs, joins)
    requires runs != [] ==> !joins(runs[|runs| - 1][|runs[|runs| - 1]| - 1], x)
    ensures AreRuns(s + [x], runs + [[x]], joins)
  {
    assert (runs + [[x]])[..|runs|] == runs;
  }

  lemma {:induction false} FlattenSplit<T>(runs: seq<seq<T>>)
    requires runs != []
    ensures Flatten(runs) == runs[0] + Flatten(runs[1..])
  {
    if |runs| > 1 {
      FlattenSplit(runs[..|runs| - 1]);
      assert runs[..|runs| - 1][1..] == runs[1..][..|runs| - 2];
    } else {
      assert runs[..0] == [];
    }
  }

  /** The first run is the longest joining prefix. */
  lemma FirstRun<T(!new)>(s: seq<T>, runs: seq<seq<T>>, joins: (T, T) -> bool)
    requires AreRuns(s, runs, joins) && runs != []
    ensures var n := |runs[0]|;
            && n <= |s| && (forall k :: 0 < k < n ==> joins(s[k - 1], s[k]))
            && (n < |s| ==> !joins(s[n - 1], s[n]))
  {
    FlattenSplit(runs);
    forall k | 0 < k < |runs[0]| ensures joins(s[k - 1], s[k]) {
      assert joins(runs[0][k - 1], runs[0][k - 1 + 1]);
    }
    if |runs| > 1 {
      FlattenSplit(runs[1..]);
      assert !joins(runs[0][|runs[0]| - 1], runs[0 + 1][0]);
    }
  }

  /** There is only one way to cut. */
  lemma {:induction false} RunsAreUnique<T(!new)>(s: seq<T>, a: seq<seq<T>>, b: seq<seq<T>>, joins: (T, T) -> bool)
    requires AreRuns(s, a, joins) && AreRuns(s, b, joins)
    ensures a == b
    decreases |a|
  {
    if a != [] { FlattenSplit(a); }
    if b != [] { FlattenSplit(b); }
    if a != [] && b != [] {
      FirstRun(s, a, joins);
      FirstRun(s, b, joins);
      assert a[0] == s[..|a[0]|] == b[0];
      assert Flatten(a[1..]) == s[|a[0]|..] == Flatten(b[1..]);
      RunsAreUnique(s[|a[0]|..], a[1..], b[1..], joins);
      assert a == [a[0]] + a[1..] && b == [b[0]] + b[1..];
    }
  }

  /** Where a run's elements stand in the sequence. */
  lemma {:induction false} RunPosition<T>(runs: seq<seq<T>>, i: nat, k: nat)
    requires i < |runs| && k < |runs[i]|
    ensures |Flatten(runs[..i])| + k < |Flatten(runs)|
    ensures Flatten(runs)[|Flatten(runs[..i])| + k] == runs[i][k]
    decreases |runs|
  {
    if i + 1 < |runs| {
      RunPosition(runs[..|runs| - 1], i, k);
      assert runs[..|runs| - 1][..i] == runs[..i];
    }
  }

  lemma {:induction false} FlattenSingles<T>(s: seq<T>, singles: seq<seq<T>>)
    requires |singles| == |s| && forall i :: 0 <= i < |s| ==> singles[i] == [s[i]]
    ensures Flatten(singles) == s
  {
    if s != [] {
      FlattenSingles(s[..|s| - 1], singles[..|s| - 1]);
      assert s == s[..|s| - 1] + [s[|s| - 1]];
    }
  }

  // ---------- Which neighbours stand in one run ----------

  /** The `p`-th element and the next stand in one run. */
  ghost predicate Together<T(!new)>(runs: seq<seq<T>>, p: nat) {
    exists i :: 0 <= i < |runs| && Within(runs, i, p)
  }

  ghost predicate Within<T(!new)>(runs: seq<seq<T>>, i: nat, p: nat)
    requires i < |runs|
  {
    |Flatten(runs[..i])| <= p && p + 1 < |Flatten(runs[..i])| + |runs[i]|
  }

  lemma {:induction false} TogetherIff<T(!new)>(s: seq<T>, runs: seq<seq<T>>, joins: (T, T) -> bool, p: nat)
    requires AreRuns(s, runs, joins) && p + 1 < |s|
    ensures Together(runs, p) <==> joins(s[p], s[p + 1])
    decreases |runs|
  {
    var last := |runs| - 1;
    var front, run := Flatten(runs[..last]), runs[last];
    assert IsRun(run, joins) && s == front + run;
    if p + 1 < |front| {
      TogetherIff(front, runs[..last], joins, p);
      TogetherInFront(runs, p);
    } else {
      if p < |front| {
        assert last > 0 && !joins(runs[last - 1][|runs[last - 1]| - 1], runs[last - 1 + 1][0]);
        assert runs[..last][..last - 1] == runs[..last - 1];
        assert s[p] == front[|front| - 1] == runs[last - 1][|runs[last - 1]| - 1];
      } else {
        assert joins(run[p - |front|], run[p - |front| + 1]);
      }
      TogetherAtEnd(runs, p);
    }
  }

  lemma TogetherInFront<T(!new)>(runs: seq<seq<T>>, p: nat)
    requires runs != [] && p + 1 < |Flatten(runs[..|runs| - 1])|
    ensures Together(runs, p) <==> Together(runs[..|runs| - 1], p)
  {
    var front := runs[..|runs| - 1];
    assert forall i :: 0 <= i <= |front| ==> front[..i] == runs[..i];
    if Together(front, p) {
      var i :| 0 <= i < |front| && Within(front, i, p);
      assert Within(runs, i, p);
    }
    if Together(runs, p) {
      var i :| 0 <= i < |runs| && Within(runs, i, p);
      assert Within(front, i, p);
    }
  }

  lemma TogetherAtEnd<T(!new)>(runs: seq<seq<T>>, p: nat)
    requires runs != [] && |Flatten(runs[..|runs| - 1])| <= p + 1 < |Flatten(runs)|
    ensures Together(runs, p) <==> p >= |Flatten(runs[..|runs| - 1])|
  {
    var last := |runs| - 1;
    forall i | 0 <= i < last ensures |Flatten(runs[..i])| + |runs[i]| <= |Flatten(runs[..last])| {
      assert runs[..last][..i + 1] == runs[..i + 1] && runs[..i + 1][..i] == runs[..i];
      FlattenGrows(runs[..last], i + 1);
    }
    if p >= |Flatten(runs[..last])| { assert Within(runs, last, p); }
  }

  lemma {:induction false} FlattenGrows<T>(runs: seq<seq<T>>, i: nat)
    requires i <= |runs|
    ensures |Flatten(runs[..i])| <= |Flatten(runs)|
  {
    if i < |runs| {
      FlattenGrows(runs[..|runs| - 1], i);
      assert runs[..|runs| - 1][..i] == runs[..i];
    } else {
      assert runs[..i] == runs;
    }
  }
}
