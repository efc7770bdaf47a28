/** Coalescing consecutive identical activity entries of the mobile timeline. */
module TimelineCoalesce {

  import opened Numbers
  import opened Runs
  import opened Timeline
  import opened Wrappers

  const COALESCE_MS := 120_000
  const NO_TIME_LIMIT_ACTIONS: set<string> := {"task_completed", "task_failed"}
  const NEVER_COALESCE_ACTIONS: set<string> := {"squad_leader_evaluated"}

  /** Everything but the clock: the two entries tell of the same thing. */
  predicate SameEvent(prev: Entry, entry: Entry) {
    && entry.kind == Activity && prev.kind == Activity
    && OrEmpty(entry.action) !in NEVER_COALESCE_ACTIONS
    && prev.action == entry.action && prev.actorType == entry.actorType && prev.actorId == entry.actorId
  }

  predicate Mergeable(prev: Entry, entry: Entry) {
    && SameEvent(prev, entry)
    && (OrEmpty(entry.action) in NO_TIME_LIMIT_ACTIONS || Abs(entry.createdAt - prev.createdAt) <= COALESCE_MS)
  }

  function Count(e: Entry): nat { if e.coalescedCount.Some? then e.coalescedCount.value else 1 }

  // ---------- The specification: maximal mergeable runs ----------

  /** What stands for a run: its newest entry, counting the whole run. */
  function Collapse(run: seq<Entry>): Entry
    requires run != []
  {
    if |run| == 1 then run[0] else run[|run| - 1].(coalescedCount := Some(Count(run[0]) + |run| - 1))
  }

  ghost predicate Coalesces(entries: seq<Entry>, out: seq<Entry>, runs: seq<seq<Entry>>) {
    && AreRuns(entries, runs, Mergeable)
    && |out| == |runs|
    && forall i :: 0 <= i < |runs| ==> out[i] == Collapse(runs[i])
  }

  /** `coalesceTimeline`.  The runs its output stands for are unique (`RunsAreUnique`). */
  method CoalesceTimeline(entries: seq<Entry>) returns (out: seq<Entry>)
    ensures exists runs :: Coalesces(entries, out, runs)
  {
    out := [];
    ghost var runs: seq<seq<Entry>> := [];
    for i := 0 to |entries|
      invariant Coalesces(entries[..i], out, runs)
    {
      var entry := entries[i];
      assert entries[..i + 1] == entries[..i] + [entry];
      if out != [] && Mergeable(out[|out| - 1], entry) {
        RunGrows(entries[..i], runs, Mergeable, entry);
        runs := runs[|runs| - 1 := runs[|runs| - 1] + [entry]];
        out := out[|out| - 1 := entry.(coalescedCount := Some(Count(out[|out| - 1]) + 1))];
      } else {
        RunStarts(entries[..i], runs, Mergeable, entry);
        runs := runs + [[entry]];
        out := out + [entry];
      }
    }
    assert entries[..|entries|] == entries;
  }

  // ---------- Counts agree ----------

  function Total(es: seq<Entry>): nat {
    if es == [] then 0 else Total(es[..|es| - 1]) + Count(es[|es| - 1])
  }

  /** On entries nobody counted before, the counts in the output add up to the input's length. */
  lemma {:induction false} CountsAddUp(entries: seq<Entry>, out: seq<Entry>, runs: seq<seq<Entry>>)
    requires Coalesces(entries, out, runs) && forall e <- entries :: Count(e) == 1
    ensures Total(out) == |entries|
    decreases |runs|
  {
    if runs != [] {
      var last := |runs| - 1;
      var front, run := Flatten(runs[..last]), runs[last];
      assert entries == front + run && run[0] in entries;
      assert forall e <- front :: e in entries;
      CountsAddUp(front, out[..last], runs[..last]);
      assert Count(Collapse(run)) == |run|;
    }
  }

  // ---------- Which entries merge, on the entries' own fields ----------

  /** Neighbours are merged exactly when both are activities with one action, actor type and
      actor, the action is not the squad leader's evaluation, and it is the end of a task or
      they are at most two minutes apart. */
  lemma NeighboursMergeIff(entries: seq<Entry>, out: seq<Entry>, runs: seq<seq<Entry>>, p: nat)
    requires Coalesces(entries, out, runs) && p + 1 < |entries|
    ensures var a, b := entries[p], entries[p + 1];
            Together(runs, p) <==>
              && a.kind == Activity && b.kind == Activity
              && a.action == b.action && a.actorType == b.actorType && a.actorId == b.actorId
              && b.action != Some("squad_leader_evaluated")
              && (b.action == Some("task_completed") || b.action == Some("task_failed")
                  || -120_000 <= b.createdAt - a.createdAt <= 120_000)
  {
    TogetherIff(entries, runs, Mergeable, p);
  }

  /** A run is shown by its last entry, unchanged if it is alone, and else counting what the
      first entry counted and one for each later entry. */
  lemma RunIsShownBy(entries: seq<Entry>, out: seq<Entry>, runs: seq<seq<Entry>>, i: nat)
    requires Coalesces(entries, out, runs) && i < |out|
    ensures var run := runs[i];
            && run != []
            && (|run| == 1 ==> out[i] == run[0])
            && out[i] == run[|run| - 1].(coalescedCount := out[i].coalescedCount)
            && (|run| > 1 ==>
                  out[i].coalescedCount ==
                  Some((match run[0].coalescedCount case Some(n) => n case None => 1) + |run| - 1))
  {
    assert IsRun(runs[i], Mergeable);
  }

  // ---------- Coalescing twice ----------

  ghost predicate Chronological(entries: seq<Entry>) {
    forall i, j :: 0 <= i < j < |entries| ==> entries[i].createdAt <= entries[j].createdAt
  }

  lemma {:induction false} RunIsOneEvent(run: seq<Entry>, k: nat)
    requires IsRun(run, Mergeable) && 0 < k < |run|
    ensures SameEvent(run[0], run[k])
  {
    if k > 1 { RunIsOneEvent(run, k - 1); }
  }

  /** Chronological input leaves no two neighbours that could still merge. */
  lemma NoMergeableNeighbours(entries: seq<Entry>, out: seq<Entry>, runs: seq<seq<Entry>>, i: nat)
    requires Coalesces(entries, out, runs) && Chronological(entries) && i + 1 < |out|
    ensures !Mergeable(out[i], out[i + 1])
  {
    var a, b := runs[i], runs[i + 1];
    RunPosition(runs, i, |a| - 1);
    RunPosition(runs, i + 1, 0);
    RunPosition(runs, i + 1, |b| - 1);
    assert runs[..i + 1][..i] == runs[..i];
    if |b| > 1 { RunIsOneEvent(b, |b| - 1); }
  }

  predicate LastsMerge(x: seq<Entry>, y: seq<Entry>) {
    x != [] && y != [] && Mergeable(x[|x| - 1], y[|y| - 1])
  }

  /** No two neighbouring runs end in entries that would merge. */
  ghost predicate LastsApart(runs: seq<seq<Entry>>) {
    forall i :: 0 <= i < |runs| - 1 ==> !LastsMerge(runs[i], runs[i + 1])
  }

  lemma LastsDecide(x: seq<Entry>, y: seq<Entry>)
    requires x != [] && y != []
    ensures Mergeable(Collapse(x), Collapse(y)) == LastsMerge(x, y)
  {
  }

  lemma OutputsApart(entries: seq<Entry>, out: seq<Entry>, runs: seq<seq<Entry>>)
    requires Coalesces(entries, out, runs)
    ensures LastsApart(runs) <==> forall i :: 0 <= i < |out| - 1 ==> !Mergeable(out[i], out[i + 1])
  {
    forall i | 0 <= i < |runs| - 1 ensures Mergeable(out[i], out[i + 1]) == LastsMerge(runs[i], runs[i + 1]) {
      assert IsRun(runs[i], Mergeable) && IsRun(runs[i + 1], Mergeable);
      LastsDecide(runs[i], runs[i + 1]);
    }
  }

  lemma {:induction false} RunsFit(runs: seq<seq<Entry>>)
    requires forall i :: 0 <= i < |runs| ==> runs[i] != []
    ensures |Flatten(runs)| >= |runs|
    ensures |Flatten(runs)| == |runs| ==> forall i :: 0 <= i < |runs| ==> |runs[i]| == 1
  {
    if runs != [] { RunsFit(runs[..|runs| - 1]); }
  }

  /** A list is its own coalescing exactly when no neighbours merge. */
  lemma UnchangedIffApart(out: seq<Entry>, again: seq<Entry>, runs: seq<seq<Entry>>)
    requires Coalesces(out, again, runs)
    ensures again == out <==> forall i :: 0 <= i < |out| - 1 ==> !Mergeable(out[i], out[i + 1])
  {
    if forall i :: 0 <= i < |out| - 1 ==> !Mergeable(out[i], out[i + 1]) {
      var singles := seq(|out|, i requires 0 <= i < |out| => [out[i]]);
      FlattenSingles(out, singles);
      RunsAreUnique(out, runs, singles, Mergeable);
    }
    if again == out {
      assert forall i :: 0 <= i < |runs| ==> IsRun(runs[i], Mergeable);
      RunsFit(runs);
      forall i | 0 <= i < |out| - 1 ensures !Mergeable(out[i], out[i + 1]) {
        assert runs[i][|runs[i]| - 1] == again[i] && runs[i + 1][0] == again[i + 1];
      }
    }
  }

  /** Coalescing a coalesced timeline changes nothing exactly when no two neighbouring runs of
      the first pass end in mergeable entries. */
  lemma SecondPassChangesNothingIff(entries: seq<Entry>, out: seq<Entry>, runs: seq<seq<Entry>>,
                                    again: seq<Entry>, runs': seq<seq<Entry>>)
    requires Coalesces(entries, out, runs) && Coalesces(out, again, runs')
    ensures again == out <==> LastsApart(runs)
  {
    OutputsApart(entries, out, runs);
    UnchangedIffApart(out, again, runs');
  }

  /** So it changes nothing on chronological input. */
  lemma CoalescingTwice(entries: seq<Entry>, out: seq<Entry>, runs: seq<seq<Entry>>,
                        again: seq<Entry>, runs': seq<seq<Entry>>)
    requires Coalesces(entries, out, runs) && Chronological(entries) && Coalesces(out, again, runs')
    ensures again == out
  {
    forall i | 0 <= i < |out| - 1 ensures !Mergeable(out[i], out[i + 1]) {
      NoMergeableNeighbours(entries, out, runs, i);
    }
    UnchangedIffApart(out, again, runs');
  }

  lemma OneRun(run: seq<Entry>, again: seq<Entry>, runs: seq<seq<Entry>>)
    requires IsRun(run, Mergeable) && Coalesces(run, again, runs)
    ensures again == [Collapse(run)]
  {
    assert Flatten([run]) == run by { assert [run][..0] == []; }
    RunsAreUnique(run, runs, [run], Mergeable);
  }

  /** Out of order it can change something: the second entry of a run may come back within two
      minutes of an entry the first one was too far from.  The second pass then also forgets
      the run's count. */
  lemma OutOfOrderCoalescesTwice(a: Entry, b: Entry, c: Entry, again: seq<Entry>, runs: seq<seq<Entry>>)
    requires SameEvent(a, b) && SameEvent(b, c) && OrEmpty(a.action) == "status_changed"
    requires a.createdAt == 0 && b.createdAt == 200_000 && c.createdAt == 100_000
    requires Coalesces([a, Collapse([b, c])], again, runs)
    ensures Coalesces([a, b, c], [a, Collapse([b, c])], [[a], [b, c]])
    ensures again == [c.(coalescedCount := Some(Count(a) + 1))]
  {
    OutOfOrderRuns(a, b, c);
    OneRun([a, Collapse([b, c])], again, runs);
  }

  lemma OutOfOrderRuns(a: Entry, b: Entry, c: Entry)
    requires SameEvent(a, b) && SameEvent(b, c) && OrEmpty(a.action) == "status_changed"
    requires a.createdAt == 0 && b.createdAt == 200_000 && c.createdAt == 100_000
    ensures Coalesces([a, b, c], [a, Collapse([b, c])], [[a], [b, c]])
  {
    var runs := [[a], [b, c]];
    assert runs[..1] == [[a]] && Flatten([[a]]) == [a] by { assert [[a]][..0] == []; }
    assert Flatten(runs) == [a, b, c];
    assert !Mergeable(runs[0][0], runs[1][0]);
  }
}
