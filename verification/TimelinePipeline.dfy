/** The rows of the issue screen: the timeline is coalesced, then threaded. */
module TimelinePipeline {

  import opened Runs
  import opened Timeline
  import opened TimelineCoalesce
  import opened TimelineCounts
  import opened TimelineThread
  import opened Wrappers

  method Rows(entries: seq<Entry>) returns (rows: seq<Row>)
    requires UniqueComments(entries)
    ensures exists out, runs :: Coalesces(entries, out, runs) && AreRows(out, rows)
  {
    var out := CoalesceTimeline(entries);
    ghost var runs :| Coalesces(entries, out, runs);
    CommentsSurvive(entries, out, runs);
    CommentsDecideUniqueness(entries);
    CommentsDecideUniqueness(out);
    rows := BuildTimelineRows(out);
  }

  // ---------- Coalescing keeps the comments ----------

  ghost function Comments(es: seq<Entry>): seq<Entry> {
    if es == [] then [] else Comments(es[..|es| - 1]) + if es[|es| - 1].kind == Comment then [es[|es| - 1]] else []
  }

  lemma {:induction false} CommentsConcat(a: seq<Entry>, b: seq<Entry>)
    ensures Comments(a + b) == Comments(a) + Comments(b)
  {
    if b == [] {
      assert a + b == a;
    } else {
      assert (a + b)[..|a + b| - 1] == a + b[..|b| - 1];
      CommentsConcat(a, b[..|b| - 1]);
    }
  }

  lemma {:induction false} CommentsMembers(es: seq<Entry>, e: Entry)
    ensures e in Comments(es) <==> e in es && e.kind == Comment
  {
    if es != [] {
      CommentsMembers(es[..|es| - 1], e);
      assert es == es[..|es| - 1] + [es[|es| - 1]];
    }
  }

  ghost predicate NoCommentWithId(es: seq<Entry>, id: string) {
    forall x :: x in es && x.kind == Comment ==> x.id != id
  }

  lemma CommentsDecideIds(es: seq<Entry>, id: string)
    ensures NoCommentWithId(es, id) <==> NoCommentWithId(Comments(es), id)
  {
    forall e ensures e in Comments(es) <==> e in es && e.kind == Comment { CommentsMembers(es, e); }
  }

  lemma {:induction false} CommentsDecideUniqueness(es: seq<Entry>)
    ensures UniqueComments(es) <==> UniqueComments(Comments(es))
  {
    if es != [] {
      var front, last := es[..|es| - 1], es[|es| - 1];
      assert es == front + [last];
      CommentsDecideUniqueness(front);
      CommentsDecideIds(front, last.id);
      UniquePush(front, last);
      if last.kind == Comment { UniquePush(Comments(front), last); } else { assert Comments(es) == Comments(front); }
    }
  }

  lemma UniquePush(es: seq<Entry>, e: Entry)
    ensures UniqueComments(es + [e]) <==> UniqueComments(es) && (e.kind == Comment ==> NoCommentWithId(es, e.id))
  {
    var all := es + [e];
    if UniqueComments(all) {
      forall i, j | 0 <= i < j < |es| && es[i].kind == es[j].kind == Comment ensures es[i].id != es[j].id {
        assert all[i].id != all[j].id;
      }
      forall x | x in es && x.kind == Comment && e.kind == Comment ensures x.id != e.id {
        var i :| 0 <= i < |es| && es[i] == x;
        assert all[i].id != all[|es|].id;
      }
    }
  }

  lemma {:induction false} NoComments(es: seq<Entry>)
    requires forall i :: 0 <= i < |es| ==> es[i].kind == Activity
    ensures Comments(es) == []
  {
    if es != [] { NoComments(es[..|es| - 1]); }
  }

  lemma RunKeepsComments(run: seq<Entry>)
    requires IsRun(run, Mergeable)
    ensures Comments(run) == Comments([Collapse(run)])
  {
    if |run| == 1 {
      assert run == [run[0]];
    } else {
      forall i | 0 <= i < |run| ensures run[i].kind == Activity {
        if i > 0 { RunIsOneEvent(run, i); } else { RunIsOneEvent(run, 1); }
      }
      NoComments(run);
      NoComments([Collapse(run)]);
    }
  }

  lemma AllButLastRun(entries: seq<Entry>, out: seq<Entry>, runs: seq<seq<Entry>>)
    requires Coalesces(entries, out, runs) && runs != []
    ensures var last := |runs| - 1;
            && IsRun(runs[last], Mergeable) && entries == Flatten(runs[..last]) + runs[last]
            && Coalesces(Flatten(runs[..last]), out[..last], runs[..last])
            && out == out[..last] + [Collapse(runs[last])]
  {
  }

  lemma {:induction false} CommentsSurvive(entries: seq<Entry>, out: seq<Entry>, runs: seq<seq<Entry>>)
    requires Coalesces(entries, out, runs)
    ensures Comments(out) == Comments(entries)
    decreases |runs|
  {
    if runs != [] {
      var last := |runs| - 1;
      var front, run := Flatten(runs[..last]), runs[last];
      AllButLastRun(entries, out, runs);
      CommentsSurvive(front, out[..last], runs[..last]);
      CommentsConcat(front, run);
      RunKeepsComments(run);
      CommentsConcat(out[..last], [Collapse(run)]);
    }
  }

  // ---------- Coalescing keeps the threads ----------

  ghost predicate SameComments(a: seq<Entry>, b: seq<Entry>) {
    && UniqueComments(a) && UniqueComments(b)
    && forall e: Entry :: e.kind == Comment ==> (e in a <==> e in b)
  }

  lemma SameReplies(a: seq<Entry>, b: seq<Entry>, e: Entry)
    requires SameComments(a, b)
    ensures IsReply(a, e) <==> IsReply(b, e)
    ensures IsReply(a, e) ==> ParentOf(a, e) == ParentOf(b, e)
  {
    forall id ensures HasComment(a, id) <==> HasComment(b, id) {}
    if IsReply(a, e) { OnlyComment(b, ParentOf(a, e), ParentOf(b, e)); }
  }

  lemma {:induction false} SameTops(a: seq<Entry>, b: seq<Entry>, e: Entry, n: nat)
    requires SameComments(a, b)
    ensures Top(a, e, n) == Top(b, e, n)
    decreases n
  {
    SameReplies(a, b, e);
    if IsReply(a, e) && n > 0 { SameTops(a, b, ParentOf(a, e), n - 1); }
  }

  ghost predicate AllRooted(es: seq<Entry>) { forall e <- es :: Rooted(es, e) }

  lemma SameRoots(a: seq<Entry>, b: seq<Entry>)
    requires SameComments(a, b) && AllRooted(a)
    ensures AllRooted(b)
  {
    forall e | e in b ensures Rooted(b, e) {
      if e.kind == Comment {
        assert Rooted(a, e);
        var n: nat :| Top(a, e, n).Some?;
        SameTops(a, b, e, n);
      } else {
        assert Top(b, e, 0) == Some(e);
      }
    }
  }

  // ---------- The counts of what is shown ----------

  lemma TotalPush(es: seq<Entry>, e: Entry)
    ensures Total(es + [e]) == Total(es) + Count(e)
  {
    assert (es + [e])[..|es|] == es;
  }

  lemma {:induction false} TotalConcat(a: seq<Entry>, b: seq<Entry>)
    ensures Total(a + b) == Total(a) + Total(b)
  {
    if b == [] {
      assert a + b == a;
    } else {
      assert (a + b)[..|a + b| - 1] == a + b[..|b| - 1];
      TotalConcat(a, b[..|b| - 1]);
    }
  }

  lemma Removing(b: seq<Entry>, x: Entry) returns (rest: seq<Entry>)
    requires x in b
    ensures multiset(rest) == multiset(b) - multiset{x} && |rest| == |b| - 1
    ensures Total(b) == Total(rest) + Count(x) && forall e <- rest :: e in b
  {
    var i :| 0 <= i < |b| && b[i] == x;
    rest := b[..i] + b[i + 1..];
    assert b == (b[..i] + [x]) + b[i + 1..];
    TotalConcat(b[..i] + [x], b[i + 1..]);
    TotalPush(b[..i], x);
    TotalConcat(b[..i], b[i + 1..]);
  }

  lemma {:induction false} TotalAtLeastSize(es: seq<Entry>)
    requires forall e <- es :: Count(e) > 0
    ensures Total(es) >= |es|
  {
    if es != [] {
      assert forall e <- es[..|es| - 1] :: e in es;
      TotalAtLeastSize(es[..|es| - 1]);
    }
  }

  /** What a part leaves out counts at least one each. */
  lemma {:induction false} TotalOfPart(a: seq<Entry>, b: seq<Entry>)
    requires multiset(a) <= multiset(b) && forall e <- b :: Count(e) > 0
    ensures |a| <= |b| && Total(a) + (|b| - |a|) <= Total(b)
    decreases |a|
  {
    if a == [] {
      TotalAtLeastSize(b);
    } else {
      var front, x := a[..|a| - 1], a[|a| - 1];
      assert a == front + [x];
      assert x in multiset(b);
      var rest := Removing(b, x);
      TotalOfPart(front, rest);
      TotalPush(front, x);
    }
  }

  lemma SameSizePart(a: seq<Entry>, b: seq<Entry>)
    requires multiset(a) <= multiset(b) && |a| == |b|
    ensures multiset(a) == multiset(b)
  {
    assert multiset(b) == multiset(a) + (multiset(b) - multiset(a));
    assert |multiset(b)| == |multiset(a)| + |multiset(b) - multiset(a)|;
  }

  lemma ShownIsPart(entries: seq<Entry>, rows: seq<Row>)
    requires UniqueComments(entries) && AreRows(entries, rows)
    ensures multiset(Shown(rows)) <= multiset(entries)
  {
    assert rows[..|rows|] == rows;
    forall e ensures multiset(Shown(rows))[e] <= multiset(entries)[e] {
      if e in entries {
        RowsShowExactlyTheRooted(entries, rows, e);
      } else if e in Shown(rows) {
        RowsShowOnlyEntries(entries, rows, |rows|, e);
      }
    }
  }

  lemma ShownTotalIff(entries: seq<Entry>, rows: seq<Row>)
    requires UniqueComments(entries) && AreRows(entries, rows) && forall e <- entries :: Count(e) > 0
    ensures Total(Shown(rows)) == Total(entries) <==> AllRooted(entries)
  {
    var shown := Shown(rows);
    ShownIsPart(entries, rows);
    TotalOfPart(shown, entries);
    CountsAgreeIffAllRooted(entries, rows);
    if Total(shown) == Total(entries) {
      SameSizePart(shown, entries);
    }
    if multiset(shown) == multiset(entries) {
      forall e | e in shown ensures Count(e) > 0 {
        assert e in multiset(shown);
        assert e in entries;
      }
      TotalOfPart(entries, shown);
    }
  }

  lemma CollapsedCounts(entries: seq<Entry>, out: seq<Entry>, runs: seq<seq<Entry>>, e: Entry)
    requires Coalesces(entries, out, runs) && (forall x <- entries :: Count(x) == 1) && e in out
    ensures Count(e) > 0
  {
    var i :| 0 <= i < |out| && out[i] == e;
    RunPosition(runs, i, 0);
    assert runs[i][0] in entries;
  }

  /** Counts agree over the whole pipeline: on uncounted entries with unique comment ids the
      counts shown, replies included, sum to the number of entries exactly when every chain
      of parents ends; and coalescing keeps every comment. */
  lemma PipelineCountsAgreeIff(entries: seq<Entry>, out: seq<Entry>, runs: seq<seq<Entry>>, rows: seq<Row>)
    requires UniqueComments(entries) && forall e <- entries :: Count(e) == 1
    requires Coalesces(entries, out, runs) && AreRows(out, rows)
    ensures Comments(out) == Comments(entries)
    ensures Total(Shown(rows)) == |entries| <==> AllRooted(entries)
  {
    CommentsSurvive(entries, out, runs);
    CommentsDecideUniqueness(entries);
    CommentsDecideUniqueness(out);
    forall e: Entry | e.kind == Comment ensures e in out <==> e in entries {
      CommentsMembers(entries, e);
      CommentsMembers(out, e);
    }
    forall e | e in out ensures Count(e) > 0 { CollapsedCounts(entries, out, runs, e); }
    CountsAddUp(entries, out, runs);
    ShownTotalIff(out, rows);
    if AllRooted(out) { SameRoots(out, entries); }
    if AllRooted(entries) { SameRoots(entries, out); }
  }
}
