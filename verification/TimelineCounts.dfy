/** "Counts must agree": which entries the rows show, and how often. */
module TimelineCounts {

  import opened Sequences
  import opened Timeline
  import opened TimelineThread
  import opened Wrappers

  // ---------- Bundles ----------

  lemma {:induction false} KidsOfAllPrefix(entries: seq<Entry>, ids: seq<string>, k: nat)
    requires k <= |ids|
    ensures KidsOfAll(entries, ids[..k]) <= KidsOfAll(entries, ids)
  {
    if k < |ids| {
      KidsOfAllPrefix(entries, ids[..|ids| - 1], k);
      assert ids[..|ids| - 1][..k] == ids[..k];
    } else {
      assert ids[..k] == ids;
    }
  }

  /** The `k`-th reply is among the kids of the first `k + 1` comments. */
  lemma BundleReaches(entries: seq<Entry>, head: string, replies: seq<Entry>, k: nat)
    requires IsBundle(entries, head, replies) && k < |replies|
    ensures replies[k] in KidsOfAll(entries, Found(head, replies)[..k + 1])
  {
    var e, q := replies[k], Found(head, replies);
    assert e in replies && ParentFirst(head, replies, k);
    KidsOfAllMembers(entries, q, e);
    KidsOfAllMembers(entries, q[..k + 1], e);
  }

  /** The kids of the first `k + 1` comments of a bundle already reach past its `k`-th reply. */
  lemma BundlePrefix(entries: seq<Entry>, head: string, replies: seq<Entry>, k: nat)
    requires IsBundle(entries, head, replies) && k <= |replies|
    ensures var part := KidsOfAll(entries, Found(head, replies)[..k + 1]);
            part <= replies && (|part| > k <==> k < |replies|)
  {
    var q := Found(head, replies);
    KidsOfAllPrefix(entries, q, k + 1);
    if k < |replies| {
      BundleReaches(entries, head, replies, k);
      var part := KidsOfAll(entries, q[..k + 1]);
      var j :| 0 <= j < |part| && part[j] == replies[k];
      assert q[j + 1] == replies[j].id && q[k + 1] == replies[k].id;
    }
  }

  lemma FoundPrefix(head: string, replies: seq<Entry>, k: nat)
    requires k <= |replies|
    ensures Found(head, replies)[..k + 1] == Found(head, replies[..k])
  {
  }

  /** A sequence each of whose prefixes generates the next element is determined. */
  lemma {:induction false} Determined<T(!new)>(grow: seq<T> -> seq<T>, r1: seq<T>, r2: seq<T>, k: nat)
    requires forall i :: 0 <= i <= |r1| ==> grow(r1[..i]) <= r1 && (|grow(r1[..i])| > i <==> i < |r1|)
    requires forall i :: 0 <= i <= |r2| ==> grow(r2[..i]) <= r2 && (|grow(r2[..i])| > i <==> i < |r2|)
    ensures k <= |r1| <==> k <= |r2|
    ensures k <= |r1| && k <= |r2| ==> r1[..k] == r2[..k]
  {
    if k > 0 {
      Determined(grow, r1, r2, k - 1);
    }
  }

  /** The breadth-first order of a thread is determined by the entries. */
  lemma BundleIsUnique(entries: seq<Entry>, head: string, r1: seq<Entry>, r2: seq<Entry>)
    requires IsBundle(entries, head, r1) && IsBundle(entries, head, r2)
    ensures r1 == r2
  {
    ghost var grow := (r: seq<Entry>) => KidsOfAll(entries, Found(head, r));
    forall r, k | r in {r1, r2} && 0 <= k <= |r|
      ensures grow(r[..k]) <= r && (|grow(r[..k])| > k <==> k < |r|)
    {
      FoundPrefix(head, r, k);
      BundlePrefix(entries, head, r, k);
    }
    Determined(grow, r1, r2, |r1|);
    Determined(grow, r1, r2, |r2|);
    assert r1[..|r1|] == r1 && r2[..|r1|] == r2;
  }

  // ---------- Which thread an entry belongs to ----------

  ghost function ParentOf(entries: seq<Entry>, e: Entry): (p: Entry)
    requires IsReply(entries, e)
    ensures p in entries && p.kind == Comment && p.id == e.parentId.value
  {
    var p :| p in entries && p.kind == Comment && p.id == e.parentId.value;
    p
  }

  /** Follows parents for up to `n` steps; None while the top is not reached. */
  ghost function Top(entries: seq<Entry>, e: Entry, n: nat): Option<Entry>
    decreases n
  {
    if !IsReply(entries, e) then Some(e)
    else if n == 0 then None
    else Top(entries, ParentOf(entries, e), n - 1)
  }

  /** The chain of parents ends; false exactly for what hangs below a cycle. */
  ghost predicate Rooted(entries: seq<Entry>, e: Entry) { exists n: nat :: Top(entries, e, n).Some? }

  ghost predicate HasTop(entries: seq<Entry>, e: Entry, h: Entry) { exists n: nat :: Top(entries, e, n) == Some(h) }

  lemma {:induction false} TopStable(entries: seq<Entry>, e: Entry, n: nat, m: nat)
    requires n <= m && Top(entries, e, n).Some?
    ensures Top(entries, e, m) == Top(entries, e, n)
    decreases n
  {
    if IsReply(entries, e) { TopStable(entries, ParentOf(entries, e), n - 1, m - 1); }
  }

  lemma OneTop(entries: seq<Entry>, e: Entry, h1: Entry, h2: Entry)
    requires HasTop(entries, e, h1) && HasTop(entries, e, h2)
    ensures h1 == h2
  {
    var n: nat :| Top(entries, e, n) == Some(h1);
    var m: nat :| Top(entries, e, m) == Some(h2);
    if n <= m { TopStable(entries, e, n, m); } else { TopStable(entries, e, m, n); }
  }

  lemma {:induction false} TopIsHead(entries: seq<Entry>, e: Entry, n: nat)
    requires e in entries && Top(entries, e, n).Some?
    ensures var h := Top(entries, e, n).value;
            h in entries && !IsReply(entries, h) && (IsReply(entries, e) ==> h.kind == Comment)
    decreases n
  {
    if IsReply(entries, e) { TopIsHead(entries, ParentOf(entries, e), n - 1); }
  }

  /** Every reply answers the head or an earlier reply. */
  ghost predicate AnswersEarlier(entries: seq<Entry>, h: Entry, replies: seq<Entry>) {
    forall i {:trigger AnswerEarlier(entries, h, replies, i)} :: 0 <= i < |replies| ==>
      AnswerEarlier(entries, h, replies, i)
  }

  ghost predicate AnswerEarlier(entries: seq<Entry>, h: Entry, replies: seq<Entry>, i: int)
    requires 0 <= i < |replies|
  {
    IsReply(entries, replies[i]) && ParentOf(entries, replies[i]) in [h] + replies[..i]
  }

  lemma {:induction false} BundledHasTop(entries: seq<Entry>, h: Entry, replies: seq<Entry>, i: nat)
    requires !IsReply(entries, h) && AnswersEarlier(entries, h, replies) && i < |replies|
    ensures Top(entries, replies[i], i + 1) == Some(h)
  {
    assert AnswerEarlier(entries, h, replies, i);
    var p := ParentOf(entries, replies[i]);
    var j :| 0 <= j < i + 1 && ([h] + replies[..i])[j] == p;
    if j > 0 {
      BundledHasTop(entries, h, replies, j - 1);
      TopStable(entries, p, j, i);
    }
  }

  lemma BundledAreReplies(entries: seq<Entry>, h: Entry, replies: seq<Entry>)
    requires replies == KidsOfAll(entries, Found(h.id, replies))
    ensures forall e <- replies :: e in entries && IsReply(entries, e)
  {
    forall e | e in replies ensures e in entries && IsReply(entries, e) {
      KidsOfAllMembers(entries, Found(h.id, replies), e);
    }
  }

  lemma ParentIsEarlier(entries: seq<Entry>, h: Entry, replies: seq<Entry>, i: nat)
    requires UniqueComments(entries) && h in entries && h.kind == Comment
    requires forall e <- replies :: e in entries && IsReply(entries, e)
    requires ParentsFirst(h.id, replies) && i < |replies|
    ensures AnswerEarlier(entries, h, replies, i)
  {
    var e := replies[i];
    assert e in replies && ParentFirst(h.id, replies, i);
    var p := ParentOf(entries, e);
    var j :| 0 <= j < i + 1 && Found(h.id, replies)[j] == e.parentId.value;
    var q := ([h] + replies[..i])[j];
    assert q == h || q in replies;
    OnlyComment(entries, p, q);
  }

  lemma BundleAnswersEarlier(entries: seq<Entry>, h: Entry, replies: seq<Entry>)
    requires UniqueComments(entries) && h in entries && h.kind == Comment && IsBundle(entries, h.id, replies)
    ensures AnswersEarlier(entries, h, replies)
  {
    BundledAreReplies(entries, h, replies);
    forall i | 0 <= i < |replies|
      ensures AnswerEarlier(entries, h, replies, i)
    {
      ParentIsEarlier(entries, h, replies, i);
    }
  }

  lemma {:induction false} TopIsBundled(entries: seq<Entry>, h: Entry, replies: seq<Entry>, e: Entry, n: nat)
    requires UniqueComments(entries) && IsBundle(entries, h.id, replies)
    requires e in entries && IsReply(entries, e) && Top(entries, e, n) == Some(h)
    ensures e in replies
    decreases n
  {
    var p := ParentOf(entries, e);
    var found := Found(h.id, replies);
    if IsReply(entries, p) {
      TopIsBundled(entries, h, replies, p, n - 1);
      var k :| 0 <= k < |replies| && replies[k] == p;
      assert found[k + 1] == p.id;
    } else {
      assert found[0] == p.id;
    }
    KidsOfAllMembers(entries, found, e);
  }

  // ---------- Counting ----------

  function Shown(rows: seq<Row>): seq<Entry> {
    if rows == [] then []
    else Shown(rows[..|rows| - 1]) + [rows[|rows| - 1].entry] + rows[|rows| - 1].replies
  }

  lemma {:induction false} DistinctCount(es: seq<Entry>, e: Entry)
    requires Distinct(Ids(es))
    ensures multiset(es)[e] == if e in es then 1 else 0
  {
    if es != [] {
      var front := es[..|es| - 1];
      assert es == front + [es[|es| - 1]];
      assert Ids(front) == Ids(es)[..|es| - 1];
      DistinctCount(front, e);
      if e in front {
        var k :| 0 <= k < |front| && front[k] == e;
        assert Ids(es)[k] != Ids(es)[|es| - 1];
      }
    }
  }

  lemma BundleCount(entries: seq<Entry>, h: Entry, replies: seq<Entry>, e: Entry)
    requires UniqueComments(entries) && h in entries && !IsReply(entries, h) && h.kind == Comment
    requires IsBundle(entries, h.id, replies) && e in entries
    ensures multiset(replies)[e] == if IsReply(entries, e) && HasTop(entries, e, h) then 1 else 0
  {
    assert Ids(replies) == Found(h.id, replies)[1..];
    DistinctCount(replies, e);
    KidsOfAllMembers(entries, Found(h.id, replies), e);
    if e in replies {
      var i :| 0 <= i < |replies| && replies[i] == e;
      BundleAnswersEarlier(entries, h, replies);
      BundledHasTop(entries, h, replies, i);
    } else if IsReply(entries, e) && HasTop(entries, e, h) {
      var n: nat :| Top(entries, e, n) == Some(h);
      TopIsBundled(entries, h, replies, e, n);
    }
  }

  /** One row shows its head, and a reply once when the row's head is the top of its chain. */
  lemma RowCount(entries: seq<Entry>, h: Entry, row: Row, e: Entry)
    requires UniqueComments(entries) && h in entries && !IsReply(entries, h) && IsRow(entries, h, row) && e in entries
    ensures multiset([row.entry] + row.replies)[e] ==
            if (if IsReply(entries, e) then HasTop(entries, e, h) else e == h) then 1 else 0
  {
    assert multiset([row.entry] + row.replies)[e] == (if e == h then 1 else 0) + multiset(row.replies)[e];
    if h.kind == Comment {
      BundleCount(entries, h, row.replies, e);
    } else if IsReply(entries, e) && HasTop(entries, e, h) {
      var n: nat :| Top(entries, e, n) == Some(h);
      TopIsHead(entries, e, n);
    }
  }

  /** `top` is the end of the chain of parents of `e`, if it has one. */
  ghost predicate IsTop(entries: seq<Entry>, e: Entry, top: Option<Entry>) {
    match top case Some(h) => HasTop(entries, e, h) case None => !Rooted(entries, e)
  }

  lemma TopDecides(entries: seq<Entry>, e: Entry, top: Option<Entry>, h: Entry)
    requires IsTop(entries, e, top)
    ensures HasTop(entries, e, h) <==> top == Some(h)
    ensures !IsReply(entries, e) ==> top == Some(e)
  {
    if HasTop(entries, e, h) {
      var n: nat :| Top(entries, e, n) == Some(h);
      OneTop(entries, e, top.value, h);
    }
    if !IsReply(entries, e) {
      assert Top(entries, e, 0) == Some(e);
      OneTop(entries, e, top.value, e);
    }
  }

  lemma ShownSplit(rows: seq<Row>, k: nat, e: Entry)
    requires 0 < k <= |rows|
    ensures multiset(Shown(rows[..k]))[e] ==
            multiset(Shown(rows[..k - 1]))[e] + multiset([rows[k - 1].entry] + rows[k - 1].replies)[e]
  {
    assert rows[..k][..k - 1] == rows[..k - 1];
    assert Shown(rows[..k]) == Shown(rows[..k - 1]) + ([rows[k - 1].entry] + rows[k - 1].replies);
  }

  /** How often the first `k` rows show `e`. */
  ghost function Showings(rows: seq<Row>, k: nat, e: Entry): nat
    requires k <= |rows|
  {
    if k == 0 then 0 else Showings(rows, k - 1, e) + multiset([rows[k - 1].entry] + rows[k - 1].replies)[e]
  }

  ghost function Occurrences(s: seq<Entry>, k: nat, e: Entry): nat
    requires k <= |s|
  {
    if k == 0 then 0 else Occurrences(s, k - 1, e) + if s[k - 1] == e then 1 else 0
  }

  lemma {:induction false} ShowingsCount(rows: seq<Row>, k: nat, e: Entry)
    requires k <= |rows|
    ensures Showings(rows, k, e) == multiset(Shown(rows[..k]))[e]
  {
    if k > 0 {
      ShowingsCount(rows, k - 1, e);
      ShownSplit(rows, k, e);
    }
  }

  lemma {:induction false} OccurrencesCount(s: seq<Entry>, k: nat, e: Entry)
    requires k <= |s|
    ensures Occurrences(s, k, e) == multiset(s[..k])[e]
  {
    if k > 0 {
      OccurrencesCount(s, k - 1, e);
      assert s[..k] == s[..k - 1] + [s[k - 1]];
    }
  }

  ghost predicate RowCountsTop(row: Row, h: Entry, e: Entry, top: Option<Entry>) {
    multiset([row.entry] + row.replies)[e] == if top == Some(h) then 1 else 0
  }

  lemma {:induction false} SumRows(rows: seq<Row>, heads: seq<Entry>, e: Entry, top: Option<Entry>, k: nat)
    requires k <= |rows| == |heads|
    requires forall i :: 0 <= i < |rows| ==> RowCountsTop(rows[i], heads[i], e, top)
    ensures Showings(rows, k, e) == if top.Some? then Occurrences(heads, k, top.value) else 0
  {
    if k > 0 {
      SumRows(rows, heads, e, top, k - 1);
      assert RowCountsTop(rows[k - 1], heads[k - 1], e, top);
    }
  }

  /** An entry is shown as often as the top of its chain is a head. */
  lemma RowsCount(entries: seq<Entry>, rows: seq<Row>, e: Entry, top: Option<Entry>)
    requires UniqueComments(entries) && AreRows(entries, rows) && e in entries
    requires IsTop(entries, e, top)
    ensures multiset(Shown(rows))[e] == if top.Some? then multiset(Heads(entries, entries))[top.value] else 0
  {
    var heads := Heads(entries, entries);
    forall i | 0 <= i < |rows|
      ensures RowCountsTop(rows[i], heads[i], e, top)
    {
      assert heads[i] in heads;
      HeadsMembers(entries, entries, heads[i]);
      RowCount(entries, heads[i], rows[i], e);
      TopDecides(entries, e, top, heads[i]);
    }
    SumRows(rows, heads, e, top, |rows|);
    ShowingsCount(rows, |rows|, e);
    if top.Some? { OccurrencesCount(heads, |rows|, top.value); }
    assert rows[..|rows|] == rows && heads[..|rows|] == heads;
  }

  lemma {:induction false} CommentCount(entries: seq<Entry>, e: Entry)
    requires UniqueComments(entries) && e in entries && e.kind == Comment
    ensures multiset(entries)[e] == 1
  {
    var front, last := entries[..|entries| - 1], entries[|entries| - 1];
    assert entries == front + [last];
    if e in front {
      CommentCount(front, e);
      assert e != last;
    }
  }

  /** For entries with unique comment ids, the rows show every entry whose chain of parents
      ends exactly as often as it was given, and nothing that hangs below a cycle. */
  lemma RowsShowExactlyTheRooted(entries: seq<Entry>, rows: seq<Row>, e: Entry)
    requires UniqueComments(entries) && AreRows(entries, rows) && e in entries
    ensures multiset(Shown(rows))[e] == if Rooted(entries, e) then multiset(entries)[e] else 0
  {
    if Rooted(entries, e) {
      var n: nat :| Top(entries, e, n).Some?;
      var h := Top(entries, e, n).value;
      RowsCount(entries, rows, e, Some(h));
      TopIsHead(entries, e, n);
      HeadsMembers(entries, entries, h);
      if IsReply(entries, e) {
        CommentCount(entries, h);
        CommentCount(entries, e);
      }
    } else {
      RowsCount(entries, rows, e, None);
    }
  }

  /** Rows never invent an entry. */
  lemma {:induction false} RowsShowOnlyEntries(entries: seq<Entry>, rows: seq<Row>, k: nat, e: Entry)
    requires AreRows(entries, rows) && k <= |rows| && e in Shown(rows[..k])
    ensures e in entries
  {
    var row := rows[k - 1];
    assert rows[..k][..k - 1] == rows[..k - 1];
    if e in Shown(rows[..k - 1]) {
      RowsShowOnlyEntries(entries, rows, k - 1, e);
    } else {
      HeadsMembers(entries, entries, row.entry);
      if row.entry.kind == Comment { KidsOfAllMembers(entries, Found(row.entry.id, row.replies), e); }
    }
  }

  /** The counts agree exactly when no chain of parents runs in a circle. */
  lemma CountsAgreeIffAllRooted(entries: seq<Entry>, rows: seq<Row>)
    requires UniqueComments(entries) && AreRows(entries, rows)
    ensures multiset(Shown(rows)) == multiset(entries) <==> forall e <- entries :: Rooted(entries, e)
  {
    assert rows[..|rows|] == rows;
    forall e ensures e in entries ==> multiset(Shown(rows))[e] == if Rooted(entries, e) then multiset(entries)[e] else 0
             ensures e !in entries ==> multiset(Shown(rows))[e] == multiset(entries)[e]
    {
      if e in entries { RowsShowExactlyTheRooted(entries, rows, e); }
      else if e in Shown(rows) { RowsShowOnlyEntries(entries, rows, |rows|, e); }
    }
    if forall e <- entries :: Rooted(entries, e) {
      assert forall e :: multiset(Shown(rows))[e] == multiset(entries)[e];
    } else {
      var e :| e in entries && !Rooted(entries, e);
      assert multiset(Shown(rows))[e] != multiset(entries)[e];
    }
  }

  /** Parents older than their replies make every chain end. */
  lemma {:induction false} OlderParentsAreRooted(entries: seq<Entry>, age: string -> nat, e: Entry)
    requires forall r <- entries :: IsReply(entries, r) ==> age(r.parentId.value) < age(r.id)
    requires e in entries
    ensures Rooted(entries, e)
    decreases age(e.id)
  {
    if IsReply(entries, e) {
      var p := ParentOf(entries, e);
      OlderParentsAreRooted(entries, age, p);
      var n: nat :| Top(entries, p, n).Some?;
      assert Top(entries, e, n + 1).Some?;
    } else {
      assert Top(entries, e, 0).Some?;
    }
  }

  /** Two comments that answer each other are shown nowhere. */
  lemma MutualRepliesVanish(a: Entry, b: Entry, rows: seq<Row>)
    requires a.kind == b.kind == Comment && a.id != "" && b.id != ""
    requires a.parentId == Some(b.id) && b.parentId == Some(a.id)
    requires AreRows([a, b], rows)
    ensures rows == []
  {
    assert a in [a, b] && b in [a, b];
    assert HasComment([a, b], a.id) && HasComment([a, b], b.id);
    NoHeads([a, b], [a, b]);
  }

  lemma {:induction false} NoHeads(entries: seq<Entry>, part: seq<Entry>)
    requires forall e <- part :: IsReply(entries, e)
    ensures Heads(entries, part) == []
  {
    if part != [] { NoHeads(entries, part[..|part| - 1]); }
  }
}
