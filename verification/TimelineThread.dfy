/**
 * Threading the mobile timeline: every comment chain is folded into the row of its
 * top-level comment, and a reply whose parent is not loaded becomes a row of its own.
 */
module TimelineThread {

  import opened Sequences
  import opened Timeline
  import opened Wrappers

  datatype Row = Row(entry: Entry, replies: seq<Entry>)

  /** Comment ids are the server's primary keys. */
  ghost predicate UniqueComments(entries: seq<Entry>) {
    forall i, j :: 0 <= i < j < |entries| && entries[i].kind == entries[j].kind == Comment ==>
      entries[i].id != entries[j].id
  }

  ghost predicate HasComment(entries: seq<Entry>, id: string) {
    exists e <- entries :: e.kind == Comment && e.id == id
  }

  /** A reply whose parent is loaded. */
  ghost predicate IsReply(entries: seq<Entry>, e: Entry) {
    e.kind == Comment && e.parentId.Some? && e.parentId.value != "" && HasComment(entries, e.parentId.value)
  }

  // ---------- The specification ----------

  /** The entries of `part` that get a row. */
  ghost function Heads(entries: seq<Entry>, part: seq<Entry>): seq<Entry> {
    if part == [] then []
    else Heads(entries, part[..|part| - 1]) + if IsReply(entries, part[|part| - 1]) then [] else [part[|part| - 1]]
  }

  /** The replies in `part` to one comment, in input order. */
  ghost function Kids(entries: seq<Entry>, part: seq<Entry>, id: string): seq<Entry> {
    if part == [] then []
    else
      var last := part[|part| - 1];
      Kids(entries, part[..|part| - 1], id) + if IsReply(entries, last) && last.parentId.value == id then [last] else []
  }

  ghost function KidsOfAll(entries: seq<Entry>, ids: seq<string>): seq<Entry> {
    if ids == [] then []
    else KidsOfAll(entries, ids[..|ids| - 1]) + Kids(entries, entries, ids[|ids| - 1])
  }

  function Ids(es: seq<Entry>): (r: seq<string>)
    ensures |r| == |es|
  {
    seq(|es|, i requires 0 <= i < |es| => es[i].id)
  }

  /** Everything a row has found, its head first. */
  function Found(head: string, replies: seq<Entry>): seq<string> { [head] + Ids(replies) }

  /** Each reply stands behind the comment it answers. */
  ghost predicate ParentsFirst(head: string, replies: seq<Entry>) {
    forall i {:trigger ParentFirst(head, replies, i)} :: 0 <= i < |replies| ==> ParentFirst(head, replies, i)
  }

  ghost predicate ParentFirst(head: string, replies: seq<Entry>, i: int)
    requires 0 <= i < |replies|
  {
    replies[i].parentId.Some? && replies[i].parentId.value in Found(head, replies)[..i + 1]
  }

  /** The bundle of a row in breadth-first order: the kids of the head, then the kids of each
      reply in turn.  There is only one such bundle (`BundleIsUnique`). */
  ghost predicate IsBundle(entries: seq<Entry>, head: string, replies: seq<Entry>) {
    && replies == KidsOfAll(entries, Found(head, replies))
    && ParentsFirst(head, replies)
    && Distinct(Found(head, replies))
  }

  ghost predicate IsRow(entries: seq<Entry>, head: Entry, row: Row) {
    && row.entry == head
    && (head.kind == Activity ==> row.replies == [])
    && (head.kind == Comment ==> IsBundle(entries, head.id, row.replies))
  }

  ghost predicate AreRows(entries: seq<Entry>, rows: seq<Row>) {
    && |rows| == |Heads(entries, entries)|
    && forall i :: 0 <= i < |rows| ==> IsRow(entries, Heads(entries, entries)[i], rows[i])
  }

  // ---------- Facts about kids ----------

  lemma {:induction false} KidsMembers(entries: seq<Entry>, part: seq<Entry>, id: string, e: Entry)
    ensures e in Kids(entries, part, id) <==> e in part && IsReply(entries, e) && e.parentId.value == id
  {
    if part != [] {
      var front := part[..|part| - 1];
      KidsMembers(entries, front, id, e);
      assert part == front + [part[|part| - 1]];
    }
  }

  lemma {:induction false} KidsDistinct(entries: seq<Entry>, part: seq<Entry>, id: string)
    requires UniqueComments(part)
    ensures UniqueComments(Kids(entries, part, id))
  {
    if part != [] {
      var front, last := part[..|part| - 1], part[|part| - 1];
      KidsDistinct(entries, front, id);
      var kids := Kids(entries, front, id);
      forall k | 0 <= k < |kids| && IsReply(entries, last)
        ensures kids[k].id != last.id
      {
        KidsMembers(entries, front, id, kids[k]);
      }
    }
  }

  lemma {:induction false} KidsOfAllMembers(entries: seq<Entry>, ids: seq<string>, e: Entry)
    ensures e in KidsOfAll(entries, ids) <==> e in entries && IsReply(entries, e) && e.parentId.value in ids
  {
    if ids != [] {
      var front := ids[..|ids| - 1];
      KidsOfAllMembers(entries, front, e);
      KidsMembers(entries, entries, ids[|ids| - 1], e);
      assert ids == front + [ids[|ids| - 1]];
    }
  }

  lemma {:induction false} KidsOfAllDistinct(entries: seq<Entry>, ids: seq<string>)
    requires UniqueComments(entries) && Distinct(ids)
    ensures Distinct(Ids(KidsOfAll(entries, ids)))
  {
    if ids != [] {
      var front, last := ids[..|ids| - 1], ids[|ids| - 1];
      KidsOfAllDistinct(entries, front);
      KidsDistinct(entries, entries, last);
      var older, newer := KidsOfAll(entries, front), Kids(entries, entries, last);
      forall i | 0 <= i < |newer| ensures newer[i].kind == Comment {
        KidsMembers(entries, entries, last, newer[i]);
      }
      assert Distinct(Ids(newer));
      forall i, j | 0 <= i < |older| && 0 <= j < |newer| ensures Ids(older)[i] != Ids(newer)[j] {
        KidsOfAllMembers(entries, front, older[i]);
        KidsMembers(entries, entries, last, newer[j]);
        assert UniqueComments(entries) && older[i] in entries && newer[j] in entries;
      }
      assert Ids(older + newer) == Ids(older) + Ids(newer);
    }
  }

  lemma {:induction false} DistinctFits(s: seq<string>, within: set<string>)
    requires Distinct(s) && forall x <- s :: x in within
    ensures |s| <= |within|
  {
    if s != [] {
      var last := s[|s| - 1];
      DistinctFits(s[..|s| - 1], within - {last});
    }
  }

  // ---------- buildTimelineRows ----------

  ghost predicate CommentsWithin(entries: seq<Entry>, commentIds: set<string>) {
    forall id :: HasComment(entries, id) ==> id in commentIds
  }

  /** `childrenByParent` lists the replies in `part` under the comment they answer. */
  ghost predicate GroupsKids(entries: seq<Entry>, part: seq<Entry>, childrenByParent: map<string, seq<Entry>>) {
    forall id :: Kids(entries, part, id) == if id in childrenByParent then childrenByParent[id] else []
  }

  /** The first `taken` comments found have handed on their kids. */
  ghost predicate Bundling(entries: seq<Entry>, head: Entry, out: seq<Entry>, taken: nat) {
    && taken <= |out| + 1
    && out == KidsOfAll(entries, Found(head.id, out)[..taken])
    && Distinct(Found(head.id, out))
    && ParentsFirst(head.id, out)
    && forall i :: 0 <= i < |out| ==> HasComment(entries, out[i].id)
  }

  /** The inner `collectDescendants`.  It terminates on every input with unique comment ids,
      cycles included: what a row reaches is a tree. */
  method CollectDescendants(entries: seq<Entry>, ghost commentIds: set<string>,
                            childrenByParent: map<string, seq<Entry>>, head: Entry)
    returns (out: seq<Entry>)
    requires UniqueComments(entries) && head in entries && head.kind == Comment && !IsReply(entries, head)
    requires CommentsWithin(entries, commentIds) && GroupsKids(entries, entries, childrenByParent)
    ensures IsBundle(entries, head.id, out)
  {
    out := [];
    var queue := [head.id];
    ghost var taken := 0;
    BundlingStarts(entries, head);
    while |queue| > 0
      invariant Bundling(entries, head, out, taken)
      invariant queue == Found(head.id, out)[taken..]
      decreases |commentIds| - taken
    {
      ghost var before := out;
      var pid := queue[0];
      queue := queue[1..];
      BundleFits(entries, commentIds, head, out, taken);
      BundleGrows(entries, head, out, taken);
      FoundGrows(head, out, Kids(entries, entries, pid), taken);
      if pid in childrenByParent {
        out, queue := PushAll(out, queue, childrenByParent[pid]);
      } else {
        assert Kids(entries, entries, pid) == [] && out + [] == out && queue + Ids([]) == queue;
      }
      taken := taken + 1;
    }
    BundlingEnds(entries, head, out, taken);
  }

  /** The loop over one comment's kids. */
  method PushAll(out: seq<Entry>, queue: seq<string>, kids: seq<Entry>) returns (out': seq<Entry>, queue': seq<string>)
    ensures out' == out + kids && queue' == queue + Ids(kids)
  {
    out', queue' := out, queue;
    for i := 0 to |kids|
      invariant out' == out + kids[..i] && queue' == queue + Ids(kids[..i])
    {
      assert kids[..i + 1] == kids[..i] + [kids[i]];
      out', queue' := out' + [kids[i]], queue' + [kids[i].id];
    }
    assert kids[..|kids|] == kids;
  }

  lemma BundlingStarts(entries: seq<Entry>, head: Entry)
    ensures Bundling(entries, head, [], 0) && Found(head.id, [])[0..] == [head.id]
  {
  }

  lemma BundlingEnds(entries: seq<Entry>, head: Entry, out: seq<Entry>, taken: nat)
    requires Bundling(entries, head, out, taken) && Found(head.id, out)[taken..] == []
    ensures IsBundle(entries, head.id, out)
  {
    assert Found(head.id, out)[..taken] == Found(head.id, out);
  }

  lemma FoundGrows(head: Entry, out: seq<Entry>, kids: seq<Entry>, taken: nat)
    requires taken < |out| + 1
    ensures Found(head.id, out + kids)[taken + 1..] == Found(head.id, out)[taken..][1..] + Ids(kids)
  {
    assert Found(head.id, out + kids) == Found(head.id, out) + Ids(kids);
  }

  lemma BundleFits(entries: seq<Entry>, commentIds: set<string>, head: Entry, out: seq<Entry>, taken: nat)
    requires Bundling(entries, head, out, taken) && head in entries && head.kind == Comment
    requires CommentsWithin(entries, commentIds)
    ensures |out| + 1 <= |commentIds|
  {
    assert HasComment(entries, head.id);
    DistinctFits(Found(head.id, out), commentIds);
  }

  lemma FoundStaysDistinct(entries: seq<Entry>, head: Entry, next: seq<string>, grown: seq<Entry>)
    requires UniqueComments(entries) && head in entries && head.kind == Comment && !IsReply(entries, head)
    requires Distinct(next) && grown == KidsOfAll(entries, next)
    ensures Distinct(Found(head.id, grown))
    ensures forall i :: 0 <= i < |grown| ==> HasComment(entries, grown[i].id)
  {
    KidsOfAllDistinct(entries, next);
    forall i | 0 <= i < |grown|
      ensures Ids(grown)[i] != head.id && HasComment(entries, grown[i].id)
    {
      assert grown[i] in grown;
      KidsOfAllMembers(entries, next, grown[i]);
      OnlyComment(entries, head, grown[i]);
    }
  }

  /** One comment leaves the queue and its kids join it. */
  lemma BundleGrows(entries: seq<Entry>, head: Entry, out: seq<Entry>, taken: nat)
    requires UniqueComments(entries) && head in entries && head.kind == Comment && !IsReply(entries, head)
    requires Bundling(entries, head, out, taken) && taken <= |out|
    ensures Bundling(entries, head, out + Kids(entries, entries, Found(head.id, out)[taken]), taken + 1)
  {
    var all := Found(head.id, out);
    var grown := out + Kids(entries, entries, all[taken]);
    var next := all[..taken + 1];
    assert Found(head.id, grown)[..taken + 1] == next && next[..taken] == all[..taken];
    assert grown == KidsOfAll(entries, next);
    FoundStaysDistinct(entries, head, next, grown);
    ParentsStayFirst(entries, head, out, taken);
  }

  lemma ParentsStayFirst(entries: seq<Entry>, head: Entry, out: seq<Entry>, taken: nat)
    requires ParentsFirst(head.id, out) && taken <= |out|
    ensures ParentsFirst(head.id, out + Kids(entries, entries, Found(head.id, out)[taken]))
  {
    var all := Found(head.id, out);
    var kids := Kids(entries, entries, all[taken]);
    var grown := out + kids;
    forall i | 0 <= i < |grown|
      ensures ParentFirst(head.id, grown, i)
    {
      if i < |out| {
        assert ParentFirst(head.id, out, i);
        assert Found(head.id, grown)[..i + 1] == all[..i + 1];
      } else {
        assert grown[i] in kids;
        KidsMembers(entries, entries, all[taken], grown[i]);
        assert Found(head.id, grown)[..i + 1][taken] == all[taken];
      }
    }
  }

  lemma OnlyComment(entries: seq<Entry>, a: Entry, b: Entry)
    requires UniqueComments(entries) && a in entries && b in entries && a.kind == b.kind == Comment
    ensures a.id == b.id ==> a == b
  {
  }

  method CommentIds(entries: seq<Entry>) returns (commentIds: set<string>)
    ensures forall id :: id in commentIds <==> HasComment(entries, id)
  {
    commentIds := {};
    for i := 0 to |entries|
      invariant forall id :: id in commentIds <==> HasComment(entries[..i], id)
    {
      assert entries[..i + 1] == entries[..i] + [entries[i]];
      if entries[i].kind == Comment { commentIds := commentIds + {entries[i].id}; }
    }
    assert entries[..|entries|] == entries;
  }

  /** The scan that fills `topLevel` and `childrenByParent`. */
  method Partition(entries: seq<Entry>, commentIds: set<string>)
    returns (topLevel: seq<Entry>, childrenByParent: map<string, seq<Entry>>)
    requires forall id :: id in commentIds <==> HasComment(entries, id)
    ensures topLevel == Heads(entries, entries)
    ensures GroupsKids(entries, entries, childrenByParent)
  {
    topLevel, childrenByParent := [], map[];
    for i := 0 to |entries|
      invariant topLevel == Heads(entries, entries[..i])
      invariant GroupsKids(entries, entries[..i], childrenByParent)
    {
      var e := entries[i];
      assert entries[..i + 1][..i] == entries[..i];
      if e.kind == Comment && e.parentId.Some? && e.parentId.value != "" && e.parentId.value in commentIds {
        var list := if e.parentId.value in childrenByParent then childrenByParent[e.parentId.value] else [];
        childrenByParent := childrenByParent[e.parentId.value := list + [e]];
      } else {
        topLevel := topLevel + [e];
      }
    }
    assert entries[..|entries|] == entries;
  }

  method BuildTimelineRows(entries: seq<Entry>) returns (rows: seq<Row>)
    requires UniqueComments(entries)
    ensures AreRows(entries, rows)
  {
    var commentIds := CommentIds(entries);
    var topLevel, childrenByParent := Partition(entries, commentIds);
    rows := MapRows(entries, commentIds, childrenByParent, topLevel);
  }

  lemma HeadIsEntry(entries: seq<Entry>, e: Entry)
    requires e in Heads(entries, entries)
    ensures e in entries && !IsReply(entries, e)
  {
    HeadsMembers(entries, entries, e);
  }

  /** `topLevel.map`. */
  method MapRows(entries: seq<Entry>, ghost commentIds: set<string>, childrenByParent: map<string, seq<Entry>>,
                 topLevel: seq<Entry>)
    returns (rows: seq<Row>)
    requires UniqueComments(entries) && topLevel == Heads(entries, entries)
    requires CommentsWithin(entries, commentIds) && GroupsKids(entries, entries, childrenByParent)
    ensures |rows| == |topLevel| && forall k :: 0 <= k < |rows| ==> IsRow(entries, topLevel[k], rows[k])
  {
    rows := [];
    for i := 0 to |topLevel|
      invariant |rows| == i
      invariant forall k {:trigger IsRow(entries, topLevel[k], rows[k])} :: 0 <= k < i ==>
                IsRow(entries, topLevel[k], rows[k])
    {
      HeadIsEntry(entries, topLevel[i]);
      var row := RowOf(entries, commentIds, childrenByParent, topLevel[i]);
      rows := rows + [row];
    }
  }

  method RowOf(entries: seq<Entry>, ghost commentIds: set<string>, childrenByParent: map<string, seq<Entry>>,
               entry: Entry)
    returns (row: Row)
    requires UniqueComments(entries) && entry in entries && !IsReply(entries, entry)
    requires CommentsWithin(entries, commentIds) && GroupsKids(entries, entries, childrenByParent)
    ensures IsRow(entries, entry, row)
  {
    var replies := [];
    if entry.kind == Comment {
      replies := CollectDescendants(entries, commentIds, childrenByParent, entry);
    }
    row := Row(entry, replies);
  }

  lemma {:induction false} HeadsMembers(entries: seq<Entry>, part: seq<Entry>, e: Entry)
    ensures e in Heads(entries, part) <==> e in part && !IsReply(entries, e)
    ensures multiset(Heads(entries, part))[e] == if IsReply(entries, e) then 0 else multiset(part)[e]
  {
    if part != [] {
      var front := part[..|part| - 1];
      HeadsMembers(entries, front, e);
      assert part == front + [part[|part| - 1]];
    }
  }

  // ---------- Rows on the entries' own fields ----------

  /** An activity, a comment that answers none, or one that answers a comment not loaded. */
  ghost predicate IsTopLevel(entries: seq<Entry>, e: Entry) {
    || e.kind == Activity || e.parentId == None || e.parentId == Some("")
    || forall x :: x in entries && x.kind == Comment ==> x.id != e.parentId.value
  }

  ghost function HeadPlaces(entries: seq<Entry>, n: nat): (at: seq<nat>)
    requires n <= |entries|
    ensures |at| == |Heads(entries, entries[..n])|
    ensures forall p :: 0 <= p < |at| ==> at[p] < n && entries[at[p]] == Heads(entries, entries[..n])[p]
    ensures forall p, q :: 0 <= p < q < |at| ==> at[p] < at[q]
    ensures forall k: nat :: k < n ==> (k in at <==> !IsReply(entries, entries[k]))
  {
    if n == 0 then []
    else
      assert entries[..n][..n - 1] == entries[..n - 1];
      HeadPlaces(entries, n - 1) + if IsReply(entries, entries[n - 1]) then [] else [n - 1]
  }

  /** The rows stand for the top-level entries, in the order of the timeline. */
  lemma RowsFollowTheTimeline(entries: seq<Entry>, rows: seq<Row>) returns (at: seq<nat>)
    requires AreRows(entries, rows)
    ensures |at| == |rows| && forall p :: 0 <= p < |at| ==> at[p] < |entries| && rows[p].entry == entries[at[p]]
    ensures forall p, q :: 0 <= p < q < |at| ==> at[p] < at[q]
    ensures forall k: nat :: k < |entries| ==> (k in at <==> IsTopLevel(entries, entries[k]))
  {
    at := HeadPlaces(entries, |entries|);
    assert entries[..|entries|] == entries;
    forall p | 0 <= p < |rows| ensures rows[p].entry == entries[at[p]] {
      assert IsRow(entries, Heads(entries, entries)[p], rows[p]);
    }
    forall k: nat | k < |entries| ensures k in at <==> IsTopLevel(entries, entries[k]) {
      assert IsReply(entries, entries[k]) <==> !IsTopLevel(entries, entries[k]);
    }
  }

  /** A row's replies are comments; each answers the row's entry or an earlier reply, and every
      comment that answers one of them is there.  Activities have none. */
  lemma RepliesAre(entries: seq<Entry>, rows: seq<Row>, p: nat, e: Entry)
    requires AreRows(entries, rows) && p < |rows|
    ensures rows[p].entry.kind == Activity ==> rows[p].replies == []
    ensures rows[p].entry.kind == Comment ==>
              (e in rows[p].replies <==>
                && e in entries && e.kind == Comment && e.parentId.Some? && e.parentId.value != ""
                && (e.parentId == Some(rows[p].entry.id) || exists r <- rows[p].replies :: e.parentId == Some(r.id)))
  {
    var head, row := Heads(entries, entries)[p], rows[p];
    assert IsRow(entries, head, row);
    if head.kind == Comment {
      assert head in Heads(entries, entries);
      HeadsMembers(entries, entries, head);
      KidsOfAllMembers(entries, Found(head.id, row.replies), e);
      RepliesAreEntries(entries, head, row.replies);
      FoundIds(head.id, row.replies);
    }
  }

  lemma RepliesAreEntries(entries: seq<Entry>, head: Entry, replies: seq<Entry>)
    requires head in entries && head.kind == Comment && replies == KidsOfAll(entries, Found(head.id, replies))
    ensures forall id :: id in Found(head.id, replies) ==> HasComment(entries, id)
  {
    forall id | id in Found(head.id, replies) ensures HasComment(entries, id) {
      FoundIds(head.id, replies);
      if id != head.id {
        var r :| r in replies && r.id == id;
        KidsOfAllMembers(entries, Found(head.id, replies), r);
      }
    }
  }

  lemma FoundIds(head: string, replies: seq<Entry>)
    ensures forall id :: id in Found(head, replies) <==> id == head || exists r <- replies :: r.id == id
  {
    var found := Found(head, replies);
    forall id ensures id in found <==> id == head || exists r <- replies :: r.id == id {
      if id in found {
        var k :| 0 <= k < |found| && found[k] == id;
        if k > 0 { assert replies[k - 1] in replies && replies[k - 1].id == id; }
      }
      if id == head { assert found[0] == id; }
      if exists r <- replies :: r.id == id {
        var r :| r in replies && r.id == id;
        var k :| 0 <= k < |replies| && replies[k] == r;
        assert found[k + 1] == id;
      }
    }
  }
}
