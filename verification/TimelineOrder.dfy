/** Whether a thread's replies come in the order of the timeline. */
module TimelineOrder {

  import opened Sequences
  import opened Timeline
  import opened TimelineCounts
  import opened TimelineThread
  import opened Wrappers

  /** Where an entry stands in the timeline; its comments have one place each. */
  ghost function Place(entries: seq<Entry>, e: Entry): nat
    requires e in entries
  {
    var i :| 0 <= i < |entries| && entries[i] == e;
    i
  }

  lemma PlaceIs(entries: seq<Entry>, i: nat)
    requires UniqueComments(entries) && i < |entries| && entries[i].kind == Comment
    ensures Place(entries, entries[i]) == i
  {
  }

  ghost function IndexIn(ids: seq<string>, id: string): nat
    requires id in ids
  {
    var i :| 0 <= i < |ids| && ids[i] == id;
    i
  }

  lemma {:induction false} KidsInOrder(entries: seq<Entry>, n: nat, id: string, i: nat, j: nat)
    requires UniqueComments(entries) && n <= |entries| && i < j < |Kids(entries, entries[..n], id)|
    ensures var kids := Kids(entries, entries[..n], id);
            kids[i] in entries && kids[j] in entries && Place(entries, kids[i]) < Place(entries, kids[j]) < n
  {
    var kids, before := Kids(entries, entries[..n], id), Kids(entries, entries[..n - 1], id);
    assert entries[..n][..n - 1] == entries[..n - 1];
    if j < |before| {
      KidsInOrder(entries, n - 1, id, i, j);
    } else {
      KidsMembers(entries, entries[..n - 1], id, before[i]);
      assert before[i] in entries[..n - 1];
      var k :| 0 <= k < n - 1 && entries[k] == before[i];
      PlaceIs(entries, k);
      PlaceIs(entries, n - 1);
    }
  }

  /** Of two kids, one has an earlier parent in `ids`, or they share it and stand in timeline order. */
  ghost predicate KidsCompare(entries: seq<Entry>, ids: seq<string>, x: Entry, y: Entry) {
    && x in entries && y in entries && IsReply(entries, x) && IsReply(entries, y)
    && x.parentId.value in ids && y.parentId.value in ids
    && (|| IndexIn(ids, x.parentId.value) < IndexIn(ids, y.parentId.value)
        || (x.parentId == y.parentId && Place(entries, x) < Place(entries, y)))
  }

  lemma KidsOfLastInOrder(entries: seq<Entry>, ids: seq<string>, id: string, i: nat, j: nat)
    requires UniqueComments(entries) && id in ids && i < j < |Kids(entries, entries, id)|
    ensures KidsCompare(entries, ids, Kids(entries, entries, id)[i], Kids(entries, entries, id)[j])
  {
    var kids := Kids(entries, entries, id);
    KidsMembers(entries, entries, id, kids[i]);
    KidsMembers(entries, entries, id, kids[j]);
    assert entries[..|entries|] == entries;
    KidsInOrder(entries, |entries|, id, i, j);
  }

  lemma IndexInFront(front: seq<string>, last: string, id: string)
    requires Distinct(front + [last]) && id in front
    ensures IndexIn(front + [last], id) == IndexIn(front, id) < IndexIn(front + [last], last)
  {
    var ids := front + [last];
    assert ids[IndexIn(front, id)] == id && ids[|front|] == last;
  }

  lemma {:induction false} KidsOfAllInOrder(entries: seq<Entry>, ids: seq<string>, i: nat, j: nat)
    requires UniqueComments(entries) && Distinct(ids) && i < j < |KidsOfAll(entries, ids)|
    ensures KidsCompare(entries, ids, KidsOfAll(entries, ids)[i], KidsOfAll(entries, ids)[j])
  {
    var front, last := ids[..|ids| - 1], ids[|ids| - 1];
    var older, all := KidsOfAll(entries, front), KidsOfAll(entries, ids);
    assert ids == front + [last];
    if i >= |older| {
      KidsOfLastInOrder(entries, ids, last, i - |older|, j - |older|);
    } else {
      KidsOfAllMembers(entries, front, all[i]);
      IndexInFront(front, last, all[i].parentId.value);
      if j >= |older| {
        KidsMembers(entries, entries, last, all[j]);
      } else {
        KidsOfAllMembers(entries, front, all[j]);
        IndexInFront(front, last, all[j].parentId.value);
        KidsOfAllInOrder(entries, front, i, j);
      }
    }
  }

  /** The place of the comment a reply answers; the head comes first wherever it stands. */
  ghost function ParentPlace(entries: seq<Entry>, head: Entry, e: Entry): int
    requires IsReply(entries, e)
  {
    if e.parentId.value == head.id then -1 else Place(entries, ParentOf(entries, e))
  }

  ghost predicate IsThread(entries: seq<Entry>, head: Entry, replies: seq<Entry>) {
    && UniqueComments(entries) && head in entries && head.kind == Comment && !IsReply(entries, head)
    && IsBundle(entries, head.id, replies)
  }

  ghost predicate InTimelineOrder(entries: seq<Entry>, replies: seq<Entry>) {
    && (forall e :: e in replies ==> e in entries)
    && forall i, j :: 0 <= i < j < |replies| ==> Place(entries, replies[i]) < Place(entries, replies[j])
  }

  /** Later replies answer later comments: in no thread does a nested reply come before a
      reply to an earlier comment. */
  ghost predicate AnswersInOrder(entries: seq<Entry>, head: Entry) {
    forall x, y :: InThread(entries, head, x) && InThread(entries, head, y) && Place(entries, x) < Place(entries, y) ==>
      ParentPlace(entries, head, x) <= ParentPlace(entries, head, y)
  }

  ghost predicate InThread(entries: seq<Entry>, head: Entry, e: Entry) {
    e in entries && IsReply(entries, e) && HasTop(entries, e, head)
  }

  lemma ThreadIsBundle(entries: seq<Entry>, head: Entry, replies: seq<Entry>, e: Entry)
    requires IsThread(entries, head, replies)
    ensures InThread(entries, head, e) <==> e in replies
  {
    if e in replies {
      KidsOfAllMembers(entries, Found(head.id, replies), e);
      BundleAnswersEarlier(entries, head, replies);
      var i :| 0 <= i < |replies| && replies[i] == e;
      BundledHasTop(entries, head, replies, i);
    } else if InThread(entries, head, e) {
      var n: nat :| Top(entries, e, n) == Some(head);
      TopIsBundled(entries, head, replies, e, n);
    }
  }

  /** The parent of the `i`-th reply, by its index among the comments found. */
  lemma ParentAt(entries: seq<Entry>, head: Entry, replies: seq<Entry>, i: nat) returns (p: nat)
    requires IsThread(entries, head, replies) && i < |replies|
    ensures replies[i] in entries && IsReply(entries, replies[i])
    ensures p <= i && Found(head.id, replies)[p] == replies[i].parentId.value
    ensures p == IndexIn(Found(head.id, replies), replies[i].parentId.value)
    ensures p > 0 ==> replies[p - 1] in entries
    ensures ParentPlace(entries, head, replies[i]) == if p == 0 then -1 else Place(entries, replies[p - 1])
  {
    var found, e := Found(head.id, replies), replies[i];
    assert e in replies && ParentFirst(head.id, replies, i);
    KidsOfAllMembers(entries, found, e);
    p :| 0 <= p < i + 1 && found[p] == e.parentId.value;
    if p > 0 {
      assert replies[p - 1] in replies;
      KidsOfAllMembers(entries, found, replies[p - 1]);
      OnlyComment(entries, replies[p - 1], ParentOf(entries, e));
    }
  }

  /** Two replies of a bundle, the first ahead of the second. */
  lemma BundleCompares(entries: seq<Entry>, head: Entry, replies: seq<Entry>, i: nat, j: nat)
    returns (p: nat, q: nat)
    requires IsThread(entries, head, replies) && i < j < |replies|
    ensures replies[i] in entries && IsReply(entries, replies[i]) && replies[j] in entries
            && IsReply(entries, replies[j])
    ensures p <= i && q <= j
    ensures p < q || (p == q && Place(entries, replies[i]) < Place(entries, replies[j]))
    ensures p > 0 ==> replies[p - 1] in entries
    ensures q > 0 ==> replies[q - 1] in entries
    ensures ParentPlace(entries, head, replies[i]) == if p == 0 then -1 else Place(entries, replies[p - 1])
    ensures ParentPlace(entries, head, replies[j]) == if q == 0 then -1 else Place(entries, replies[q - 1])
  {
    p := ParentAt(entries, head, replies, i);
    q := ParentAt(entries, head, replies, j);
    KidsOfAllInOrder(entries, Found(head.id, replies), i, j);
  }

  lemma {:induction false} OrderFromAnswers(entries: seq<Entry>, head: Entry, replies: seq<Entry>, i: nat, j: nat)
    requires IsThread(entries, head, replies) && AnswersInOrder(entries, head) && i < j < |replies|
    ensures replies[i] in entries && replies[j] in entries && Place(entries, replies[i]) < Place(entries, replies[j])
    decreases j
  {
    var p, q := BundleCompares(entries, head, replies, i, j);
    if p < q {
      if p > 0 { OrderFromAnswers(entries, head, replies, p - 1, q - 1); }
      ThreadIsBundle(entries, head, replies, replies[i]);
      ThreadIsBundle(entries, head, replies, replies[j]);
      assert Ids(replies)[i] == Found(head.id, replies)[i + 1] != Found(head.id, replies)[j + 1] == Ids(replies)[j];
    }
  }

  lemma AnswersFromOrder(entries: seq<Entry>, head: Entry, replies: seq<Entry>, x: Entry, y: Entry)
    requires IsThread(entries, head, replies) && InTimelineOrder(entries, replies)
    requires InThread(entries, head, x) && InThread(entries, head, y) && Place(entries, x) < Place(entries, y)
    ensures ParentPlace(entries, head, x) <= ParentPlace(entries, head, y)
  {
    ThreadIsBundle(entries, head, replies, x);
    ThreadIsBundle(entries, head, replies, y);
    var i :| 0 <= i < |replies| && replies[i] == x;
    var j :| 0 <= j < |replies| && replies[j] == y;
    var p, q := BundleCompares(entries, head, replies, i, j);
  }

  /** A bundle shows its replies in timeline order exactly when later replies answer later
      comments. */
  lemma ChronologicalIffAnsweredInOrder(entries: seq<Entry>, head: Entry, replies: seq<Entry>)
    requires IsThread(entries, head, replies)
    ensures InTimelineOrder(entries, replies) <==> AnswersInOrder(entries, head)
  {
    forall e | e in replies ensures e in entries { ThreadIsBundle(entries, head, replies, e); }
    if AnswersInOrder(entries, head) {
      forall i, j | 0 <= i < j < |replies| ensures Place(entries, replies[i]) < Place(entries, replies[j]) {
        OrderFromAnswers(entries, head, replies, i, j);
      }
    }
    if InTimelineOrder(entries, replies) {
      forall x, y | InThread(entries, head, x) && InThread(entries, head, y) && Place(entries, x) < Place(entries, y)
        ensures ParentPlace(entries, head, x) <= ParentPlace(entries, head, y)
      {
        AnswersFromOrder(entries, head, replies, x, y);
      }
    }
  }

  /** The kids of `id` among `part` and one more entry. */
  lemma KidsPush(entries: seq<Entry>, part: seq<Entry>, e: Entry, id: string)
    ensures Kids(entries, part + [e], id) ==
            Kids(entries, part, id) + if IsReply(entries, e) && e.parentId.value == id then [e] else []
  {
    assert (part + [e])[..|part|] == part;
  }

  ghost function KidIf(entries: seq<Entry>, e: Entry, id: string): seq<Entry> {
    if IsReply(entries, e) && e.parentId.value == id then [e] else []
  }

  lemma KidsOfFour(entries: seq<Entry>, a: Entry, b: Entry, c: Entry, d: Entry, id: string)
    ensures Kids(entries, [a, b, c, d], id) ==
            KidIf(entries, a, id) + KidIf(entries, b, id) + KidIf(entries, c, id) + KidIf(entries, d, id)
  {
    KidsPush(entries, [], a, id);
    KidsPush(entries, [a], b, id);
    KidsPush(entries, [a, b], c, id);
    KidsPush(entries, [a, b, c], d, id);
    assert [] + [a] == [a] && [a] + [b] == [a, b] && [a, b] + [c] == [a, b, c] && [a, b, c] + [d] == [a, b, c, d];
  }

  lemma KidsOfAllPush(entries: seq<Entry>, ids: seq<string>, id: string)
    ensures KidsOfAll(entries, ids + [id]) == KidsOfAll(entries, ids) + Kids(entries, entries, id)
  {
    assert (ids + [id])[..|ids|] == ids;
  }

  /** `c` answers `b` before `d` answers `a`, the head. */
  ghost predicate Nested(a: Entry, b: Entry, c: Entry, d: Entry) {
    && a.kind == b.kind == c.kind == d.kind == Comment
    && a.id == "a" && b.id == "b" && c.id == "c" && d.id == "d"
    && a.parentId == None && b.parentId == Some("a") && c.parentId == Some("b") && d.parentId == Some("a")
  }

  lemma NestedKids(a: Entry, b: Entry, c: Entry, d: Entry, id: string)
    requires Nested(a, b, c, d)
    ensures Kids([a, b, c, d], [a, b, c, d], id) == if id == "a" then [b, d] else if id == "b" then [c] else []
  {
    var entries := [a, b, c, d];
    assert a in entries && b in entries;
    assert HasComment(entries, "a") && HasComment(entries, "b");
    KidsOfFour(entries, a, b, c, d, id);
  }

  lemma KidsOfAllFour(entries: seq<Entry>, i: string, j: string, k: string, l: string)
    ensures KidsOfAll(entries, [i, j, k, l]) ==
            Kids(entries, entries, i) + Kids(entries, entries, j) + Kids(entries, entries, k)
              + Kids(entries, entries, l)
  {
    var none: seq<string> := [];
    KidsOfAllPush(entries, none, i);
    KidsOfAllPush(entries, [i], j);
    KidsOfAllPush(entries, [i, j], k);
    KidsOfAllPush(entries, [i, j, k], l);
    assert none + [i] == [i] && [i] + [j] == [i, j] && [i, j] + [k] == [i, j, k] && [i, j, k] + [l] == [i, j, k, l];
  }

  lemma NestedParentsFirst(a: Entry, b: Entry, c: Entry, d: Entry)
    requires Nested(a, b, c, d)
    ensures Found("a", [b, d, c]) == ["a", "b", "d", "c"] && ParentsFirst("a", [b, d, c])
  {
    var replies := [b, d, c];
    var found := Found("a", replies);
    assert found == ["a", "b", "d", "c"];
    forall i | 0 <= i < 3 ensures ParentFirst("a", replies, i) {
      assert found[..i + 1][0] == "a";
      if i == 2 { assert found[..i + 1][1] == "b"; }
    }
  }

  lemma NestedReplies(a: Entry, b: Entry, c: Entry, d: Entry)
    requires Nested(a, b, c, d)
    ensures KidsOfAll([a, b, c, d], ["a", "b", "d", "c"]) == [b, d, c]
  {
    KidsOfAllFour([a, b, c, d], "a", "b", "d", "c");
    NestedKids(a, b, c, d, "a");
    NestedKids(a, b, c, d, "b");
    NestedKids(a, b, c, d, "c");
    NestedKids(a, b, c, d, "d");
    assert [b, d] + [c] == [b, d, c] && [b, d, c] + [] == [b, d, c];
  }

  lemma NestedBundle(a: Entry, b: Entry, c: Entry, d: Entry)
    requires Nested(a, b, c, d)
    ensures IsBundle([a, b, c, d], "a", [b, d, c])
  {
    NestedParentsFirst(a, b, c, d);
    NestedReplies(a, b, c, d);
  }

  /** It does happen otherwise: such a `c` is shown after `d`. */
  lemma NestedReplyIsShownLate(a: Entry, b: Entry, c: Entry, d: Entry, replies: seq<Entry>)
    requires Nested(a, b, c, d) && IsBundle([a, b, c, d], "a", replies)
    ensures replies == [b, d, c] && !InTimelineOrder([a, b, c, d], replies)
  {
    var entries := [a, b, c, d];
    NestedBundle(a, b, c, d);
    BundleIsUnique(entries, "a", replies, [b, d, c]);
    assert UniqueComments(entries);
    PlaceIs(entries, 2);
    PlaceIs(entries, 3);
    assert replies[1] == entries[3] && replies[2] == entries[2];
  }
}
