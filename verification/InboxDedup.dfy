/** The inbox list: one row an issue, newest first. */
module InboxDedup {

  import opened StableSort
  import opened Wrappers

  /** `other` stands for the fields nothing here looks at. */
  datatype Details = Details(commentId: Option<string>, other: map<string, string>)
  datatype InboxItem = InboxItem(
    id: string, issueId: Option<string>, archived: bool, createdAt: int, details: Option<Details>,
    other: map<string, string>)

  function Key(item: InboxItem): string { if item.issueId.Some? then item.issueId.value else item.id }

  function CommentId(item: InboxItem): Option<string> {
    if item.details.Some? then item.details.value.commentId else None
  }

  /** The `find` callback: an empty comment id does not count. */
  predicate HasAnchor(item: InboxItem) { CommentId(item).Some? && CommentId(item).value != "" }

  predicate IsActive(item: InboxItem) { !item.archived }

  function HasKey(k: string): InboxItem -> bool { (item: InboxItem) => Key(item) == k }

  /** The comparator: newest first. */
  function Age(item: InboxItem): int { -item.createdAt }

  /** The keys of `s`, each where it first occurs: the insertion order of the `Map`. */
  function Keys(s: seq<InboxItem>): seq<string> {
    if s == [] then []
    else
      var before, k := Keys(s[..|s| - 1]), Key(s[|s| - 1]);
      if k in before then before else before + [k]
  }

  function FirstAnchor(s: seq<InboxItem>): Option<string> {
    if s == [] then None else if HasAnchor(s[0]) then CommentId(s[0]) else FirstAnchor(s[1..])
  }

  function WithComment(item: InboxItem, commentId: string): InboxItem {
    var other := if item.details.Some? then item.details.value.other else map[];
    item.(details := Some(Details(Some(commentId), other)))
  }

  lemma {:induction false} KeysAreDistinct(s: seq<InboxItem>)
    ensures forall k :: k in Keys(s) <==> Select(s, HasKey(k)) != []
    ensures forall i, j :: 0 <= i < j < |Keys(s)| ==> Keys(s)[i] != Keys(s)[j]
  {
    if s != [] {
      KeysAreDistinct(s[..|s| - 1]);
    }
  }

  /** A row of the result, from the rows of its key. */
  function Merge(group: seq<InboxItem>): InboxItem
    requires group != []
  {
    SortPermutes(group, Age);
    SizeOf(group, Sort(group, Age));
    var sorted := Sort(group, Age);
    var newest := sorted[0];
    var anchor := FirstAnchor(sorted);
    if CommentId(newest).None? && anchor.Some? then WithComment(newest, anchor.value) else newest
  }

  lemma SizeOf<T>(a: seq<T>, b: seq<T>)
    requires multiset(a) == multiset(b)
    ensures |a| == |b|
  {
    assert |multiset(a)| == |multiset(b)|;
  }

  function Merged(active: seq<InboxItem>): seq<InboxItem> {
    KeysAreDistinct(active);
    seq(|Keys(active)|, i requires 0 <= i < |Keys(active)| => Merge(Select(active, HasKey(Keys(active)[i]))))
  }

  function Deduplicated(items: seq<InboxItem>): seq<InboxItem> { Sort(Merged(Select(items, IsActive)), Age) }

  lemma KeysPush(s: seq<InboxItem>, x: InboxItem)
    ensures Keys(s + [x]) == if Key(x) in Keys(s) then Keys(s) else Keys(s) + [Key(x)]
  {
    assert (s + [x])[..|s|] == s;
  }

  ghost predicate AreGroups(groups: map<string, seq<InboxItem>>, order: seq<string>, s: seq<InboxItem>) {
    && order == Keys(s)
    && (forall k :: k in groups <==> k in order)
    && (forall k :: k in groups ==> groups[k] == Select(s, HasKey(k)))
  }

  lemma GroupsPush(groups: map<string, seq<InboxItem>>, order: seq<string>, s: seq<InboxItem>, x: InboxItem)
    requires AreGroups(groups, order, s)
    ensures AreGroups(groups[Key(x) := (if Key(x) in groups then groups[Key(x)] else []) + [x]],
                      if Key(x) in groups then order else order + [Key(x)], s + [x])
  {
    KeysPush(s, x);
    KeysAreDistinct(s);
    forall k
      ensures Select(s + [x], HasKey(k)) == if k == Key(x) then Select(s, HasKey(k)) + [x] else Select(s, HasKey(k))
    {
      SelectPush(s, x, HasKey(k));
    }
  }

  /** The loop body for one group: it sorts the group in place and reads the row off it. */
  method MergeGroup(rows: seq<InboxItem>) returns (merged: InboxItem)
    requires rows != []
    ensures merged == Merge(rows)
  {
    SortPermutes(rows, Age);
    SizeOf(rows, Sort(rows, Age));
    var group := Sort(rows, Age);
    var newest := group[0];
    var found := FirstAnchor(group);
    FoundIsNotEmpty(group);
    var commentId := if CommentId(newest).Some? then CommentId(newest) else found;
    if commentId.Some? && commentId.value != "" && CommentId(newest) != commentId {
      return WithComment(newest, commentId.value);
    }
    return newest;
  }

  method DeduplicateInboxItems(items: seq<InboxItem>) returns (r: seq<InboxItem>)
    ensures r == Deduplicated(items)
  {
    var active := Select(items, IsActive);
    var groups: map<string, seq<InboxItem>> := map[];
    var order: seq<string> := [];
    for n := 0 to |active|
      invariant AreGroups(groups, order, active[..n])
    {
      var item := active[n];
      var key := Key(item);
      GroupsPush(groups, order, active[..n], item);
      assert active[..n + 1] == active[..n] + [item];
      var group := if key in groups then groups[key] else [];
      group := group + [item];
      if key !in groups { order := order + [key]; }
      groups := groups[key := group];
    }
    assert active[..|active|] == active;
    var merged: seq<InboxItem> := [];
    for n := 0 to |order|
      invariant |merged| == n
      invariant forall i :: 0 <= i < n ==> merged[i] == Merged(active)[i]
    {
      KeysAreDistinct(active);
      assert order[n] in order;
      var row := MergeGroup(groups[order[n]]);
      merged := merged + [row];
    }
    assert merged == Merged(active);
    r := Sort(merged, Age);
  }

  lemma {:induction false} FoundIsNotEmpty(s: seq<InboxItem>)
    ensures FirstAnchor(s).Some? ==> FirstAnchor(s).value != ""
  {
    if s != [] { FoundIsNotEmpty(s[1..]); }
  }

  /** `x` is the newest of `s`, the first of them when several are equally new. */
  ghost predicate IsNewest(s: seq<InboxItem>, x: InboxItem) {
    exists i :: 0 <= i < |s| && s[i] == x && IsNewestAt(s, i)
  }

  ghost predicate IsNewestAt(s: seq<InboxItem>, i: nat)
    requires i < |s|
  {
    && (forall j :: 0 <= j < i ==> s[j].createdAt < s[i].createdAt)
    && (forall j :: i < j < |s| ==> s[j].createdAt <= s[i].createdAt)
  }

  lemma NewestPush(s: seq<InboxItem>, old': InboxItem, x: InboxItem)
    requires s != [] ==> IsNewest(s, old')
    ensures IsNewest(s + [x], if s == [] || x.createdAt > old'.createdAt then x else old')
  {
    var t := s + [x];
    if s == [] {
      assert t[0] == x && IsNewestAt(t, 0);
    } else {
      var i :| 0 <= i < |s| && s[i] == old' && IsNewestAt(s, i);
      if x.createdAt > old'.createdAt {
        assert t[|s|] == x && IsNewestAt(t, |s|);
      } else {
        assert t[i] == old' && IsNewestAt(t, i);
      }
    }
  }

  lemma {:induction false} HeadOfInsert(s: seq<InboxItem>, x: InboxItem)
    requires Sorted(s, Age)
    ensures Insert(s, Age, x) != []
    ensures Insert(s, Age, x)[0] == if s == [] || x.createdAt > s[0].createdAt then x else s[0]
  {
    if s != [] && Age(s[|s| - 1]) > Age(x) {
      assert Sorted(s[..|s| - 1], Age);
      HeadOfInsert(s[..|s| - 1], x);
    }
  }

  lemma {:induction false} HeadOfSortIsNewest(s: seq<InboxItem>)
    requires s != []
    ensures Sort(s, Age) != [] && IsNewest(s, Sort(s, Age)[0])
  {
    var front, x := s[..|s| - 1], s[|s| - 1];
    assert s == front + [x];
    if front != [] { HeadOfSortIsNewest(front); }
    SortSorts(front, Age);
    HeadOfInsert(Sort(front, Age), x);
    NewestPush(front, if front == [] then x else Sort(front, Age)[0], x);
  }

  lemma {:induction false} FirstAnchorIsHead(s: seq<InboxItem>)
    ensures FirstAnchor(s) ==
            var anchored := Select(s, HasAnchor); if anchored == [] then None else CommentId(anchored[0])
  {
    if s != [] {
      FirstAnchorIsHead(s[1..]);
      assert s == [s[0]] + s[1..];
      SelectPrepend(s[0], s[1..], HasAnchor);
    }
  }

  /** What a row shows: every field of the newest row of its issue, and, when that one has no
      comment, the comment of the newest row that has one. */
  ghost predicate Represents(row: InboxItem, group: seq<InboxItem>) {
    exists newest :: IsNewest(group, newest) && Anchored(row, newest, Select(group, HasAnchor))
  }

  ghost predicate Anchored(row: InboxItem, newest: InboxItem, anchored: seq<InboxItem>) {
    if CommentId(newest).None? && anchored != []
    then exists x :: IsNewest(anchored, x) && HasAnchor(x) && row == WithComment(newest, CommentId(x).value)
    else row == newest
  }

  lemma MergeRepresents(group: seq<InboxItem>)
    requires group != []
    ensures Represents(Merge(group), group)
  {
    var sorted, anchored := Sort(group, Age), Select(group, HasAnchor);
    HeadOfSortIsNewest(group);
    FirstAnchorIsHead(sorted);
    SortSelected(group, HasAnchor, Age);
    if anchored != [] {
      HeadOfSortIsNewest(anchored);
      var x := Sort(anchored, Age)[0];
      SelectMembers(group, HasAnchor, x);
      assert IsNewest(anchored, x) && HasAnchor(x);
    } else {
      assert Sort(anchored, Age) == [];
    }
    assert Anchored(Merge(group), sorted[0], anchored);
  }

  lemma MergeKeeps(group: seq<InboxItem>, k: string)
    requires group != [] && forall x :: x in group ==> Key(x) == k && IsActive(x)
    ensures Key(Merge(group)) == k && IsActive(Merge(group))
  {
    HeadOfSortIsNewest(group);
    var newest := Sort(group, Age)[0];
    assert newest in group;
    assert Key(newest) == k && IsActive(newest);
  }

  lemma {:induction false} MembersOfGroup(items: seq<InboxItem>, k: string)
    ensures forall x :: x in Select(Select(items, IsActive), HasKey(k)) <==> x in items && IsActive(x) && Key(x) == k
  {
    forall x ensures x in Select(Select(items, IsActive), HasKey(k)) <==> x in items && IsActive(x) && Key(x) == k {
      SelectMembers(items, IsActive, x);
      SelectMembers(Select(items, IsActive), HasKey(k), x);
    }
  }

  /** The rows of one issue, or of one item that has none. */
  function GroupOf(items: seq<InboxItem>, k: string): seq<InboxItem> { Select(Select(items, IsActive), HasKey(k)) }

  lemma MergedRow(items: seq<InboxItem>, i: nat)
    requires i < |Keys(Select(items, IsActive))|
    ensures var active := Select(items, IsActive); var k := Keys(active)[i];
            && i < |Merged(active)| && GroupOf(items, k) != []
            && Represents(Merged(active)[i], GroupOf(items, k))
            && Key(Merged(active)[i]) == k && IsActive(Merged(active)[i])
  {
    var active := Select(items, IsActive);
    var k := Keys(active)[i];
    KeysAreDistinct(active);
    assert k in Keys(active);
    MembersOfGroup(items, k);
    MergeKeeps(GroupOf(items, k), k);
    MergeRepresents(GroupOf(items, k));
  }

  ghost predicate DistinctKeys(s: seq<InboxItem>) { forall i, j :: 0 <= i < j < |s| ==> Key(s[i]) != Key(s[j]) }

  lemma MergedKeysAreDistinct(items: seq<InboxItem>)
    ensures DistinctKeys(Merged(Select(items, IsActive)))
  {
    var active := Select(items, IsActive);
    KeysAreDistinct(active);
    forall i, j | 0 <= i < j < |Merged(active)| ensures Key(Merged(active)[i]) != Key(Merged(active)[j]) {
      MergedRow(items, i);
      MergedRow(items, j);
    }
  }

  /** Each key holds one row of the list. */
  function Tally(s: seq<InboxItem>, k: string): nat { |Select(s, HasKey(k))| }

  lemma {:induction false} DistinctIffTally(s: seq<InboxItem>)
    ensures DistinctKeys(s) <==> forall k :: Tally(s, k) <= 1
  {
    if s != [] {
      var front, last := s[..|s| - 1], s[|s| - 1];
      DistinctIffTally(front);
      assert s == front + [last];
      var same := Select(front, HasKey(Key(last)));
      assert Tally(s, Key(last)) == |same| + 1;
      if |same| > 0 {
        SelectMembers(front, HasKey(Key(last)), same[0]);
        var i :| 0 <= i < |front| && front[i] == same[0];
        assert Key(s[i]) == Key(s[|s| - 1]);
      } else {
        forall i | 0 <= i < |front| ensures Key(front[i]) != Key(last) {
          SelectMembers(front, HasKey(Key(last)), front[i]);
        }
        forall k ensures Tally(s, k) == if k == Key(last) then 1 else Tally(front, k) {}
        if DistinctKeys(front) {
          assert DistinctKeys(s);
        } else {
          var i, j :| 0 <= i < j < |front| && Key(front[i]) == Key(front[j]);
          assert Key(s[i]) == Key(s[j]);
        }
      }
    }
  }

  /** Sorting keeps the tally of every key. */
  lemma SortKeepsDistinct(s: seq<InboxItem>)
    requires DistinctKeys(s)
    ensures DistinctKeys(Sort(s, Age))
  {
    DistinctIffTally(s);
    forall k ensures Tally(Sort(s, Age), k) == Tally(s, k) {
      SortSelected(s, HasKey(k), Age);
      SortPermutes(Select(s, HasKey(k)), Age);
      SizeOf(Select(s, HasKey(k)), Sort(Select(s, HasKey(k)), Age));
    }
    DistinctIffTally(Sort(s, Age));
  }

  lemma RowOf(items: seq<InboxItem>, row: InboxItem)
    requires row in Deduplicated(items)
    ensures GroupOf(items, Key(row)) != [] && Represents(row, GroupOf(items, Key(row))) && IsActive(row)
  {
    var merged := Merged(Select(items, IsActive));
    SortPermutes(merged, Age);
    assert row in multiset(merged);
    var i :| 0 <= i < |merged| && merged[i] == row;
    MergedRow(items, i);
  }

  lemma KeyHasRow(items: seq<InboxItem>, k: string)
    requires GroupOf(items, k) != []
    ensures exists row :: row in Deduplicated(items) && Key(row) == k
  {
    var active := Select(items, IsActive);
    KeysAreDistinct(active);
    var i :| 0 <= i < |Keys(active)| && Keys(active)[i] == k;
    MergedRow(items, i);
    SortPermutes(Merged(active), Age);
    assert Merged(active)[i] in multiset(Merged(active));
    assert Merged(active)[i] in multiset(Deduplicated(items));
  }

  /** The list has exactly one row for every issue with an unarchived row, it is what
      `Represents` says, and the rows come newest first. */
  lemma OneNewestRowPerIssue(items: seq<InboxItem>, k: string)
    ensures (exists x :: x in items && !x.archived && Key(x) == k) <==>
            (exists row :: row in Deduplicated(items) && Key(row) == k)
    ensures DistinctKeys(Deduplicated(items)) && Sorted(Deduplicated(items), Age)
    ensures forall row :: row in Deduplicated(items) ==> Represents(row, GroupOf(items, Key(row))) && !row.archived
  {
    MembersOfGroup(items, k);
    if exists x :: x in items && !x.archived && Key(x) == k {
      var x :| x in items && !x.archived && Key(x) == k;
      assert x in GroupOf(items, k);
      KeyHasRow(items, k);
    }
    forall row | row in Deduplicated(items)
      ensures Represents(row, GroupOf(items, Key(row))) && !row.archived && GroupOf(items, Key(row)) != []
    {
      RowOf(items, row);
    }
    if exists row :: row in Deduplicated(items) && Key(row) == k {
      var x := GroupOf(items, k)[0];
      assert x in GroupOf(items, k);
    }
    MergedKeysAreDistinct(items);
    SortKeepsDistinct(Merged(Select(items, IsActive)));
    SortSorts(Merged(Select(items, IsActive)), Age);
  }

  lemma {:induction false} SelectAll(s: seq<InboxItem>)
    requires forall x :: x in s ==> IsActive(x)
    ensures Select(s, IsActive) == s
  {
    if s != [] {
      assert s[|s| - 1] in s;
      SelectAll(s[..|s| - 1]);
      assert s == s[..|s| - 1] + [s[|s| - 1]];
    }
  }

  lemma {:induction false} SelectNone(s: seq<InboxItem>, k: string)
    requires forall i :: 0 <= i < |s| ==> Key(s[i]) != k
    ensures Select(s, HasKey(k)) == []
  {
    if s != [] { SelectNone(s[..|s| - 1], k); }
  }

  lemma {:induction false} SelectSingle(s: seq<InboxItem>, i: nat)
    requires DistinctKeys(s) && i < |s|
    ensures Select(s, HasKey(Key(s[i]))) == [s[i]]
  {
    var front, last := s[..|s| - 1], s[|s| - 1];
    if i < |front| {
      SelectSingle(front, i);
      assert Key(last) != Key(s[i]);
    } else {
      SelectNone(front, Key(last));
    }
  }

  lemma {:induction false} KeysOfDistinct(s: seq<InboxItem>)
    requires DistinctKeys(s)
    ensures |Keys(s)| == |s| && forall i :: 0 <= i < |s| ==> Keys(s)[i] == Key(s[i])
  {
    if s != [] { KeysOfDistinct(s[..|s| - 1]); }
  }

  lemma MergeSingle(x: InboxItem)
    ensures Merge([x]) == x
  {
    assert [x] == [] + [x];
    SortPush([], Age, x);
    InsertBehind([], Age, x);
    assert Sort([x], Age) == [x];
    assert [x][1..] == [];
    assert FirstAnchor([x]) == if HasAnchor(x) then CommentId(x) else FirstAnchor([x][1..]);
  }

  lemma MergedDistinct(rows: seq<InboxItem>)
    requires DistinctKeys(rows)
    ensures Merged(rows) == rows
  {
    KeysOfDistinct(rows);
    KeysAreDistinct(rows);
    forall i | 0 <= i < |rows| ensures Merged(rows)[i] == rows[i] {
      SelectSingle(rows, i);
      MergeSingle(rows[i]);
    }
  }

  /** Deduplicating a list that was deduplicated changes nothing. */
  lemma DeduplicatingTwice(items: seq<InboxItem>)
    ensures Deduplicated(Deduplicated(items)) == Deduplicated(items)
  {
    var rows := Deduplicated(items);
    OneNewestRowPerIssue(items, "");
    SelectAll(rows);
    MergedDistinct(rows);
    SortOfSorted(rows, Age);
  }

  // ---------- Rows on the items' own fields ----------

  /** The item is about the issue `k`, or has no issue and is `k` itself. */
  ghost predicate Concerns(x: InboxItem, k: string) { x.issueId == Some(k) || (x.issueId == None && x.id == k) }

  ghost predicate ShowsComment(x: InboxItem) {
    x.details.Some? && x.details.value.commentId != None && x.details.value.commentId != Some("")
  }

  ghost predicate Eligible(x: InboxItem, k: string, commented: bool) {
    !x.archived && Concerns(x, k) && (commented ==> ShowsComment(x))
  }

  /** The newest eligible item, the first given of equally new ones. */
  ghost predicate NewestOf(items: seq<InboxItem>, n: nat, k: string, commented: bool) {
    && n < |items| && Eligible(items[n], k, commented)
    && forall j :: 0 <= j < |items| && Eligible(items[j], k, commented) ==>
         && (j < n ==> items[j].createdAt < items[n].createdAt)
         && (j > n ==> items[j].createdAt <= items[n].createdAt)
  }

  ghost predicate NewestWhere(s: seq<InboxItem>, n: nat, p: InboxItem -> bool) {
    && n < |s| && p(s[n])
    && forall j :: 0 <= j < |s| && p(s[j]) ==>
         (j < n ==> s[j].createdAt < s[n].createdAt) && (j > n ==> s[j].createdAt <= s[n].createdAt)
  }

  lemma {:induction false} NewestSelected(s: seq<InboxItem>, p: InboxItem -> bool, x: InboxItem) returns (n: nat)
    requires IsNewest(Select(s, p), x)
    ensures NewestWhere(s, n, p) && s[n] == x
  {
    var chosen := Select(s, p);
    var i :| 0 <= i < |chosen| && chosen[i] == x && IsNewestAt(chosen, i);
    var front, last := s[..|s| - 1], s[|s| - 1];
    var earlier := Select(front, p);
    if i < |earlier| {
      assert forall j :: 0 <= j < |earlier| ==> earlier[j] == chosen[j];
      assert earlier[i] == x && IsNewestAt(earlier, i);
      n := NewestSelected(front, p, x);
      if p(last) { assert chosen[|earlier|] == last; }
    } else {
      n := |front|;
      forall j | 0 <= j < |front| && p(s[j]) ensures s[j].createdAt < last.createdAt {
        SelectMembers(front, p, s[j]);
        var m :| 0 <= m < |earlier| && earlier[m] == s[j];
        assert chosen[m] == s[j];
      }
    }
  }

  lemma {:induction false} SelectTwice(s: seq<InboxItem>, p: InboxItem -> bool, q: InboxItem -> bool,
                                       both: InboxItem -> bool)
    requires forall x :: both(x) <==> p(x) && q(x)
    ensures Select(Select(s, p), q) == Select(s, both)
  {
    if s != [] {
      var front, last := s[..|s| - 1], s[|s| - 1];
      SelectTwice(front, p, q, both);
      if p(last) { SelectPush(Select(front, p), last, q); }
    }
  }

  lemma KeyIsConcern(x: InboxItem, k: string)
    ensures Key(x) == k <==> Concerns(x, k)
  {
  }

  lemma GroupIs(items: seq<InboxItem>, k: string)
    ensures GroupOf(items, k) == Select(items, (x: InboxItem) => !x.archived && Key(x) == k)
    ensures Select(GroupOf(items, k), HasAnchor) ==
            Select(items, (x: InboxItem) => !x.archived && Key(x) == k && HasAnchor(x))
  {
    var inGroup := (x: InboxItem) => !x.archived && Key(x) == k;
    var commented := (x: InboxItem) => !x.archived && Key(x) == k && HasAnchor(x);
    SelectTwice(items, IsActive, HasKey(k), inGroup);
    SelectTwice(items, inGroup, HasAnchor, commented);
  }

  /** The newest of the group, found in the list itself. */
  lemma NewestInList(items: seq<InboxItem>, k: string, x: InboxItem) returns (n: nat)
    requires IsNewest(GroupOf(items, k), x)
    ensures NewestOf(items, n, k, false) && items[n] == x
  {
    var p := (x: InboxItem) => !x.archived && Key(x) == k;
    GroupIs(items, k);
    SelectTwice(items, IsActive, HasKey(k), p);
    n := NewestSelected(items, p, x);
    forall j | 0 <= j < |items| ensures p(items[j]) <==> Eligible(items[j], k, false) { KeyIsConcern(items[j], k); }
  }

  lemma NewestCommentInList(items: seq<InboxItem>, k: string, x: InboxItem) returns (n: nat)
    requires IsNewest(Select(GroupOf(items, k), HasAnchor), x)
    ensures NewestOf(items, n, k, true) && items[n] == x
  {
    var p := (x: InboxItem) => !x.archived && Key(x) == k;
    var q := (x: InboxItem) => !x.archived && Key(x) == k && HasAnchor(x);
    SelectTwice(items, IsActive, HasKey(k), p);
    SelectTwice(items, p, HasAnchor, q);
    n := NewestSelected(items, q, x);
    forall j | 0 <= j < |items| ensures q(items[j]) <==> Eligible(items[j], k, true) { KeyIsConcern(items[j], k); }
  }

  /** What a row's details are: the newest item's own, but with the comment of the newest item
      that shows one if the newest item has none and some item shows one. */
  ghost predicate DetailsOf(items: seq<InboxItem>, n: nat, k: string, details: Option<Details>)
    requires n < |items|
  {
    var own := items[n].details;
    if (own.Some? && own.value.commentId != None) || forall j :: 0 <= j < |items| ==> !Eligible(items[j], k, true)
    then details == own
    else exists m: nat ::
      && NewestOf(items, m, k, true)
      && details == Some(Details(items[m].details.value.commentId, if own.Some? then own.value.other else map[]))
  }

  /** A row is the newest unarchived item of its issue in every field but its details. */
  lemma RowIs(items: seq<InboxItem>, row: InboxItem, k: string) returns (n: nat)
    requires row in Deduplicated(items) && Concerns(row, k)
    ensures NewestOf(items, n, k, false)
    ensures row == items[n].(details := row.details) && DetailsOf(items, n, k, row.details)
  {
    RowOf(items, row);
    KeyIsConcern(row, k);
    var group := GroupOf(items, k);
    var anchored := Select(group, HasAnchor);
    var newest :| IsNewest(group, newest) && Anchored(row, newest, anchored);
    n := NewestInList(items, k, newest);
    if anchored == [] {
      NoneShowsComment(items, k);
    } else if CommentId(newest).None? {
      var x :| IsNewest(anchored, x) && HasAnchor(x) && row == WithComment(newest, CommentId(x).value);
      var m := NewestCommentInList(items, k, x);
      assert Eligible(items[m], k, true);
    }
  }

  lemma NoneShowsComment(items: seq<InboxItem>, k: string)
    requires Select(GroupOf(items, k), HasAnchor) == []
    ensures forall j :: 0 <= j < |items| ==> !Eligible(items[j], k, true)
  {
    forall j | 0 <= j < |items| ensures !Eligible(items[j], k, true) {
      if Eligible(items[j], k, true) {
        KeyIsConcern(items[j], k);
        MembersOfGroup(items, k);
        SelectMembers(GroupOf(items, k), HasAnchor, items[j]);
      }
    }
  }

  /** The list, on the fields: no two rows concern one issue, newer rows come first, and every
      unarchived item's issue has a row. */
  lemma ListIs(items: seq<InboxItem>, k: string)
    ensures var rows := Deduplicated(items);
            && (forall i, j :: 0 <= i < j < |rows| ==> rows[i].createdAt >= rows[j].createdAt)
            && (forall i, j :: 0 <= i < j < |rows| ==> !(Concerns(rows[i], k) && Concerns(rows[j], k)))
            && ((exists row :: row in rows && Concerns(row, k)) <==>
                (exists x :: x in items && !x.archived && Concerns(x, k)))
  {
    var rows := Deduplicated(items);
    OneNewestRowPerIssue(items, k);
    forall x ensures Key(x) == k <==> Concerns(x, k) { KeyIsConcern(x, k); }
    forall i, j | 0 <= i < j < |rows| ensures rows[i].createdAt >= rows[j].createdAt {
      assert Age(rows[i]) <= Age(rows[j]);
    }
    if x: InboxItem :| x in items && !x.archived && Concerns(x, k) { assert Key(x) == k; }
    if row: InboxItem :| row in rows && Concerns(row, k) { assert Key(row) == k; }
    if x: InboxItem :| x in items && !x.archived && Key(x) == k { assert Concerns(x, k); }
    if row: InboxItem :| row in rows && Key(row) == k { assert Concerns(row, k); }
  }

  // ---------- Rows of the same age ----------

  /** Where an issue is first given among the unarchived items. */
  function FirstGiven(items: seq<InboxItem>, k: string): nat {
    if items == [] || (!items[0].archived && Key(items[0]) == k) then 0 else 1 + FirstGiven(items[1..], k)
  }

  lemma {:induction false} FirstGivenIs(items: seq<InboxItem>, k: string)
    ensures var n := FirstGiven(items, k);
            && n <= |items| && (n < |items| ==> !items[n].archived && Concerns(items[n], k))
            && forall j :: 0 <= j < n ==> items[j].archived || !Concerns(items[j], k)
  {
    if items != [] {
      KeyIsConcern(items[0], k);
      FirstGivenIs(items[1..], k);
      assert forall j :: 0 <= j < |items| - 1 ==> items[1..][j] == items[j + 1];
    }
  }

  ghost predicate TiesInOrder(s: seq<InboxItem>, rank: InboxItem -> int) {
    forall i, j :: 0 <= i < j < |s| && s[i].createdAt == s[j].createdAt ==> rank(s[i]) < rank(s[j])
  }

  lemma {:induction false} InsertKeepsTies(s: seq<InboxItem>, x: InboxItem, rank: InboxItem -> int)
    requires Sorted(s, Age) && TiesInOrder(s, rank) && forall y :: y in s ==> rank(y) < rank(x)
    ensures TiesInOrder(Insert(s, Age, x), rank)
  {
    if s != [] && Age(s[|s| - 1]) > Age(x) {
      var front, last := s[..|s| - 1], s[|s| - 1];
      assert Sorted(front, Age) && TiesInOrder(front, rank);
      InsertKeepsTies(front, x, rank);
      var inserted := Insert(front, Age, x);
      forall i | 0 <= i < |inserted| && inserted[i].createdAt == last.createdAt ensures rank(inserted[i]) < rank(last) {
        TieBefore(s, x, rank, i);
      }
    }
  }

  lemma TieBefore(s: seq<InboxItem>, x: InboxItem, rank: InboxItem -> int, i: nat)
    requires s != [] && TiesInOrder(s, rank) && Age(s[|s| - 1]) > Age(x)
    requires i < |Insert(s[..|s| - 1], Age, x)|
    requires Insert(s[..|s| - 1], Age, x)[i].createdAt == s[|s| - 1].createdAt
    ensures rank(Insert(s[..|s| - 1], Age, x)[i]) < rank(s[|s| - 1])
  {
    var front, y := s[..|s| - 1], Insert(s[..|s| - 1], Age, x)[i];
    InsertPermutes(front, Age, x);
    assert y in multiset(Insert(front, Age, x));
    assert y in front;
    var j :| 0 <= j < |front| && front[j] == y;
    assert s[j] == y;
  }

  lemma {:induction false} SortKeepsTies(s: seq<InboxItem>, rank: InboxItem -> int)
    requires forall i, j :: 0 <= i < j < |s| ==> rank(s[i]) < rank(s[j])
    ensures TiesInOrder(Sort(s, Age), rank)
  {
    if s != [] {
      var front, last := s[..|s| - 1], s[|s| - 1];
      SortKeepsTies(front, rank);
      SortSorts(front, Age);
      SortPermutes(front, Age);
      forall y | y in Sort(front, Age) ensures rank(y) < rank(last) {
        assert y in multiset(Sort(front, Age));
        assert y in front;
        var i :| 0 <= i < |front| && front[i] == y;
        assert s[i] == y;
      }
      InsertKeepsTies(Sort(front, Age), last, rank);
    }
  }

  lemma {:induction false} FirstGivenPush(items: seq<InboxItem>, x: InboxItem, k: string)
    ensures FirstGiven(items + [x], k) ==
            if FirstGiven(items, k) < |items| || (!x.archived && Key(x) == k) then FirstGiven(items, k)
            else |items| + 1
  {
    if items == [] {
      assert (items + [x])[1..] == [] && items + [x] == [x];
      FirstGivenIs([], k);
    } else {
      assert (items + [x])[1..] == items[1..] + [x];
      FirstGivenPush(items[1..], x, k);
    }
  }

  /** The keys stand in the order in which their issues are first given. */
  lemma {:induction false} KeysFollowTheItems(items: seq<InboxItem>)
    ensures var keys := Keys(Select(items, IsActive));
            && (forall k :: k in keys <==> FirstGiven(items, k) < |items|)
            && forall i, j :: 0 <= i < j < |keys| ==> FirstGiven(items, keys[i]) < FirstGiven(items, keys[j])
  {
    if items != [] {
      var front, last := items[..|items| - 1], items[|items| - 1];
      assert items == front + [last];
      KeysFollowTheItems(front);
      forall k ensures FirstGiven(front, k) <= |front| &&
                       FirstGiven(items, k) ==
                       if FirstGiven(front, k) < |front| || (!last.archived && Key(last) == k) then FirstGiven(front, k)
                       else |items|
      {
        FirstGivenIs(front, k);
        FirstGivenPush(front, last, k);
      }
      SelectPush(front, last, IsActive);
      if IsActive(last) { KeysPush(Select(front, IsActive), last); }
    }
  }

  /** Rows of the same age stand in the order in which their issues are first given. */
  lemma TiesFollowTheItems(items: seq<InboxItem>, i: nat, j: nat)
    requires i < j < |Deduplicated(items)|
    requires Deduplicated(items)[i].createdAt == Deduplicated(items)[j].createdAt
    ensures FirstGiven(items, Key(Deduplicated(items)[i])) < FirstGiven(items, Key(Deduplicated(items)[j]))
  {
    var active := Select(items, IsActive);
    var rank := (x: InboxItem) => FirstGiven(items, Key(x));
    KeysFollowTheItems(items);
    KeysAreDistinct(active);
    forall a, b | 0 <= a < b < |Merged(active)| ensures rank(Merged(active)[a]) < rank(Merged(active)[b]) {
      MergedRow(items, a);
      MergedRow(items, b);
    }
    SortKeepsTies(Merged(active), rank);
  }
}
