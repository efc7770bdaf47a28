/** The stable sort of ECMAScript's `Array.prototype.sort` under a numeric key. */
module StableSort {

  ghost predicate Sorted<T(!new)>(s: seq<T>, key: T -> int) {
    forall i, j :: 0 <= i < j < |s| ==> key(s[i]) <= key(s[j])
  }

  /** `x` behind every element that does not exceed it. */
  function Insert<T(!new)>(s: seq<T>, key: T -> int, x: T): seq<T> {
    if s == [] || key(s[|s| - 1]) <= key(x) then s + [x]
    else Insert(s[..|s| - 1], key, x) + [s[|s| - 1]]
  }

  function Sort<T(!new)>(s: seq<T>, key: T -> int): seq<T> {
    if s == [] then [] else Insert(Sort(s[..|s| - 1], key), key, s[|s| - 1])
  }

  ghost predicate AtMost<T(!new)>(s: seq<T>, key: T -> int, bound: int) {
    forall i :: 0 <= i < |s| ==> key(s[i]) <= bound
  }

  lemma SortedPush<T(!new)>(s: seq<T>, key: T -> int, x: T)
    ensures Sorted(s + [x], key) <==> Sorted(s, key) && AtMost(s, key, key(x))
  {
    var t := s + [x];
    assert forall i :: 0 <= i < |s| ==> t[i] == s[i];
    if Sorted(t, key) {
      forall i | 0 <= i < |s| ensures key(s[i]) <= key(x) { assert key(t[i]) <= key(t[|s|]); }
      forall i, j | 0 <= i < j < |s| ensures key(s[i]) <= key(s[j]) { assert key(t[i]) <= key(t[j]); }
    }
  }

  lemma {:induction false} InsertSorts<T(!new)>(s: seq<T>, key: T -> int, x: T, bound: int)
    requires Sorted(s, key)
    ensures Sorted(Insert(s, key, x), key)
    ensures AtMost(s, key, bound) && key(x) <= bound ==> AtMost(Insert(s, key, x), key, bound)
    decreases |s|
  {
    if s == [] {
      SortedPush(s, key, x);
    } else {
      var front, last := s[..|s| - 1], s[|s| - 1];
      assert s == front + [last];
      SortedPush(front, key, last);
      if key(last) <= key(x) {
        assert AtMost(s, key, key(x));
        SortedPush(s, key, x);
      } else {
        InsertSorts(front, key, x, key(last));
        InsertSorts(front, key, x, bound);
        SortedPush(Insert(front, key, x), key, last);
      }
    }
  }

  lemma {:induction false} InsertPermutes<T(!new)>(s: seq<T>, key: T -> int, x: T)
    ensures multiset(Insert(s, key, x)) == multiset(s) + multiset{x}
  {
    if s != [] && key(s[|s| - 1]) > key(x) {
      InsertPermutes(s[..|s| - 1], key, x);
      assert s == s[..|s| - 1] + [s[|s| - 1]];
    }
  }

  lemma {:induction false} SortSorts<T(!new)>(s: seq<T>, key: T -> int)
    ensures Sorted(Sort(s, key), key)
  {
    if s != [] {
      SortSorts(s[..|s| - 1], key);
      InsertSorts(Sort(s[..|s| - 1], key), key, s[|s| - 1], 0);
    }
  }

  lemma {:induction false} SortPermutes<T(!new)>(s: seq<T>, key: T -> int)
    ensures multiset(Sort(s, key)) == multiset(s)
  {
    if s != [] {
      SortPermutes(s[..|s| - 1], key);
      InsertPermutes(Sort(s[..|s| - 1], key), key, s[|s| - 1]);
      assert s == s[..|s| - 1] + [s[|s| - 1]];
    }
  }

  lemma {:induction false} SortOfSorted<T(!new)>(s: seq<T>, key: T -> int)
    requires Sorted(s, key)
    ensures Sort(s, key) == s
  {
    if s != [] {
      var front, last := s[..|s| - 1], s[|s| - 1];
      assert s == front + [last];
      SortedPush(front, key, last);
      SortOfSorted(front, key);
    }
  }

  function Select<T(!new)>(s: seq<T>, p: T -> bool): seq<T> {
    if s == [] then []
    else if p(s[|s| - 1]) then Select(s[..|s| - 1], p) + [s[|s| - 1]]
    else Select(s[..|s| - 1], p)
  }

  lemma SelectPush<T(!new)>(s: seq<T>, x: T, p: T -> bool)
    ensures Select(s + [x], p) == if p(x) then Select(s, p) + [x] else Select(s, p)
  {
    assert (s + [x])[..|s|] == s;
  }

  lemma {:induction false} SelectMembers<T(!new)>(s: seq<T>, p: T -> bool, x: T)
    ensures x in Select(s, p) <==> x in s && p(x)
  {
    if s != [] {
      SelectMembers(s[..|s| - 1], p, x);
      assert s == s[..|s| - 1] + [s[|s| - 1]];
    }
  }

  lemma {:induction false} SelectPrepend<T(!new)>(x: T, s: seq<T>, p: T -> bool)
    ensures Select([x] + s, p) == if p(x) then [x] + Select(s, p) else Select(s, p)
    decreases |s|
  {
    if s == [] {
      assert [x] + s == [] + [x];
      SelectPush([], x, p);
    } else {
      var front, last := s[..|s| - 1], s[|s| - 1];
      assert [x] + s == ([x] + front) + [last];
      SelectPush([x] + front, last, p);
      SelectPrepend(x, front, p);
    }
  }

  lemma InsertBehind<T(!new)>(s: seq<T>, key: T -> int, x: T)
    requires AtMost(s, key, key(x))
    ensures Insert(s, key, x) == s + [x]
  {
  }

  lemma InsertBefore<T(!new)>(s: seq<T>, last: T, key: T -> int, x: T)
    requires key(last) > key(x)
    ensures Insert(s + [last], key, x) == Insert(s, key, x) + [last]
  {
    assert (s + [last])[..|s|] == s;
  }

  lemma {:induction false} SelectKeepsBound<T(!new)>(s: seq<T>, p: T -> bool, key: T -> int, bound: int)
    requires AtMost(s, key, bound)
    ensures AtMost(Select(s, p), key, bound)
  {
    if s != [] {
      assert AtMost(s[..|s| - 1], key, bound);
      SelectKeepsBound(s[..|s| - 1], p, key, bound);
    }
  }

  /** Inserting and selecting commute. */
  lemma {:induction false} InsertSelected<T(!new)>(s: seq<T>, p: T -> bool, key: T -> int, x: T)
    requires Sorted(s, key)
    ensures Select(Insert(s, key, x), p) == if p(x) then Insert(Select(s, p), key, x) else Select(s, p)
    decreases |s|
  {
    if s == [] {
      SelectPush(s, x, p);
      InsertBehind(Select(s, p), key, x);
    } else {
      var front, last := s[..|s| - 1], s[|s| - 1];
      assert s == front + [last];
      SortedPush(front, key, last);
      if key(last) <= key(x) {
        SelectPush(s, x, p);
        assert AtMost(s, key, key(x));
        SelectKeepsBound(s, p, key, key(x));
        InsertBehind(Select(s, p), key, x);
      } else {
        InsertSelected(front, p, key, x);
        SelectPush(Insert(front, key, x), last, p);
        SelectPush(front, last, p);
        if p(last) { InsertBefore(Select(front, p), last, key, x); }
      }
    }
  }

  /** Where an element is inserted: ahead of everything that exceeds it. */
  lemma {:induction false} InsertAt<T(!new)>(s: seq<T>, key: T -> int, x: T, p: nat)
    requires p <= |s| && (p > 0 ==> key(s[p - 1]) <= key(x))
    requires forall k :: p <= k < |s| ==> key(s[k]) > key(x)
    ensures Insert(s, key, x) == s[..p] + [x] + s[p..]
    decreases |s|
  {
    if p < |s| {
      var front := s[..|s| - 1];
      InsertAt(front, key, x, p);
      assert front[..p] == s[..p] && front[p..] + [s[|s| - 1]] == s[p..];
    } else {
      assert s[..p] == s && s[p..] == [];
    }
  }

  lemma SortPush<T(!new)>(s: seq<T>, key: T -> int, x: T)
    ensures Sort(s + [x], key) == Insert(Sort(s, key), key, x)
  {
    assert (s + [x])[..|s|] == s;
  }

  /** Sorting and selecting commute. */
  lemma {:induction false} SortSelected<T(!new)>(s: seq<T>, p: T -> bool, key: T -> int)
    ensures Select(Sort(s, key), p) == Sort(Select(s, p), key)
  {
    if s != [] {
      var front, last := s[..|s| - 1], s[|s| - 1];
      assert s == front + [last];
      SortSelected(front, p, key);
      SortSorts(front, key);
      SortPush(front, key, last);
      InsertSelected(Sort(front, key), p, key, last);
      SelectPush(front, last, p);
      if p(last) { SortPush(Select(front, p), key, last); }
    }
  }

  function HasRank<T(!new)>(key: T -> int, k: int): T -> bool { x => key(x) == k }

  /** The result is a sorted permutation of the input, and elements that compare equal keep
      their order. */
  lemma SortIsStable<T(!new)>(s: seq<T>, key: T -> int, k: int)
    ensures Sorted(Sort(s, key), key) && multiset(Sort(s, key)) == multiset(s)
    ensures Select(Sort(s, key), HasRank(key, k)) == Select(s, HasRank(key, k))
  {
    SortSorts(s, key);
    SortPermutes(s, key);
    SortSelected(s, HasRank(key, k), key);
    var ties := Select(s, HasRank(key, k));
    forall i | 0 <= i < |ties| ensures key(ties[i]) == k { SelectMembers(s, HasRank(key, k), ties[i]); }
    SortOfSorted(ties, key);
  }
}
