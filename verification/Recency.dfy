/** Lists of what was used most recently, capped. */
module Recency {

  import opened Sequences

  /** `s` without `x`. */
  function Without<T(==)>(s: seq<T>, x: T): seq<T> {
    if s == [] then [] else (if s[0] == x then [] else [s[0]]) + Without(s[1..], x)
  }

  /** The distinct elements of a history, the latest use first. */
  function Recent<T(==)>(history: seq<T>): seq<T> {
    if history == [] then []
    else [history[|history| - 1]] + Without(Recent(history[..|history| - 1]), history[|history| - 1])
  }

  function Cap<T>(s: seq<T>, cap: nat): seq<T> { if |s| <= cap then s else s[..cap] }

  lemma {:induction false} WithoutMembers<T>(s: seq<T>, x: T, y: T)
    ensures y in Without(s, x) <==> y in s && y != x
  {
    if s != [] {
      WithoutMembers(s[1..], x, y);
      assert s == [s[0]] + s[1..];
    }
  }

  lemma {:induction false} WithoutAbsent<T>(s: seq<T>, x: T)
    ensures x !in s ==> Without(s, x) == s
    ensures |Without(s, x)| <= |s|
  {
    if s != [] {
      WithoutAbsent(s[1..], x);
      assert s == [s[0]] + s[1..];
    }
  }

  lemma {:induction false} WithoutConcat<T>(a: seq<T>, b: seq<T>, x: T)
    ensures Without(a + b, x) == Without(a, x) + Without(b, x)
  {
    if a == [] {
      assert a + b == b;
    } else {
      assert (a + b)[1..] == a[1..] + b;
      WithoutConcat(a[1..], b, x);
    }
  }

  /** Dropping an element and the capped-off tail commute, as far as the cap sees. */
  lemma WithoutPrefix<T>(s: seq<T>, n: nat, x: T)
    requires n <= |s|
    ensures Without(s[..n], x) <= Without(s, x)
  {
    assert s == s[..n] + s[n..];
    WithoutConcat(s[..n], s[n..], x);
  }

  lemma {:induction false} WithoutKeepsDistinct<T(!new)>(s: seq<T>, x: T)
    requires Distinct(s)
    ensures Distinct(Without(s, x)) && (x in s ==> |Without(s, x)| == |s| - 1)
  {
    if s != [] {
      WithoutKeepsDistinct(s[1..], x);
      WithoutMembers(s[1..], x, s[0]);
      WithoutAbsent(s[1..], x);
      assert s == [s[0]] + s[1..];
    }
  }

  lemma {:induction false} RecentIsDistinct<T(!new)>(history: seq<T>)
    ensures Distinct(Recent(history))
    ensures forall x :: x in Recent(history) <==> x in history
  {
    if history != [] {
      var front, last := history[..|history| - 1], history[|history| - 1];
      RecentIsDistinct(front);
      WithoutKeepsDistinct(Recent(front), last);
      WithoutMembers(Recent(front), last, last);
      assert history == front + [last];
      forall x ensures x in Recent(history) <==> x in history { WithoutMembers(Recent(front), last, x); }
    }
  }

  /** Pushing onto a capped list is capping the longer history: what fell off never matters. */
  lemma PushCapped<T(!new)>(history: seq<T>, x: T, cap: nat)
    requires cap > 0
    ensures Cap([x] + Without(Cap(Recent(history), cap), x), cap) == Cap(Recent(history + [x]), cap)
  {
    var recent := Recent(history);
    assert (history + [x])[..|history|] == history;
    if |recent| > cap {
      RecentIsDistinct(history);
      WithoutPrefix(recent, cap, x);
      CapDropsAtMostOne(recent, cap, x);
    }
  }

  lemma CapDropsAtMostOne<T(!new)>(s: seq<T>, cap: nat, x: T)
    requires Distinct(s) && cap < |s|
    ensures |Without(s[..cap], x)| >= cap - 1
  {
    assert Distinct(s[..cap]);
    if x in s[..cap] { WithoutKeepsDistinct(s[..cap], x); } else { WithoutAbsent(s[..cap], x); }
  }

  function Reverse<T>(s: seq<T>): seq<T> {
    if s == [] then [] else [s[|s| - 1]] + Reverse(s[..|s| - 1])
  }

  lemma {:induction false} ReversePrepend<T>(x: T, s: seq<T>)
    ensures Reverse([x] + s) == Reverse(s) + [x]
  {
    if s == [] {
      assert ([x] + s)[..0] == [];
    } else {
      assert ([x] + s)[..|s|] == [x] + s[..|s| - 1];
      ReversePrepend(x, s[..|s| - 1]);
    }
  }

  lemma {:induction false} ReverseWithout<T>(s: seq<T>, x: T)
    ensures Reverse(Without(s, x)) == Without(Reverse(s), x)
  {
    if s != [] {
      ReverseWithout(s[1..], x);
      assert s == [s[0]] + s[1..];
      ReversePrepend(s[0], s[1..]);
      WithoutConcat(Reverse(s[1..]), [s[0]], x);
      WithoutSingle(s[0], x);
      if s[0] == x {
        assert Without(s, x) == Without(s[1..], x);
      } else {
        ReversePrepend(s[0], Without(s[1..], x));
      }
    }
  }

  lemma WithoutSingle<T>(y: T, x: T)
    ensures Without([y], x) == if y == x then [] else [y]
  {
    assert [y][1..] == [];
    assert Without([y], x) == (if y == x then [] else [y]) + Without([y][1..], x);
  }

  lemma {:induction false} ReverseSize<T>(s: seq<T>)
    ensures |Reverse(s)| == |s| && forall x :: x in Reverse(s) <==> x in s
  {
    if s != [] {
      ReverseSize(s[..|s| - 1]);
      assert s == s[..|s| - 1] + [s[|s| - 1]];
    }
  }

  lemma ReverseTail<T>(s: seq<T>)
    requires s != []
    ensures |Reverse(s)| == |s| && Reverse(s[1..]) == Reverse(s)[..|s| - 1]
  {
    ReverseSize(s);
    assert s == [s[0]] + s[1..];
    ReversePrepend(s[0], s[1..]);
    ReverseSize(s[1..]);
  }

  lemma {:induction false} ReverseKeepsDistinct<T(!new)>(s: seq<T>)
    ensures Distinct(Reverse(s)) ==> Distinct(s)
  {
    if s != [] && Distinct(Reverse(s)) {
      var front, last := s[..|s| - 1], s[|s| - 1];
      assert Reverse(s) == [last] + Reverse(front);
      forall i | 0 <= i < |Reverse(front)|
        ensures Reverse(front)[i] == Reverse(s)[i + 1] && Reverse(front)[i] != last
      {
        assert Reverse(s)[0] == last;
      }
      ReverseKeepsDistinct(front);
      ReverseSize(front);
      assert last !in front;
      assert s == front + [last];
    }
  }

  // ---------- What the list is ----------

  /** The last place of `x` in a history, -1 if it has none. */
  function LastUse<T(==)>(history: seq<T>, x: T): int {
    if history == [] then -1
    else if history[|history| - 1] == x then |history| - 1
    else LastUse(history[..|history| - 1], x)
  }

  lemma {:induction false} LastUseIsLast<T>(history: seq<T>, x: T)
    ensures -1 <= LastUse(history, x) < |history| && (LastUse(history, x) >= 0 <==> x in history)
    ensures LastUse(history, x) >= 0 ==> history[LastUse(history, x)] == x
    ensures forall k :: LastUse(history, x) < k < |history| ==> history[k] != x
  {
    if history != [] {
      LastUseIsLast(history[..|history| - 1], x);
      assert history == history[..|history| - 1] + [history[|history| - 1]];
    }
  }

  /** Later uses come first. */
  ghost predicate LatestFirst<T(!new)>(s: seq<T>, history: seq<T>) {
    forall i, j :: 0 <= i < j < |s| ==> LastUse(history, s[i]) > LastUse(history, s[j])
  }

  lemma {:induction false} WithoutKeepsOrder<T(!new)>(s: seq<T>, x: T, history: seq<T>)
    requires LatestFirst(s, history)
    ensures LatestFirst(Without(s, x), history)
  {
    if s != [] {
      assert LatestFirst(s[1..], history);
      WithoutKeepsOrder(s[1..], x, history);
      var rest := Without(s[1..], x);
      forall j | 0 <= j < |rest| ensures LastUse(history, s[0]) > LastUse(history, rest[j]) {
        WithoutMembers(s[1..], x, rest[j]);
        var k :| 0 <= k < |s[1..]| && s[1..][k] == rest[j];
        assert s[k + 1] == rest[j];
      }
    }
  }

  lemma {:induction false} RecentIsLatestFirst<T(!new)>(history: seq<T>)
    ensures LatestFirst(Recent(history), history)
  {
    if history != [] {
      var front, last := history[..|history| - 1], history[|history| - 1];
      var rest := Without(Recent(front), last);
      RecentIsLatestFirst(front);
      WithoutKeepsOrder(Recent(front), last, front);
      forall j | 0 <= j < |rest|
        ensures LastUse(history, rest[j]) == LastUse(front, rest[j]) < |history| - 1
      {
        WithoutMembers(Recent(front), last, rest[j]);
        LastUseIsLast(front, rest[j]);
      }
    }
  }

  /** The list of a history, capped: the ones used last, latest first; only when it is full is
      anything missing, and then only what was used before all of it. */
  lemma CappedRecentIs<T(!new)>(history: seq<T>, cap: nat)
    ensures var list := Cap(Recent(history), cap);
            && |list| <= cap && Distinct(list) && LatestFirst(list, history)
            && (forall x :: x in list ==> x in history)
            && (forall x, y :: x in history && x !in list && y in list ==> LastUse(history, y) > LastUse(history, x))
            && (forall x :: x in history && x !in list ==> |list| == cap)
  {
    var all, list := Recent(history), Cap(Recent(history), cap);
    RecentIsDistinct(history);
    RecentIsLatestFirst(history);
    forall k | 0 <= k < |list| ensures all[k] in list { assert list[k] == all[k]; }
    forall x, y | x in history && x !in list && y in list ensures LastUse(history, y) > LastUse(history, x) {
      var i :| 0 <= i < |all| && all[i] == x;
      var j :| 0 <= j < |list| && list[j] == y;
      assert all[j] == y;
      assert i >= |list|;
    }
  }
}
