/** The recently viewed issues of each workspace, for the `@` suggestion bar. */
module ViewedIssues {

  import opened Recency
  import opened Sequences

  const CAPACITY := 10

  datatype Action = Push(id: string) | Remove(id: string)

  /** One workspace's list after an action. */
  function Apply(list: seq<string>, a: Action, cap: nat): seq<string> {
    match a
    case Push(id) => Cap([id] + Without(list, id), cap)
    case Remove(id) => Without(list, id)
  }

  function Replay(actions: seq<Action>, cap: nat): seq<string> {
    if actions == [] then [] else Apply(Replay(actions[..|actions| - 1], cap), actions[|actions| - 1], cap)
  }

  /** The list without any capacity. */
  function Uncapped(actions: seq<Action>): seq<string> {
    if actions == [] then []
    else match actions[|actions| - 1]
      case Push(id) => [id] + Without(Uncapped(actions[..|actions| - 1]), id)
      case Remove(id) => Without(Uncapped(actions[..|actions| - 1]), id)
  }

  lemma WithoutOfPrefix(a: seq<string>, b: seq<string>, x: string)
    requires a <= b
    ensures Without(a, x) <= Without(b, x)
  {
    WithoutPrefix(b, |a|, x);
    assert b[..|a|] == a;
  }

  /** Over every history of pushes and removals the list is a prefix, at most ten long, of the
      one without a capacity. */
  lemma {:induction false} CappedListIsPrefix(actions: seq<Action>)
    ensures Replay(actions, CAPACITY) <= Uncapped(actions) && |Replay(actions, CAPACITY)| <= CAPACITY
  {
    if actions != [] {
      var before, id := actions[..|actions| - 1], actions[|actions| - 1].id;
      CappedListIsPrefix(before);
      WithoutOfPrefix(Replay(before, CAPACITY), Uncapped(before), id);
      WithoutAbsent(Replay(before, CAPACITY), id);
    }
  }

  lemma {:induction false} UncappedIsDistinct(actions: seq<Action>)
    ensures Distinct(Uncapped(actions))
  {
    if actions != [] {
      var before, id := actions[..|actions| - 1], actions[|actions| - 1].id;
      UncappedIsDistinct(before);
      WithoutKeepsDistinct(Uncapped(before), id);
      WithoutMembers(Uncapped(before), id, id);
    }
  }

  /** Since `x` was last viewed it has always been among the ten first of the list without a
      capacity. */
  predicate NeverFell(actions: seq<Action>, x: string) {
    if actions == [] then false
    else if actions[|actions| - 1] == Action.Push(x) then true
    else NeverFell(actions[..|actions| - 1], x) && x in Cap(Uncapped(actions), CAPACITY)
  }

  lemma PrefixHolds(s: seq<string>, t: seq<string>, x: string)
    requires s <= t && Distinct(t)
    ensures x in s ==> (x in Cap(t, CAPACITY) <==> x in Cap(s, CAPACITY))
  {
    if x in s {
      var i :| 0 <= i < |s| && s[i] == x;
      assert t[i] == x;
      if i < CAPACITY {
        assert Cap(t, CAPACITY)[i] == x && Cap(s, CAPACITY)[i] == x;
      }
    }
  }

  /** Over every history the list holds exactly the issues that never fell off it since they
      were last viewed. */
  lemma {:induction false} HeldIffNeverFell(actions: seq<Action>, x: string)
    ensures x in Replay(actions, CAPACITY) <==> NeverFell(actions, x)
  {
    if actions != [] {
      var before, a := actions[..|actions| - 1], actions[|actions| - 1];
      var list, all := Replay(before, CAPACITY), Uncapped(before);
      HeldIffNeverFell(before, x);
      CappedListIsPrefix(before);
      CappedListIsPrefix(actions);
      UncappedIsDistinct(actions);
      WithoutMembers(list, a.id, x);
      WithoutMembers(all, a.id, x);
      WithoutOfPrefix(list, all, a.id);
      WithoutAbsent(list, a.id);
      match a {
        case Push(id) =>
          assert Replay(actions, CAPACITY)[0] == id;
          PrefixHolds([id] + Without(list, id), Uncapped(actions), x);
        case Remove(id) => PrefixHolds(Without(list, id), Uncapped(actions), x);
      }
    }
  }

  function Pushes(ids: seq<string>): seq<Action> {
    if ids == [] then [] else Pushes(ids[..|ids| - 1]) + [Push(ids[|ids| - 1])]
  }

  /** With pushes alone it is exactly the ten issues viewed last, the latest first. */
  lemma {:induction false} PushedListIsTheLatestTen(ids: seq<string>)
    ensures Replay(Pushes(ids), CAPACITY) == Cap(Recent(ids), CAPACITY)
  {
    if ids != [] {
      var front, last := ids[..|ids| - 1], ids[|ids| - 1];
      PushedListIsTheLatestTen(front);
      assert Pushes(ids)[..|Pushes(ids)| - 1] == Pushes(front);
      PushCapped(front, last, CAPACITY);
      assert ids == front + [last];
    }
  }

  /** The store. */
  class ViewedIssuesStore {
    var byWorkspace: map<string, seq<string>>
    ghost var actions: map<string, seq<Action>>

    ghost predicate Valid()
      reads this
    {
      && byWorkspace.Keys == actions.Keys
      && forall ws :: ws in actions ==> byWorkspace[ws] == Replay(actions[ws], CAPACITY)
    }

    constructor ()
      ensures Valid() && actions == map[]
    {
      byWorkspace, actions := map[], map[];
    }

    ghost function ActionsOf(ws: string): seq<Action>
      reads this
    {
      if ws in actions then actions[ws] else []
    }

    method Push(wsId: string, id: string)
      requires Valid()
      modifies this
      ensures Valid()
      ensures actions == old(actions)[wsId := old(ActionsOf(wsId)) + [Action.Push(id)]]
    {
      var prev := if wsId in byWorkspace then byWorkspace[wsId] else [];
      var next := Cap([id] + Without(prev, id), CAPACITY);
      ghost var log := ActionsOf(wsId);
      assert (log + [Action.Push(id)])[..|log|] == log;
      byWorkspace := byWorkspace[wsId := next];
      actions := actions[wsId := log + [Action.Push(id)]];
    }

    method Remove(wsId: string, id: string)
      requires Valid()
      modifies this
      ensures Valid()
      ensures actions == if wsId !in old(byWorkspace) then old(actions)
                         else old(actions)[wsId := old(ActionsOf(wsId)) + [Action.Remove(id)]]
    {
      if wsId !in byWorkspace {
        return;
      }
      ghost var log := ActionsOf(wsId);
      assert (log + [Action.Remove(id)])[..|log|] == log;
      byWorkspace := byWorkspace[wsId := Without(byWorkspace[wsId], id)];
      actions := actions[wsId := log + [Action.Remove(id)]];
    }
  }

  // ---------- What the lists are ----------

  /** The list after pushes: at most ten, latest first; an issue viewed that is missing was
      viewed before all ten. */
  lemma LatestTenAre(ids: seq<string>, x: string, y: string)
    ensures var list := Replay(Pushes(ids), CAPACITY);
            && |list| <= 10 && Distinct(list) && LatestFirst(list, ids)
            && (x in list ==> x in ids)
            && (x in ids && x !in list ==> |list| == 10)
            && (x in ids && x !in list && y in list ==> LastUse(ids, y) > LastUse(ids, x))
  {
    PushedListIsTheLatestTen(ids);
    CappedRecentIs(ids, CAPACITY);
  }

  /** When an issue was last viewed, -1 if it was removed since or never viewed. */
  function Viewed(actions: seq<Action>, x: string): int {
    if actions == [] then -1
    else
      match actions[|actions| - 1]
      case Push(id) => if id == x then |actions| - 1 else Viewed(actions[..|actions| - 1], x)
      case Remove(id) => if id == x then -1 else Viewed(actions[..|actions| - 1], x)
  }

  lemma {:induction false} UncappedMembers(actions: seq<Action>, x: string)
    ensures Viewed(actions, x) < |actions| && (x in Uncapped(actions) <==> Viewed(actions, x) >= 0)
  {
    if actions != [] {
      UncappedMembers(actions[..|actions| - 1], x);
      WithoutMembers(Uncapped(actions[..|actions| - 1]), actions[|actions| - 1].id, x);
    }
  }

  ghost predicate ByView(s: seq<string>, actions: seq<Action>) {
    forall i, j :: 0 <= i < j < |s| ==> Viewed(actions, s[i]) > Viewed(actions, s[j])
  }

  lemma {:induction false} WithoutKeepsView(s: seq<string>, x: string, actions: seq<Action>)
    requires ByView(s, actions)
    ensures ByView(Without(s, x), actions)
  {
    if s != [] {
      WithoutKeepsView(s[1..], x, actions);
      var rest := Without(s[1..], x);
      forall j | 0 <= j < |rest| ensures Viewed(actions, s[0]) > Viewed(actions, rest[j]) {
        WithoutMembers(s[1..], x, rest[j]);
        var k :| 0 <= k < |s[1..]| && s[1..][k] == rest[j];
        assert s[k + 1] == rest[j];
      }
    }
  }

  /** The list without a capacity: the issues viewed and not removed since, latest first. */
  lemma {:induction false} UncappedIs(actions: seq<Action>, x: string)
    ensures x in Uncapped(actions) <==> Viewed(actions, x) >= 0
    ensures ByView(Uncapped(actions), actions)
  {
    UncappedMembers(actions, x);
    if actions != [] {
      var before, id := actions[..|actions| - 1], actions[|actions| - 1].id;
      UncappedIs(before, x);
      WithoutKeepsView(Uncapped(before), id, before);
      var rest := Without(Uncapped(before), id);
      forall j | 0 <= j < |rest|
        ensures Viewed(actions, rest[j]) == Viewed(before, rest[j]) < |actions| - 1
      {
        WithoutMembers(Uncapped(before), id, rest[j]);
        UncappedMembers(before, rest[j]);
      }
    }
  }
}
