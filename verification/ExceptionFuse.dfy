/** The fuse that drops repeated exception reports of a browser session. */
module ExceptionFuse {

  import opened Sequences
  import opened Wrappers

  const EXCEPTION_SAMPLE_LIMIT := 3
  const MAX_FINGERPRINTS := 50

  /** What the storage key holds: the counts this code wrote, or a text that does not parse to
      an object. */
  datatype Blob = Corrupt | Stored(counts: map<string, nat>)

  /** How storage behaves during one report: whether it exists, and whether a read or a write
      throws. */
  datatype Access = Access(available: bool, readable: bool, writable: bool)

  /** `readCounts`. */
  function CountsIn(item: Option<Blob>): map<string, nat> {
    if item.Some? && item.value.Stored? then item.value.counts else map[]
  }

  function CountOf(item: Option<Blob>, fingerprint: string): nat {
    if fingerprint in CountsIn(item) then CountsIn(item)[fingerprint] else 0
  }

  /** Whether a report is dropped. */
  predicate Drops(item: Option<Blob>, fingerprint: Option<string>, access: Access) {
    && fingerprint.Some? && access.available && access.readable
    && CountOf(item, fingerprint.value) >= EXCEPTION_SAMPLE_LIMIT
  }

  /** Whether a report changes the stored counts. */
  predicate Counts(item: Option<Blob>, fingerprint: Option<string>, access: Access) {
    && fingerprint.Some? && access == Access(true, true, true)
    && !Drops(item, fingerprint, access)
    && (CountOf(item, fingerprint.value) > 0 || |CountsIn(item)| < MAX_FINGERPRINTS)
  }

  function ItemAfter(item: Option<Blob>, fingerprint: Option<string>, access: Access): Option<Blob> {
    if !Counts(item, fingerprint, access) then item
    else Some(Stored(CountsIn(item)[fingerprint.value := CountOf(item, fingerprint.value) + 1]))
  }

  /** What can happen to the item: a report, or another script that clears it or leaves garbage. */
  datatype Event = Report(fingerprint: Option<string>, access: Access) | Cleared | Garbled

  function Next(item: Option<Blob>, e: Event): Option<Blob> {
    match e
    case Report(fingerprint, access) => ItemAfter(item, fingerprint, access)
    case Cleared => None
    case Garbled => Some(Corrupt)
  }

  /** The item after a session that starts with none. */
  function After(events: seq<Event>): Option<Blob> {
    if events == [] then None else Next(After(events[..|events| - 1]), events[|events| - 1])
  }

  /** How many reports of a fingerprint were kept. */
  function Kept(events: seq<Event>, fingerprint: string): nat {
    if events == [] then 0
    else
      var before, e := events[..|events| - 1], events[|events| - 1];
      Kept(before, fingerprint)
      + if e.Report? && e.fingerprint == Some(fingerprint) && !Drops(After(before), e.fingerprint, e.access)
        then 1 else 0
  }

  /** How many reports of a fingerprint there were. */
  function Seen(events: seq<Event>, fingerprint: string): nat {
    if events == [] then 0
    else
      var e := events[|events| - 1];
      Seen(events[..|events| - 1], fingerprint) + if e.Report? && e.fingerprint == Some(fingerprint) then 1 else 0
  }

  /** Whatever fails, a stored count never exceeds the reports kept, and at most fifty
      fingerprints are stored. */
  lemma {:induction false} StoredCountsAreEarned(events: seq<Event>)
    ensures |CountsIn(After(events))| <= 50
    ensures forall f :: f in CountsIn(After(events)) ==>
              1 <= CountsIn(After(events))[f] <= Kept(events, f) && CountsIn(After(events))[f] <= 3
  {
    if events != [] {
      var before, e := events[..|events| - 1], events[|events| - 1];
      StoredCountsAreEarned(before);
      if e.Report? && Counts(After(before), e.fingerprint, e.access) {
        var counts, f := CountsIn(After(before)), e.fingerprint.value;
        assert CountsIn(After(events)) == counts[f := CountOf(After(before), f) + 1];
        assert counts[f := CountOf(After(before), f) + 1].Keys == counts.Keys + {f};
      }
    }
  }

  /** Fail open: a report is dropped only when at least three with its fingerprint were kept
      before. */
  lemma DroppedOnlyAfterThreeKept(events: seq<Event>, fingerprint: Option<string>, access: Access)
    requires Drops(After(events), fingerprint, access)
    ensures fingerprint.Some? && Kept(events, fingerprint.value) >= 3
  {
    StoredCountsAreEarned(events);
  }

  /** Nothing failed and nobody else touched the item. */
  ghost predicate Steady(events: seq<Event>) {
    forall i :: 0 <= i < |events| ==> events[i].Report? && events[i].access == Access(true, true, true)
  }

  /** The fingerprints in the order they were first reported. */
  function FirstSeen(events: seq<Event>): seq<string> {
    if events == [] then []
    else
      var before, e := FirstSeen(events[..|events| - 1]), events[|events| - 1];
      if e.Report? && e.fingerprint.Some? && e.fingerprint.value !in before then before + [e.fingerprint.value]
        else before
  }

  /** The first fifty of them. */
  function Tracked(events: seq<Event>): seq<string> {
    var seen := FirstSeen(events);
    if |seen| <= 50 then seen else seen[..50]
  }

  function AtMostThree(n: nat): nat { if n < EXCEPTION_SAMPLE_LIMIT then n else EXCEPTION_SAMPLE_LIMIT }

  lemma {:induction false} SeenIffFirstSeen(events: seq<Event>, f: string)
    ensures Seen(events, f) > 0 <==> f in FirstSeen(events)
  {
    if events != [] { SeenIffFirstSeen(events[..|events| - 1], f); }
  }

  lemma TrackedStep(events: seq<Event>, f: string)
    requires events != [] && events[|events| - 1].Report? && events[|events| - 1].fingerprint == Some(f)
    ensures var before := events[..|events| - 1];
            Tracked(events) ==
            if f !in FirstSeen(before) && |Tracked(before)| < MAX_FINGERPRINTS then Tracked(before) + [f]
            else Tracked(before)
    ensures f in Tracked(events) ==> f in FirstSeen(events)
  {
  }

  ghost predicate Mirrors(counts: map<string, nat>, tracked: seq<string>, events: seq<Event>) {
    && |counts| == |tracked|
    && (forall f :: f in counts <==> f in tracked)
    && (forall f :: f in counts ==> counts[f] == AtMostThree(Seen(events, f)))
  }

  ghost predicate CountsAreSteady(events: seq<Event>) { Mirrors(CountsIn(After(events)), Tracked(events), events) }

  lemma AnotherReport(counts: map<string, nat>, tracked: seq<string>, before: seq<Event>, events: seq<Event>, f: string)
    requires Mirrors(counts, tracked, before)
    requires forall g :: Seen(events, g) == Seen(before, g) + if g == f then 1 else 0
    ensures f !in counts || counts[f] >= EXCEPTION_SAMPLE_LIMIT ==> Mirrors(counts, tracked, events)
    ensures f in counts && counts[f] < EXCEPTION_SAMPLE_LIMIT ==> Mirrors(counts[f := counts[f] + 1], tracked, events)
    ensures f !in counts && Seen(before, f) == 0 ==> Mirrors(counts[f := 1], tracked + [f], events)
  {
    if f in counts {
      AddingCounts(counts, f, counts[f] + 1);
    } else {
      AddingCounts(counts, f, 1);
    }
  }

  lemma {:induction false} SteadyCounts(events: seq<Event>)
    requires Steady(events)
    ensures CountsAreSteady(events)
  {
    if events != [] {
      var before, e := events[..|events| - 1], events[|events| - 1];
      SteadyCounts(before);
      SteadyCountsStep(events, before, e);
    }
  }

  lemma SteadyCountsStep(events: seq<Event>, before: seq<Event>, e: Event)
    requires events == before + [e] && CountsAreSteady(before)
    requires e.Report? && e.access == Access(true, true, true)
    ensures CountsAreSteady(events)
  {
    assert events[..|events| - 1] == before;
    if e.fingerprint.Some? {
      var f := e.fingerprint.value;
      TrackedStep(events, f);
      SeenIffFirstSeen(before, f);
      forall g ensures Seen(events, g) == Seen(before, g) + if g == f then 1 else 0 {}
      AnotherReport(CountsIn(After(before)), Tracked(before), before, events, f);
      if f in Tracked(before) { TrackedWereSeen(before, f); }
    }
  }

  lemma TrackedWereSeen(events: seq<Event>, f: string)
    requires f in Tracked(events)
    ensures f in FirstSeen(events)
  {
  }

  lemma AddingCounts(counts: map<string, nat>, f: string, n: nat)
    ensures |counts[f := n]| == |counts| + if f in counts then 0 else 1
  {
    assert counts[f := n].Keys == counts.Keys + {f};
  }

  /** When nothing fails, each of the first fifty fingerprints keeps exactly its first three
      reports, and every other fingerprint keeps all of them. */
  lemma {:induction false} SteadyFuseKeepsThree(events: seq<Event>, f: string)
    requires Steady(events)
    ensures Kept(events, f) == if f in Tracked(events) && Seen(events, f) > 3 then 3 else Seen(events, f)
  {
    if events != [] {
      var before, e := events[..|events| - 1], events[|events| - 1];
      SteadyFuseKeepsThree(before, f);
      SteadyCounts(before);
      SeenIffFirstSeen(before, f);
      if e.fingerprint.Some? { TrackedStep(events, e.fingerprint.value); }
    }
  }

  // ---------- Fingerprints and each other ----------

  predicate ReportsOther(e: Event, f: string) { e.Report? && e.fingerprint != Some(f) }

  /** The same session without the reports of anything else. */
  function Alone(events: seq<Event>, f: string): seq<Event> {
    if events == [] then []
    else
      var e := events[|events| - 1];
      Alone(events[..|events| - 1], f) + if ReportsOther(e, f) then [] else [e]
  }

  lemma AloneStep(events: seq<Event>, f: string)
    requires events != []
    ensures var before, e := Alone(events[..|events| - 1], f), events[|events| - 1];
            && After(Alone(events, f)) == (if ReportsOther(e, f) then After(before) else Next(After(before), e))
            && Kept(Alone(events, f), f) ==
               Kept(before, f) +
               (if e.Report? && e.fingerprint == Some(f) && !Drops(After(before), e.fingerprint, e.access)
                then 1 else 0)
  {
    var before, e := Alone(events[..|events| - 1], f), events[|events| - 1];
    if ReportsOther(e, f) {
      assert Alone(events, f) == before;
    } else {
      assert Alone(events, f)[..|before|] == before;
    }
  }

  lemma {:induction false} AloneTracksOnlyItself(events: seq<Event>, f: string)
    ensures CountsIn(After(Alone(events, f))).Keys <= {f}
  {
    if events != [] {
      AloneTracksOnlyItself(events[..|events| - 1], f);
      AloneStep(events, f);
    }
  }

  lemma OneKey(counts: map<string, nat>, f: string)
    requires counts.Keys <= {f}
    ensures |counts| <= 1
  {
    assert counts.Keys == {} || counts.Keys == {f};
  }

  /** A fully working report of `f` that would begin its count meets a full store. */
  predicate RefusedBy(item: Option<Blob>, e: Event, f: string) {
    && e == Report(Some(f), Access(true, true, true))
    && CountOf(item, f) == 0 && |CountsIn(item)| >= 50
  }

  predicate Refused(events: seq<Event>, f: string) {
    && events != []
    && (Refused(events[..|events| - 1], f) || RefusedBy(After(events[..|events| - 1]), events[|events| - 1], f))
  }

  predicate CountsAsAlone(events: seq<Event>, f: string) {
    CountOf(After(events), f) == CountOf(After(Alone(events, f)), f)
  }

  predicate AlwaysCountsAsAlone(events: seq<Event>, f: string) {
    && (events != [] ==> AlwaysCountsAsAlone(events[..|events| - 1], f))
    && CountsAsAlone(events, f)
  }

  /** One event, met by the item of the session and by that of the session alone. */
  lemma StepAsAlone(item: Option<Blob>, alone: Option<Blob>, e: Event, f: string)
    requires CountOf(item, f) == CountOf(alone, f) && CountsIn(alone).Keys <= {f}
    ensures CountOf(Next(item, e), f) == CountOf(if ReportsOther(e, f) then alone else Next(alone, e), f) <==>
            !RefusedBy(item, e, f)
  {
    OneKey(CountsIn(alone), f);
  }

  /** Over every session, with anything failing, being cleared or garbled: a fingerprint is
      counted as it would be alone exactly until a report of it meets a full store. */
  lemma {:induction false} CountsAsAloneIff(events: seq<Event>, f: string)
    ensures AlwaysCountsAsAlone(events, f) <==> !Refused(events, f)
  {
    if events != [] {
      var before := events[..|events| - 1];
      CountsAsAloneIff(before, f);
      if AlwaysCountsAsAlone(before, f) {
        assert CountsAsAlone(before, f);
        AloneTracksOnlyItself(before, f);
        AloneStep(events, f);
        StepAsAlone(After(before), After(Alone(before, f)), events[|events| - 1], f);
      }
    }
  }

  /** And then it keeps exactly the reports it would keep alone. */
  lemma {:induction false} UnrefusedKeepsAsAlone(events: seq<Event>, f: string)
    requires !Refused(events, f)
    ensures Kept(events, f) == Kept(Alone(events, f), f)
  {
    if events != [] {
      var before := events[..|events| - 1];
      UnrefusedKeepsAsAlone(before, f);
      CountsAsAloneIff(before, f);
      assert CountsAsAlone(before, f);
      AloneStep(events, f);
    }
  }

  /** Refused or not, other fingerprints never make the fuse drop more. */
  lemma {:induction false} OthersNeverDropMore(events: seq<Event>, f: string)
    ensures CountOf(After(events), f) <= CountOf(After(Alone(events, f)), f)
    ensures Kept(events, f) >= Kept(Alone(events, f), f)
  {
    if events != [] {
      var before, e := events[..|events| - 1], events[|events| - 1];
      OthersNeverDropMore(before, f);
      AloneStep(events, f);
      AloneTracksOnlyItself(before, f);
      StepAtMostAlone(After(before), After(Alone(before, f)), e, f);
    }
  }

  lemma StepAtMostAlone(item: Option<Blob>, alone: Option<Blob>, e: Event, f: string)
    requires CountOf(item, f) <= CountOf(alone, f) && CountsIn(alone).Keys <= {f}
    ensures CountOf(Next(item, e), f) <= CountOf(if ReportsOther(e, f) then alone else Next(alone, e), f)
  {
    OneKey(CountsIn(alone), f);
  }

  lemma SeenPush(events: seq<Event>, e: Event, f: string)
    ensures Seen(events + [e], f) == Seen(events, f) + if e.Report? && e.fingerprint == Some(f) then 1 else 0
  {
    assert (events + [e])[..|events|] == events;
  }

  lemma FirstSeenPush(events: seq<Event>, f: string, access: Access)
    ensures FirstSeen(events + [Report(Some(f), access)]) ==
            if f in FirstSeen(events) then FirstSeen(events) else FirstSeen(events) + [f]
  {
    assert (events + [Report(Some(f), access)])[..|events|] == events;
  }

  lemma {:induction false} AloneIsSteady(events: seq<Event>, f: string)
    requires Steady(events)
    ensures Steady(Alone(events, f))
  {
    if events != [] { AloneIsSteady(events[..|events| - 1], f); }
  }

  lemma {:induction false} AloneSees(events: seq<Event>, f: string)
    requires Steady(events)
    ensures Seen(Alone(events, f), f) == Seen(events, f)
    ensures FirstSeen(Alone(events, f)) == if Seen(events, f) > 0 then [f] else []
  {
    if events != [] {
      var before, e := events[..|events| - 1], events[|events| - 1];
      AloneSees(before, f);
      if ReportsOther(e, f) {
        assert Alone(events, f) == Alone(before, f);
      } else {
        SeenPush(Alone(before, f), e, f);
        FirstSeenPush(Alone(before, f), f, e.access);
      }
    }
  }

  /** When nothing fails: a fingerprint keeps what it would keep alone exactly when it is one
      of the first fifty or is reported at most three times. */
  lemma KeepsWhatItWouldAloneIff(events: seq<Event>, f: string)
    requires Steady(events)
    ensures Kept(Alone(events, f), f) == AtMostThree(Seen(events, f))
    ensures Kept(events, f) == Kept(Alone(events, f), f) <==>
            f in Tracked(events) || Seen(events, f) <= 3
  {
    AloneIsSteady(events, f);
    AloneSees(events, f);
    SteadyFuseKeepsThree(events, f);
    SteadyFuseKeepsThree(Alone(events, f), f);
  }

  function Reports(fingerprints: seq<string>): seq<Event> {
    seq(|fingerprints|, i requires 0 <= i < |fingerprints| => Report(Some(fingerprints[i]), Access(true, true, true)))
  }

  lemma {:induction false} ReportsFirstSeen(fs: seq<string>)
    requires Distinct(fs)
    ensures FirstSeen(Reports(fs)) == fs
  {
    if fs != [] {
      var front := fs[..|fs| - 1];
      ReportsFirstSeen(front);
      assert Reports(fs)[..|fs| - 1] == Reports(front);
      assert fs == front + [fs[|fs| - 1]];
    }
  }

  /** It does happen otherwise: after fifty others, a fingerprint's fourth report is kept. */
  lemma FiftyFirstIsNeverDropped(others: seq<string>, f: string)
    requires |others| == 50 && f !in others
    requires Distinct(others)
    ensures Kept(Reports(others + [f, f, f, f]), f) == 4
  {
    var events := Reports(others + [f, f, f, f]);
    ReportsFirstSeen(others);
    SeenIffFirstSeen(Reports(others), f);
    var n := |others|;
    ReportsPush(others, f);
    ReportsPush(others + [f], f);
    ReportsPush(others + [f, f], f);
    ReportsPush(others + [f, f, f], f);
    assert others + [f] + [f] == others + [f, f] && others + [f, f] + [f] == others + [f, f, f];
    assert others + [f, f, f] + [f] == others + [f, f, f, f];
    SteadyFuseKeepsThree(events, f);
  }

  lemma ReportsPush(fs: seq<string>, f: string)
    ensures Seen(Reports(fs + [f]), f) == Seen(Reports(fs), f) + 1
    ensures FirstSeen(Reports(fs + [f])) == FirstSeen(Reports(fs)) + if f in FirstSeen(Reports(fs)) then [] else [f]
  {
    assert Reports(fs + [f])[..|fs|] == Reports(fs);
  }

  const LOST := Access(true, true, false)

  /** A first report whose count is lost changes nothing but that it was kept. */
  lemma {:induction false} LostFirst(events: seq<Event>, f: string)
    ensures After([Report(Some(f), LOST)] + events) == After(events)
    ensures Kept([Report(Some(f), LOST)] + events, f) == 1 + Kept(events, f)
    ensures [f] <= FirstSeen([Report(Some(f), LOST)] + events)
  {
    var lost := Report(Some(f), LOST);
    var all := [lost] + events;
    if events == [] {
      assert all[..0] == [] && all == [lost];
      assert FirstSeen([]) == [] && Kept([], f) == 0;
    } else {
      assert all[..|all| - 1] == [lost] + events[..|events| - 1];
      LostFirst(events[..|events| - 1], f);
    }
  }

  lemma {:induction false} AloneOfReports(others: seq<string>, f: string)
    requires f !in others
    ensures Alone(Reports(others), f) == []
  {
    if others != [] {
      assert Reports(others)[..|others| - 1] == Reports(others[..|others| - 1]);
      AloneOfReports(others[..|others| - 1], f);
    }
  }

  lemma {:induction false} AloneConcat(a: seq<Event>, b: seq<Event>, f: string)
    ensures Alone(a + b, f) == Alone(a, f) + Alone(b, f)
  {
    if b == [] {
      assert a + b == a;
    } else {
      assert (a + b)[..|a + b| - 1] == a + b[..|b| - 1];
      AloneConcat(a, b[..|b| - 1], f);
    }
  }

  /** With a failure being one of the first fifty is not enough: when the write of the first
      report of `f` fails, fifty others can fill the store, and `f` keeps five reports where
      alone it would keep four. */
  lemma LostWriteLosesThePlace(others: seq<string>, f: string)
    requires |others| == 50 && f !in others && Distinct(others)
    ensures var events := [Report(Some(f), LOST)] + Reports(others + [f, f, f, f]);
            f in Tracked(events) && Kept(events, f) == 5 && Kept(Alone(events, f), f) == 4
  {
    var lost, four := [Report(Some(f), LOST)], Reports([f, f, f, f]);
    var rest := Reports(others + [f, f, f, f]);
    FiftyFirstIsNeverDropped(others, f);
    LostFirst(rest, f);
    assert FirstSeen(lost + rest)[0] == f;
    AloneOfLost(others, f);
    LostFirst(four, f);
    FourAlone(f);
  }

  lemma AloneOfLost(others: seq<string>, f: string)
    requires f !in others
    ensures Alone([Report(Some(f), LOST)] + Reports(others + [f, f, f, f]), f) ==
            [Report(Some(f), LOST)] + Reports([f, f, f, f])
  {
    var lost, four := [Report(Some(f), LOST)], Reports([f, f, f, f]);
    assert Reports(others + [f, f, f, f]) == Reports(others) + four;
    AloneConcat(lost, Reports(others) + four, f);
    AloneConcat(Reports(others), four, f);
    AloneOfReports(others, f);
    LoneReports(lost, f);
    LoneReports(four, f);
  }

  lemma {:induction false} LoneReports(events: seq<Event>, f: string)
    requires forall i :: 0 <= i < |events| ==> !ReportsOther(events[i], f)
    ensures Alone(events, f) == events
  {
    if events != [] {
      LoneReports(events[..|events| - 1], f);
      assert events == events[..|events| - 1] + [events[|events| - 1]];
    }
  }

  lemma AnotherReportOf(fs: seq<string>, f: string)
    requires FirstSeen(Reports(fs)) == [f]
    ensures Seen(Reports(fs + [f]), f) == Seen(Reports(fs), f) + 1 && FirstSeen(Reports(fs + [f])) == [f]
  {
    ReportsPush(fs, f);
    assert f in FirstSeen(Reports(fs));
    assert [f] + [] == [f];
  }

  lemma FirstReportOf(f: string)
    ensures Seen(Reports([f]), f) == 1 && FirstSeen(Reports([f])) == [f]
  {
    assert Reports([]) == [] && [] + [f] == [f];
    ReportsPush([], f);
  }

  lemma FourAreSeen(f: string)
    ensures Seen(Reports([f, f, f, f]), f) == 4 && FirstSeen(Reports([f, f, f, f])) == [f]
  {
    var two := [f] + [f];
    var three := two + [f];
    FirstReportOf(f);
    AnotherReportOf([f], f);
    AnotherReportOf(two, f);
    AnotherReportOf(three, f);
    assert three + [f] == [f, f, f, f];
  }

  lemma FourAlone(f: string)
    ensures Kept(Reports([f, f, f, f]), f) == 3
  {
    FourAreSeen(f);
    SteadyFuseKeepsThree(Reports([f, f, f, f]), f);
  }

  // ---------- The browser's storage ----------

  class SessionStorage {
    /** The item under the fuse's key. */
    var item: Option<Blob>
    ghost var events: seq<Event>

    ghost predicate Valid()
      reads this
    {
      item == After(events)
    }

    constructor ()
      ensures Valid() && events == []
    {
      item, events := None, [];
    }

    ghost method Record(before: Option<Blob>, e: Event)
      requires before == After(events) && item == Next(before, e)
      modifies this`events
      ensures Valid() && events == old(events) + [e]
    {
      assert (events + [e])[..|events|] == events;
      events := events + [e];
    }

    method ShouldDropException(fingerprint: Option<string>, access: Access) returns (drop: bool)
      requires Valid()
      modifies this
      ensures Valid() && events == old(events) + [Report(fingerprint, access)]
      ensures drop == Drops(old(item), fingerprint, access)
      ensures item == ItemAfter(old(item), fingerprint, access)
      ensures drop ==> fingerprint.Some? && Kept(old(events), fingerprint.value) >= 3
    {
      ghost var before := item;
      drop := Decide(fingerprint, access);
      if drop { DroppedOnlyAfterThreeKept(events, fingerprint, access); }
      Record(before, Report(fingerprint, access));
    }

    method Decide(fingerprint: Option<string>, access: Access) returns (drop: bool)
      modifies this`item
      ensures drop == Drops(old(item), fingerprint, access)
      ensures item == ItemAfter(old(item), fingerprint, access)
    {
      if fingerprint.None? { return false; }
      if !access.available { return false; }
      if !access.readable { return false; }
      var counts := CountsIn(item);
      var current := if fingerprint.value in counts then counts[fingerprint.value] else 0;
      if current >= EXCEPTION_SAMPLE_LIMIT { return true; }
      if current == 0 && |counts| >= MAX_FINGERPRINTS { return false; }
      counts := counts[fingerprint.value := current + 1];
      if access.writable { item := Some(Stored(counts)); }
      return false;
    }

    /** What another script may do to the item. */
    method Disturb(clear: bool)
      requires Valid()
      modifies this
      ensures Valid() && events == old(events) + [if clear then Cleared else Garbled]
    {
      ghost var before := item;
      item := if clear then None else Some(Corrupt);
      Record(before, if clear then Cleared else Garbled);
    }
  }

  // ---------- Failures, written out ----------

  /** Failures only ever keep: without storage, or when it cannot be read or written, the item
      stays as it is; only a report whose count was read can be dropped; and one without a
      fingerprint is neither counted nor dropped. */
  lemma FailuresOnlyKeep(item: Option<Blob>, fingerprint: Option<string>, access: Access)
    ensures !access.available || !access.readable || !access.writable || fingerprint == None ==>
              Next(item, Report(fingerprint, access)) == item
    ensures Drops(item, fingerprint, access) ==> access.available && access.readable && fingerprint.Some?
    ensures item == None || item == Some(Corrupt) ==> !Drops(item, fingerprint, access)
  {
  }
}
