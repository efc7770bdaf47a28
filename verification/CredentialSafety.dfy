/** What holds over every schedule of the credential protocol. */
module CredentialSafety {

  import opened Wrappers
  import opened Credentials

  // ---------- The invariant over whole runs ----------

  lemma StepKeepsInv(s: State, e: Event)
    requires Inv(s) && Enabled(s, e)
    ensures Inv(Step(s, e))
  {
    match e
    case EndSession => EnqueueKeepsInv(s, Clear, EndSessionStep(s));
    case SignIn => EnqueueKeepsInv(s, Set(Token(s.epoch + 1, s.issued)), SignInStep(s));
    case StartRenewal => ReadKeepsInv(s, e);
    case SampleRead => ReadKeepsInv(s, e);
    case DeliverRead(_) => ReadKeepsInv(s, e);
    case ServerAnswers(answer) => AnswerKeepsInv(s, answer);
    case WriterStep(ok) => WriterKeepsInv(s, ok);
    case Resume => ResumeKeepsInv(s);
  }

  lemma {:induction false} RunKeepsInv(s: State, events: seq<Event>)
    requires Inv(s) && Run(s, events).Some?
    ensures Inv(Run(s, events).value)
    decreases |events|
  {
    if events != [] {
      StepKeepsInv(s, events[0]);
      RunKeepsInv(Step(s, events[0]), events[1..]);
    }
  }

  /** What the Keychain may hold at launch: nothing, or a token of an earlier sign-in. */
  predicate Restorable(initial: Option<Token>) { initial.Some? ==> initial.value == Token(0, 0) }

  /** A state the app can be in, `events` after a launch that found `initial` in the Keychain. */
  ghost predicate Reaches(initial: Option<Token>, events: seq<Event>, s: State) {
    && Restorable(initial)
    && Run(Launch(initial), events) == Some(s)
  }

  lemma ReachableInv(initial: Option<Token>, events: seq<Event>, s: State)
    requires Reaches(initial, events, s)
    ensures Inv(s)
  {
    RunKeepsInv(Launch(initial), events);
  }

  // ---------- Who owns the Keychain ----------

  predicate MovesEpoch(e: Event) { e.EndSession? || e.SignIn? }

  function Bumps(events: seq<Event>): nat {
    if events == [] then 0
    else Bumps(events[..|events| - 1]) + if MovesEpoch(events[|events| - 1]) then 1 else 0
  }

  /** The session the latest epoch-moving event of a schedule asks for: none after a teardown,
      the session it opens after a sign-in. */
  function LatestOwner(initial: Option<nat>, events: seq<Event>): Option<nat> {
    if events == [] then initial
    else match events[|events| - 1]
      case EndSession => None
      case SignIn => Some(Bumps(events))
      case _ => LatestOwner(initial, events[..|events| - 1])
  }

  lemma {:induction false} RunSplit(s: State, events: seq<Event>)
    requires events != [] && Run(s, events).Some?
    ensures var before := Run(s, events[..|events| - 1]);
            var last := events[|events| - 1];
            before.Some? && Enabled(before.value, last) && Run(s, events) == Some(Step(before.value, last))
    decreases |events|
  {
    if |events| > 1 {
      RunSplit(Step(s, events[0]), events[1..]);
      assert events[1..][..|events| - 2] == events[..|events| - 1][1..];
    }
  }

  /** The state before the `k`-th event of a schedule. */
  ghost function StateBefore(initial: Option<Token>, events: seq<Event>, k: nat): Option<State>
    requires Restorable(initial) && k <= |events|
  {
    Run(Launch(initial), events[..k])
  }

  /** The event settles an unconditional write. */
  predicate SettlesUnconditional(s: Option<State>, e: Event) {
    s.Some? && e.WriterStep? && s.value.queue != [] && !s.value.queue[0].Commit?
  }

  /** The event changes what is stored. */
  predicate Lands(s: Option<State>, e: Event) {
    && s.Some? && e == WriterStep(true) && s.value.queue != []
    && (s.value.queue[0].Commit? ==> s.value.phase == ValueChecked)
  }

  /** The event refuses to publish a renewal whose token is stored, because the epoch moved. */
  predicate Refuses(s: Option<State>, e: Event) {
    && s.Some? && e == Resume && s.value.resumptions != []
    && var r := s.value.resumptions[0];
       r.PublishRenewal? && r.epoch != s.value.epoch && s.value.stored == Some(r.token)
  }

  /** The latest unconditional write to settle, if any, landed. */
  ghost predicate Delivered(initial: Option<Token>, events: seq<Event>)
    requires Restorable(initial)
  {
    if events == [] then true
    else
      var n := |events| - 1;
      if SettlesUnconditional(StateBefore(initial, events, n), events[n]) then events[n].ok
      else Delivered(initial, events[..n])
  }

  /** The session of the latest unconditional write that landed. */
  ghost function Landed(initial: Option<Token>, events: seq<Event>): Option<nat>
    requires Restorable(initial)
  {
    if events == [] then SessionOf(initial)
    else
      var n := |events| - 1;
      var s := StateBefore(initial, events, n);
      if SettlesUnconditional(s, events[n]) && events[n].ok then SessionOf(Writes(s.value.queue[0]))
      else Landed(initial, events[..n])
  }

  /** A renewal's publication met a moved epoch while its token was stored, and every write
      since has failed. */
  ghost predicate Orphaned(initial: Option<Token>, events: seq<Event>)
    requires Restorable(initial)
  {
    exists k :: 0 <= k < |events| && OrphanedAt(initial, events, k)
  }

  ghost predicate OrphanedAt(initial: Option<Token>, events: seq<Event>, k: nat)
    requires Restorable(initial) && k < |events|
  {
    && Refuses(StateBefore(initial, events, k), events[k])
    && forall j :: k < j < |events| ==> !Lands(StateBefore(initial, events, j), events[j])
  }

  /** What one step does to the history fields. */
  lemma StepHistory(s: State, e: Event)
    requires Enabled(s, e)
    ensures var s' := Step(s, e);
            && s'.epoch == s.epoch + (if MovesEpoch(e) then 1 else 0)
            && s'.owner == (match e case EndSession => None case SignIn => Some(s.epoch + 1) case _ => s.owner)
            && s'.delivered == (if SettlesUnconditional(Some(s), e) then e.ok else s.delivered)
  {
  }

  lemma StepStorageHistory(s: State, e: Event)
    requires Enabled(s, e)
    ensures var s' := Step(s, e);
            && s'.orphaned == (Refuses(Some(s), e) || (s.orphaned && !Lands(Some(s), e)))
            && s'.landed ==
               (if SettlesUnconditional(Some(s), e) && e.ok then SessionOf(Writes(s.queue[0])) else s.landed)
  {
  }

  lemma OrphanedStep(initial: Option<Token>, events: seq<Event>)
    requires Restorable(initial) && events != []
    ensures var n := |events| - 1;
            var s := StateBefore(initial, events, n);
            Orphaned(initial, events) <==>
            Refuses(s, events[n]) || (Orphaned(initial, events[..n]) && !Lands(s, events[n]))
  {
    var n := |events| - 1;
    var front := events[..n];
    assert forall k :: 0 <= k <= n ==> front[..k] == events[..k];
    if Refuses(StateBefore(initial, events, n), events[n]) { assert OrphanedAt(initial, events, n); }
    if Orphaned(initial, front) && !Lands(StateBefore(initial, events, n), events[n]) {
      var k :| 0 <= k < |front| && OrphanedAt(initial, front, k);
      assert OrphanedAt(initial, events, k);
    }
    if Orphaned(initial, events) && !Refuses(StateBefore(initial, events, n), events[n]) {
      var k :| 0 <= k < |events| && OrphanedAt(initial, events, k);
      assert OrphanedAt(initial, front, k);
    }
  }

  /** The history fields say what the schedule did. */
  lemma {:induction false} HistoryIsTheSchedule(initial: Option<Token>, events: seq<Event>, s: State)
    requires Reaches(initial, events, s)
    ensures s.epoch == Bumps(events) && s.owner == LatestOwner(SessionOf(initial), events)
    ensures s.delivered == Delivered(initial, events) && s.landed == Landed(initial, events)
    ensures s.orphaned == Orphaned(initial, events)
    decreases |events|
  {
    if events != [] {
      RunSplit(Launch(initial), events);
      var before, e := events[..|events| - 1], events[|events| - 1];
      var s0 := Run(Launch(initial), before).value;
      HistoryIsTheSchedule(initial, before, s0);
      StepHistory(s0, e);
      StepStorageHistory(s0, e);
      OrphanedStep(initial, events);
    }
  }

  /** At every moment the Keychain belongs to the latest unconditional write that landed. */
  lemma KeychainBelongsToWhatLanded(initial: Option<Token>, events: seq<Event>, s: State)
    requires Reaches(initial, events, s)
    ensures SessionOf(s.stored) == Landed(initial, events)
  {
    ReachableInv(initial, events, s);
    HistoryIsTheSchedule(initial, events, s);
  }

  /** Once the queue has drained, the Keychain belongs to the latest epoch-moving operation (it
      is empty after a teardown, and after a sign-in holds that sign-in's token or a renewal of
      it) exactly when the write of that operation landed, whatever else failed; the one other
      case is a teardown whose delete failed with nothing there to delete. */
  lemma DrainedKeychainBelongsToLatestOwner(initial: Option<Token>, events: seq<Event>, s: State)
    requires Reaches(initial, events, s) && Drained(s)
    ensures var owner := LatestOwner(SessionOf(initial), events);
            SessionOf(s.stored) == owner <==>
              Delivered(initial, events) || (owner == None && Landed(initial, events) == None)
  {
    ReachableInv(initial, events, s);
    HistoryIsTheSchedule(initial, events, s);
  }

  /** The failing case happens: a sign-in whose write fails leaves the earlier session stored. */
  lemma FailedSignInKeepsTheOldToken(initial: Option<Token>) returns (events: seq<Event>, s: State)
    requires Restorable(initial)
    ensures Reaches(initial, events, s) && Quiescent(s) && s.stored == s.memory == initial
    ensures LatestOwner(SessionOf(initial), events) == Some(1) && SessionOf(s.stored) != Some(1)
  {
    events, s := SignInIsLost(initial);
    HistoryIsTheSchedule(initial, events, s);
  }

  lemma SignInIsLost(initial: Option<Token>) returns (events: seq<Event>, s: State)
    requires Restorable(initial)
    ensures Reaches(initial, events, s) && Quiescent(s) && s.stored == s.memory == initial
    ensures s.owner == Some(1)
  {
    var launch := Launch(initial);
    events, s := [], launch;
    events, s := Then(launch, events, s, SignIn);
    assert s.queue == [Set(Token(1, 1))];
    events, s := Then(launch, events, s, WriterStep(false));
    assert s.resumptions == [];
  }

  lemma OnlyWritesStore(s: State, e: Event)
    requires Enabled(s, e) && Step(s, e).stored != s.stored
    ensures e == WriterStep(true) && (s.queue[0].Commit? ==> s.phase == ValueChecked)
    ensures Step(s, e).stored == Writes(s.queue[0])
  {
  }

  /** Writes may fail: no step of a renewal changes whose token is stored, and an empty
      Keychain is filled only by a sign-in's own write. */
  lemma RenewalNeverChangesTheSession(initial: Option<Token>, events: seq<Event>, s: State, e: Event)
    requires Reaches(initial, events, s) && Enabled(s, e)
    ensures var s' := Step(s, e);
            && (SessionOf(s'.stored) != SessionOf(s.stored) ==> e == WriterStep(true) && Unconditional(s.queue[0]))
            && (s.stored.None? && s'.stored.Some? ==> e == WriterStep(true) && s.queue[0] == Set(s'.stored.value))
  {
    if Step(s, e).stored != s.stored {
      ReachableInv(initial, events, s);
      OnlyWritesStore(s, e);
    }
  }

  // ---------- The conditional write ----------

  /** `commitRenewedToken` is a compare-and-set: it replaces exactly `previous` or changes nothing. */
  lemma CommitIsCompareAndSet(initial: Option<Token>, events: seq<Event>, s: State, ok: bool)
    requires Reaches(initial, events, s) && s.queue != [] && s.queue[0].Commit?
    ensures var s' := WriterStepOn(s, ok);
            var Commit(token, epoch, previous) := s.queue[0];
            && s'.memory == s.memory && s'.epoch == s.epoch
            && (s'.stored != s.stored ==>
                  && s.stored == Some(previous) && s'.stored == Some(token)
                  && token.session == previous.session && token != previous)
            && (s.phase == Waiting && epoch != s.epoch ==> s'.stored == s.stored && s'.queue == s.queue[1..])
  {
    ReachableInv(initial, events, s);
  }

  /** A commit that has begun still compares against what is stored, and once an epoch move
      overtakes it an unconditional write is queued behind it. */
  lemma OvertakenCommitIsOverwritten(initial: Option<Token>, events: seq<Event>, s: State)
    requires Reaches(initial, events, s) && s.phase != Waiting
    ensures s.queue != [] && s.queue[0].Commit?
    ensures s.phase == ValueChecked ==> s.stored == Some(s.queue[0].previous)
    ensures s.queue[0].epoch != s.epoch ==> HasUnconditional(s.queue[1..])
  {
    ReachableInv(initial, events, s);
  }

  function Work(q: seq<Op>): nat {
    if q == [] then 0 else (if q[0].Commit? then 3 else 1) + Work(q[1..])
  }

  function Progress(s: State): nat { match s.phase case Waiting => 0 case EpochChecked => 1 case ValueChecked => 2 }

  function Drain(s: State, outcomes: seq<bool>): State
    decreases |outcomes|
  {
    if s.queue == [] || outcomes == [] then s else Drain(WriterStepOn(s, outcomes[0]), outcomes[1..])
  }

  /** Failed operations never stall the queue: whatever fails, it drains in `Work` steps. */
  lemma QueueAlwaysDrains(initial: Option<Token>, events: seq<Event>, s: State, outcomes: seq<bool>)
    requires Reaches(initial, events, s) && |outcomes| >= Work(s.queue) - Progress(s)
    ensures Drained(Drain(s, outcomes))
  {
    OvertakenHeadIsCommit(initial, events, s);
    DrainsInWork(s, outcomes);
  }

  /** Only a commit has inner awaits. */
  ghost predicate PhaseFits(s: State) { s.phase != Waiting ==> s.queue != [] && s.queue[0].Commit? }

  lemma OvertakenHeadIsCommit(initial: Option<Token>, events: seq<Event>, s: State)
    requires Reaches(initial, events, s)
    ensures PhaseFits(s)
  {
    ReachableInv(initial, events, s);
  }

  lemma {:induction false} DrainsInWork(s: State, outcomes: seq<bool>)
    requires PhaseFits(s) && |outcomes| >= Work(s.queue) - Progress(s)
    ensures Drained(Drain(s, outcomes))
    decreases |outcomes|
  {
    if s.queue != [] {
      DrainsInWork(WriterStepOn(s, outcomes[0]), outcomes[1..]);
    }
  }

  // ---------- Memory and storage ----------

  /** With nothing pending, memory and storage hold the same session, and the same token
      unless a renewal's publication was refused and every write since has failed; never when
      the latest teardown's or sign-in's write landed. */
  lemma QuiescentMemoryMatchesStorage(initial: Option<Token>, events: seq<Event>, s: State)
    requires Reaches(initial, events, s) && Quiescent(s)
    ensures SessionOf(s.memory) == SessionOf(s.stored)
    ensures s.memory == s.stored <==> !Orphaned(initial, events)
    ensures Delivered(initial, events) ==> s.memory == s.stored
  {
    ReachableInv(initial, events, s);
    HistoryIsTheSchedule(initial, events, s);
  }

  /** The other case happens: a logout overtakes a commit between check and write, the commit
      lands unpublished, and then the logout's delete fails. */
  lemma FailedDeleteOrphansARenewal() returns (events: seq<Event>, s: State)
    ensures Reaches(Some(Token(0, 0)), events, s) && Quiescent(s)
    ensures s.stored == Some(Token(0, 1)) && s.memory == Some(Token(0, 0))
  {
    var launch := Launch(Some(Token(0, 0)));
    var commit := Commit(Token(0, 1), 0, Token(0, 0));
    events, s := RenewalUnderWay();
    events, s := Then(launch, events, s, WriterStep(true));
    events, s := Then(launch, events, s, WriterStep(true));
    events, s := Then(launch, events, s, EndSession);
    assert s == launch.(epoch := 1, issued := 2, renewal := Committing, owner := None,
                        queue := [commit, Clear], phase := ValueChecked);
    events, s := OvertakenCommitLands(events, s);
    events, s := Then(launch, events, s, WriterStep(false));
  }

  /** A renewal up to its queued commit. */
  lemma RenewalUnderWay() returns (events: seq<Event>, s: State)
    ensures var launch := Launch(Some(Token(0, 0)));
            && Run(launch, events) == Some(s)
            && s == launch.(issued := 2, renewal := Committing, queue := [Commit(Token(0, 1), 0, Token(0, 0))])
  {
    var launch := Launch(Some(Token(0, 0)));
    events, s := [], launch;
    events, s := Then(launch, events, s, StartRenewal);
    events, s := Then(launch, events, s, SampleRead);
    events, s := Then(launch, events, s, DeliverRead(true));
    events, s := Then(launch, events, s, ServerAnswers(Renewed));
  }

  lemma OvertakenCommitLands(before: seq<Event>, s0: State) returns (events: seq<Event>, s: State)
    requires Run(Launch(Some(Token(0, 0))), before) == Some(s0)
    requires s0 == Launch(Some(Token(0, 0))).(epoch := 1, issued := 2, renewal := Committing, owner := None,
                     queue := [Commit(Token(0, 1), 0, Token(0, 0)), Clear], phase := ValueChecked)
    ensures var launch := Launch(Some(Token(0, 0)));
            && Run(launch, events) == Some(s)
            && s == launch.(epoch := 1, issued := 2, owner := None, queue := [Clear], stored := Some(Token(0, 1)),
              orphaned := true)
  {
    var launch := Launch(Some(Token(0, 0)));
    events, s := Then(launch, before, s0, WriterStep(true));
    events, s := Then(launch, events, s, Resume);
  }

  lemma {:induction false} RunThen(s: State, events: seq<Event>, s': State, e: Event)
    requires Run(s, events) == Some(s') && Enabled(s', e)
    ensures Run(s, events + [e]) == Some(Step(s', e))
    decreases |events|
  {
    if events != [] {
      assert (events + [e])[1..] == events[1..] + [e];
      RunThen(Step(s, events[0]), events[1..], s', e);
    }
  }

  lemma Then(launch: State, events: seq<Event>, s: State, e: Event) returns (events': seq<Event>, s': State)
    requires Run(launch, events) == Some(s) && Enabled(s, e)
    ensures events' == events + [e] && s' == Step(s, e) && Run(launch, events') == Some(s')
  {
    RunThen(launch, events, s, e);
    events', s' := events + [e], Step(s, e);
  }
}
