/** That renewals take effect, and that no attempt is left behind. */
module CredentialLiveness {

  import opened Credentials
  import opened CredentialSafety
  import opened Wrappers

  lemma ThreeTurns(s: State, commit: Op)
    requires s.queue == [commit] && commit.Commit? && s.phase == Waiting && s.resumptions == []
    requires commit.epoch == s.epoch && s.stored == Some(commit.previous)
    ensures var end := WriterStepOn(WriterStepOn(WriterStepOn(s, true), true), true);
            end == s.(queue := [], stored := Some(commit.token), orphaned := false,
                      resumptions := [PublishRenewal(commit.token, commit.epoch)])
  {
  }

  /** A renewal nobody disturbs takes effect: from every state at rest with a token stored, the
      attempt that starts now replaces that token, stored and in memory, by a fresh one of the
      same session, and is over. */
  lemma RenewalTakesEffect(initial: Option<Token>, events: seq<Event>, s: State)
    returns (renewed: seq<Event>, s': State)
    requires Reaches(initial, events, s) && Quiescent(s) && s.renewal == Idle && s.stored.Some?
    ensures renewed == [StartRenewal, SampleRead, DeliverRead(true), ServerAnswers(Renewed),
                        WriterStep(true), WriterStep(true), WriterStep(true), Resume]
    ensures Run(s, renewed) == Some(s')
    ensures s'.stored == s'.memory == Some(Token(s.stored.value.session, s.issued))
    ensures s'.renewal == Idle && s'.epoch == s.epoch && Quiescent(s')
  {
    RestIsQuiet(initial, events, s);
    var sent, s1 := AttemptIsSent(s);
    var token := Token(s.stored.value.session, s.issued);
    renewed, s' := Then(s, sent, s1, ServerAnswers(Renewed));
    assert s' == s.(issued := s.issued + 1, renewal := Committing,
                    queue := [Commit(token, s.epoch, s.stored.value)]);
    renewed, s' := CommitLands(s, renewed, s', Commit(token, s.epoch, s.stored.value));
    renewed, s' := Then(s, renewed, s', Resume);
  }

  lemma RestIsQuiet(initial: Option<Token>, events: seq<Event>, s: State)
    requires Reaches(initial, events, s) && Quiescent(s)
    ensures s.phase == Waiting && SessionOf(s.memory) == SessionOf(s.stored)
  {
    ReachableInv(initial, events, s);
  }

  lemma CommitLands(launch: State, events: seq<Event>, s: State, commit: Op) returns (events': seq<Event>, s': State)
    requires Run(launch, events) == Some(s) && s.queue == [commit] && commit.Commit?
    requires s.phase == Waiting && s.resumptions == [] && commit.epoch == s.epoch && s.stored == Some(commit.previous)
    ensures events' == events + [WriterStep(true), WriterStep(true), WriterStep(true)]
    ensures Run(launch, events') == Some(s')
    ensures s' == s.(queue := [], stored := Some(commit.token), orphaned := false,
                     resumptions := [PublishRenewal(commit.token, commit.epoch)])
  {
    ThreeTurns(s, commit);
    events', s' := Then(launch, events, s, WriterStep(true));
    events', s' := Then(launch, events', s', WriterStep(true));
    events', s' := Then(launch, events', s', WriterStep(true));
  }

  lemma AttemptIsSent(s: State) returns (events: seq<Event>, s': State)
    requires s.renewal == Idle && s.stored.Some? && s.resumptions == []
    ensures events == [StartRenewal, SampleRead, DeliverRead(true)] && Run(s, events) == Some(s')
    ensures s' == s.(renewal := Requesting(s.epoch, s.stored.value, s.memory))
  {
    events, s' := [], s;
    events, s' := Then(s, events, s', StartRenewal);
    events, s' := Then(s, events, s', SampleRead);
    events, s' := Then(s, events, s', DeliverRead(true));
  }

  /** While an attempt waits for its read, it remembers the epoch at which it started. */
  lemma {:induction false} AttemptRemembersItsEpoch(s: State, mid: seq<Event>, s': State)
    requires (s.renewal.Reading? || s.renewal.Sampled?) && Run(s, mid) == Some(s')
    requires forall i :: 0 <= i < |mid| ==> !mid[i].DeliverRead?
    requires RenewalsResuming(s.resumptions) == CommitsQueued(s.queue) == 0
    ensures (s'.renewal.Reading? || s'.renewal.Sampled?) && s'.renewal.epoch == s.renewal.epoch
    ensures s'.epoch == s.epoch + Moves(mid)
    decreases |mid|
  {
    if mid != [] {
      NothingToResume(s, mid[0]);
      assert forall i :: 0 <= i < |mid| - 1 ==> mid[1..][i] == mid[i + 1];
      AttemptRemembersItsEpoch(Step(s, mid[0]), mid[1..], s');
    }
  }

  /** How many sign-ins and teardowns a schedule begins. */
  function Moves(events: seq<Event>): nat {
    if events == [] then 0
    else (if events[0] == EndSession || events[0] == SignIn then 1 else 0) + Moves(events[1..])
  }

  lemma {:induction false} NoMoves(events: seq<Event>)
    ensures Moves(events) == 0 <==> forall i :: 0 <= i < |events| ==> events[i] != EndSession && events[i] != SignIn
  {
    if events != [] {
      assert forall i :: 0 <= i < |events| - 1 ==> events[1..][i] == events[i + 1];
      NoMoves(events[1..]);
    }
  }

  lemma NothingToResume(s: State, e: Event)
    requires (s.renewal.Reading? || s.renewal.Sampled?) && Enabled(s, e) && !e.DeliverRead?
    requires RenewalsResuming(s.resumptions) == CommitsQueued(s.queue) == 0
    ensures var s' := Step(s, e);
            && (s'.renewal.Reading? || s'.renewal.Sampled?) && s'.renewal.epoch == s.renewal.epoch
            && RenewalsResuming(s'.resumptions) == CommitsQueued(s'.queue) == 0
            && s'.epoch == s.epoch + if e == EndSession || e == SignIn then 1 else 0
  {
    match e
    case EndSession => QueueAppend(s.queue, Clear, None);
    case SignIn => QueueAppend(s.queue, Set(Token(s.epoch + 1, s.issued)), None);
    case WriterStep(ok) => NothingToCommit(s, ok);
    case _ =>
  }

  lemma NothingToCommit(s: State, ok: bool)
    requires s.queue != [] && RenewalsResuming(s.resumptions) == CommitsQueued(s.queue) == 0
    ensures var s' := WriterStepOn(s, ok);
            && s'.renewal == s.renewal && s'.epoch == s.epoch
            && RenewalsResuming(s'.resumptions) == CommitsQueued(s'.queue) == 0
  {
    if !ok {
      assert s.resumptions + [] == s.resumptions;
    } else {
      match s.queue[0]
      case Set(token) => ResumptionsAppend(s.resumptions, PublishSignIn(token));
      case Clear => ResumptionsAppend(s.resumptions, PublishTeardown);
    }
  }

  lemma IdleWaitsForNothing(initial: Option<Token>, events: seq<Event>, s: State)
    requires Reaches(initial, events, s) && s.renewal == Idle
    ensures RenewalsResuming(s.resumptions) == CommitsQueued(s.queue) == 0
  {
    ReachableInv(initial, events, s);
  }

  /** Whatever happens while its token is being read, an attempt sends a request exactly when
      the read succeeded, gave a token, and no sign-in or teardown began since the attempt did. */
  lemma RequestIsSentIff(initial: Option<Token>, events: seq<Event>, s: State, mid: seq<Event>, s': State, ok: bool)
    requires Reaches(initial, events, s) && s.renewal == Idle
    requires Run(s, [StartRenewal] + mid) == Some(s') && Enabled(s', DeliverRead(ok))
    requires forall i :: 0 <= i < |mid| ==> !mid[i].DeliverRead?
    ensures var sent := Step(s', DeliverRead(ok)).renewal;
            && (sent.Requesting? <==>
                  && ok && s'.renewal.value.Some?
                  && forall i :: 0 <= i < |mid| ==> mid[i] != EndSession && mid[i] != SignIn)
            && (sent.Requesting? ==> sent == Requesting(s.epoch, s'.renewal.value.value, s'.memory))
            && (!sent.Requesting? ==> sent == Idle)
  {
    IdleWaitsForNothing(initial, events, s);
    StartedAttempt(s, mid, s');
    ReadIsDelivered(s', ok);
  }

  lemma ReadIsDelivered(s: State, ok: bool)
    requires Enabled(s, DeliverRead(ok))
    ensures Step(s, DeliverRead(ok)).renewal ==
            if ok && s.renewal.value.Some? && s.epoch == s.renewal.epoch
            then Requesting(s.epoch, s.renewal.value.value, s.memory) else Idle
  {
  }

  /** An attempt remembers the epoch of its start, which has moved exactly if something moved it. */
  lemma StartedAttempt(s: State, mid: seq<Event>, s': State)
    requires s.renewal == Idle && RenewalsResuming(s.resumptions) == CommitsQueued(s.queue) == 0
    requires Run(s, [StartRenewal] + mid) == Some(s')
    requires forall i :: 0 <= i < |mid| ==> !mid[i].DeliverRead?
    ensures (s'.renewal.Reading? || s'.renewal.Sampled?) && s'.renewal.epoch == s.epoch
    ensures s'.epoch == s.epoch <==> forall i :: 0 <= i < |mid| ==> mid[i] != EndSession && mid[i] != SignIn
  {
    AttemptStarts(s, mid);
    AttemptRemembersItsEpoch(s.(renewal := Reading(s.epoch)), mid, s');
    NoMoves(mid);
  }

  lemma AttemptStarts(s: State, mid: seq<Event>)
    requires s.renewal == Idle
    ensures Run(s, [StartRenewal] + mid) == Run(s.(renewal := Reading(s.epoch)), mid)
  {
    assert ([StartRenewal] + mid)[1..] == mid;
    assert Step(s, StartRenewal) == s.(renewal := Reading(s.epoch));
  }

  /** The token an attempt starts from is what the Keychain held when it was read. */
  lemma ReadSamplesTheKeychain(s: State)
    requires Enabled(s, SampleRead)
    ensures Step(s, SampleRead) == s.(renewal := Sampled(s.renewal.epoch, s.stored))
  {
  }

  /** A failed read, a failed request and an answer without a new token end the attempt, and
      change nothing else. */
  lemma FailureEndsTheAttempt(s: State, e: Event)
    requires Enabled(s, e)
    requires e in {DeliverRead(false), ServerAnswers(NotRenewed), ServerAnswers(RequestFailed)}
    ensures Step(s, e) == s.(renewal := Idle)
  {
  }

  /** And so does everything else in the end: at rest no attempt waits for a commit. */
  lemma NoCommitIsLeftBehind(initial: Option<Token>, events: seq<Event>, s: State)
    requires Reaches(initial, events, s) && Quiescent(s)
    ensures s.renewal != Committing
  {
    ReachableInv(initial, events, s);
  }

  /** The publish guard: a landed renewal enters memory exactly when the epoch has not moved. */
  lemma PublishedIff(initial: Option<Token>, events: seq<Event>, s: State)
    requires Reaches(initial, events, s) && s.resumptions != [] && s.resumptions[0].PublishRenewal?
    ensures var s' := Step(s, Resume);
            && s'.renewal == Idle
            && (s.resumptions[0].epoch == s.epoch ==> s'.memory == Some(s.resumptions[0].token))
            && (s.resumptions[0].epoch != s.epoch ==> s'.memory == s.memory)
            && s.memory != Some(s.resumptions[0].token)
  {
    ReachableInv(initial, events, s);
    assert Before(s.memory, Publishes(s.resumptions[0]));
  }
}
