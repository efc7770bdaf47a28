/** Whose token the app holds in memory, at every moment of every schedule. */
module CredentialMemory {

  import opened Credentials
  import opened CredentialSafety
  import opened Wrappers

  // ---------- While the epoch stands still nothing overtakes a renewal ----------

  ghost predicate AllCommits(q: seq<Op>) { forall i :: 0 <= i < |q| ==> q[i].Commit? }

  ghost predicate AttemptInTime(s: State) {
    s.renewal.Reading? || s.renewal.Sampled? || s.renewal.Requesting? ==> s.renewal.epoch <= s.epoch
  }

  /** A commit of the current epoch has no unconditional write behind it. */
  ghost predicate CommitsInTime(s: State) {
    forall i :: 0 <= i < |s.queue| && s.queue[i].Commit? ==>
      && s.queue[i].epoch <= s.epoch
      && (s.queue[i].epoch == s.epoch ==> forall j :: i < j < |s.queue| ==> s.queue[j].Commit?)
  }

  /** Nor does a publication of the current epoch have a change of session behind it. */
  ghost predicate PublicationsInTime(s: State) {
    forall i :: 0 <= i < |s.resumptions| && s.resumptions[i].PublishRenewal? ==>
      PublicationInTime(s, s.resumptions[i].epoch, i)
  }

  ghost predicate PublicationInTime(s: State, epoch: nat, i: nat) {
    && epoch <= s.epoch
    && (epoch == s.epoch ==>
          && AllCommits(s.queue)
          && forall j :: i < j < |s.resumptions| ==> !ChangesSession(s.resumptions[j]))
  }

  ghost predicate InTime(s: State) { AttemptInTime(s) && CommitsInTime(s) && PublicationsInTime(s) }

  lemma BumpKeepsInTime(s: State, e: Event)
    requires InTime(s) && MovesEpoch(e)
    ensures InTime(Step(s, e))
  {
  }

  lemma AttemptKeepsInTime(s: State, e: Event)
    requires InTime(s) && Enabled(s, e) && (e.StartRenewal? || e.SampleRead? || e.DeliverRead? || e.ServerAnswers?)
    ensures InTime(Step(s, e))
  {
  }

  lemma WriterKeepsQueueInTime(s: State, ok: bool)
    requires InTime(s) && s.queue != []
    ensures AttemptInTime(WriterStepOn(s, ok)) && CommitsInTime(WriterStepOn(s, ok))
  {
    assert forall i :: 0 <= i < |s.queue| - 1 ==> s.queue[1..][i] == s.queue[i + 1];
  }

  lemma WriterKeepsPublicationsInTime(s: State, ok: bool)
    requires InTime(s) && CommitInProgress(s) && s.queue != []
    ensures PublicationsInTime(WriterStepOn(s, ok))
  {
    var s' := WriterStepOn(s, ok);
    assert forall i :: 0 <= i < |s.resumptions| ==> s'.resumptions[i] == s.resumptions[i];
    assert forall i :: 0 <= i < |s.queue| - 1 ==> s.queue[1..][i] == s.queue[i + 1];
    forall i | 0 <= i < |s'.resumptions| && s'.resumptions[i].PublishRenewal?
      ensures PublicationInTime(s', s'.resumptions[i].epoch, i)
    {
      if i < |s.resumptions| { assert PublicationInTime(s, s.resumptions[i].epoch, i); }
    }
  }

  lemma ResumeKeepsInTime(s: State)
    requires InTime(s) && s.resumptions != []
    ensures InTime(ResumeStep(s))
  {
    var s' := ResumeStep(s);
    assert forall i :: 0 <= i < |s'.resumptions| ==> s'.resumptions[i] == s.resumptions[i + 1];
    forall i | 0 <= i < |s'.resumptions| && s'.resumptions[i].PublishRenewal?
      ensures PublicationInTime(s', s'.resumptions[i].epoch, i)
    {
      assert PublicationInTime(s, s.resumptions[i + 1].epoch, i + 1);
    }
  }

  lemma {:induction false} AlwaysInTime(initial: Option<Token>, events: seq<Event>, s: State)
    requires Reaches(initial, events, s)
    ensures InTime(s)
    decreases |events|
  {
    if events != [] {
      RunSplit(Launch(initial), events);
      var before, e := events[..|events| - 1], events[|events| - 1];
      var s0 := Run(Launch(initial), before).value;
      AlwaysInTime(initial, before, s0);
      ReachableInv(initial, before, s0);
      StepKeepsInTime(s0, e);
    }
  }

  lemma StepKeepsInTime(s: State, e: Event)
    requires InTime(s) && CommitInProgress(s) && Enabled(s, e)
    ensures InTime(Step(s, e))
  {
    match e
    case EndSession => BumpKeepsInTime(s, e);
    case SignIn => BumpKeepsInTime(s, e);
    case WriterStep(ok) =>
      WriterKeepsQueueInTime(s, ok);
      WriterKeepsPublicationsInTime(s, ok);
    case Resume => ResumeKeepsInTime(s);
    case _ => AttemptKeepsInTime(s, e);
  }

  // ---------- The publish guard ----------

  /** With no other renewal and no change of session waiting, the first publication is what is stored. */
  lemma {:induction false} LoneRenewalIsLast(rs: seq<Resumption>)
    requires rs != [] && rs[0].PublishRenewal? && NoSessionChange(rs) && RenewalsResuming(rs) == 1
    ensures LastPublication(rs) == Some(rs[0])
  {
    assert forall i :: 0 <= i < |rs| - 1 ==> rs[1..][i] == rs[i + 1];
    LastPublicationIn(rs[1..]);
  }

  /** A renewal that resumes, publishing or not, never changes whose token is in memory. */
  lemma RenewalKeepsTheSessionInMemory(initial: Option<Token>, events: seq<Event>, s: State)
    requires Reaches(initial, events, s) && s.resumptions != [] && IsRenewal(s.resumptions[0])
    ensures SessionOf(ResumeStep(s).memory) == SessionOf(s.memory)
  {
    ReachableInv(initial, events, s);
    AlwaysInTime(initial, events, s);
    var r := s.resumptions[0];
    if r.PublishRenewal? && r.epoch == s.epoch {
      assert PublicationInTime(s, r.epoch, 0);
      assert NoSessionChange(s.resumptions);
      LastPublicationIn(s.resumptions[1..]);
      LoneRenewalIsLast(s.resumptions);
    }
  }

  /** The session of the latest sign-in or teardown that has resumed. */
  ghost function Published(initial: Option<Token>, events: seq<Event>): Option<nat>
    requires Restorable(initial)
  {
    if events == [] then SessionOf(initial)
    else
      var n := |events| - 1;
      var s := StateBefore(initial, events, n);
      if s.Some? && events[n] == Resume && s.value.resumptions != [] && ChangesSession(s.value.resumptions[0])
      then SessionOf(Publishes(s.value.resumptions[0]))
      else Published(initial, events[..n])
  }

  /** At every moment memory belongs to the latest sign-in or teardown that has resumed. */
  lemma {:induction false} MemoryBelongsToWhatWasPublished(initial: Option<Token>, events: seq<Event>, s: State)
    requires Reaches(initial, events, s)
    ensures SessionOf(s.memory) == Published(initial, events)
    decreases |events|
  {
    if events != [] {
      RunSplit(Launch(initial), events);
      var before, e := events[..|events| - 1], events[|events| - 1];
      var s0 := Run(Launch(initial), before).value;
      MemoryBelongsToWhatWasPublished(initial, before, s0);
      if e == Resume {
        if IsRenewal(s0.resumptions[0]) { RenewalKeepsTheSessionInMemory(initial, before, s0); }
      } else {
        OnlyResumptionsPublish(s0, e);
      }
    }
  }

  lemma OnlyResumptionsPublish(s: State, e: Event)
    requires Enabled(s, e) && e != Resume
    ensures Step(s, e).memory == s.memory
  {
  }
}
