/**
 * The credential protocol of the mobile client: logout, 401 teardown, sign-in and a
 * background renewal race over one Keychain slot, one token in memory, an epoch counter
 * and a FIFO queue of Keychain writes.
 *
 * One step is what runs between two `await`s.  Every Keychain operation may fail, and the
 * steps of different activities interleave freely.
 */
module Credentials {

  import opened Wrappers

  /** `session` is the sign-in a token descends from; `serial` makes every token the server
      hands out different from all earlier ones. */
  datatype Token = Token(session: nat, serial: nat)

  /** A queued Keychain write. */
  datatype Op =
    | Set(token: Token)
    | Clear
    | Commit(token: Token, epoch: nat, previous: Token)

  /** How far the operation at the head of the queue has come (only `Commit` has inner awaits). */
  datatype Phase = Waiting | EpochChecked | ValueChecked

  /** A function suspended on its queued write, ready to run on after it. */
  datatype Resumption =
    | PublishSignIn(token: Token)
    | PublishTeardown
    | PublishRenewal(token: Token, epoch: nat)
    | RenewalEnds

  /** The single renewal attempt (`inFlight`); `bearer` is the token its request carries. */
  datatype Renewal =
    | Idle
    | Reading(epoch: nat)
    | Sampled(epoch: nat, value: Option<Token>)
    | Requesting(epoch: nat, from: Token, bearer: Option<Token>)
    | Committing

  /**
   * The last four fields are history, read by no step: the session the latest epoch-moving
   * operation asks for, the session of the latest unconditional write that landed, whether
   * the stored token is a renewal whose publication was refused, and whether the latest
   * unconditional write to settle landed.  `CredentialSafety` says what each of them is in
   * terms of the schedule.
   */
  datatype State = State(
    epoch: nat,
    stored: Option<Token>,
    memory: Option<Token>,
    queue: seq<Op>,
    phase: Phase,
    resumptions: seq<Resumption>,
    renewal: Renewal,
    issued: nat,
    owner: Option<nat>,
    landed: Option<nat>,
    orphaned: bool,
    delivered: bool)

  datatype Answer = Renewed | NotRenewed | RequestFailed

  datatype Event =
    | EndSession
    | SignIn
    | StartRenewal
    | SampleRead
    | DeliverRead(ok: bool)
    | ServerAnswers(answer: Answer)
    | WriterStep(ok: bool)
    | Resume

  function SessionOf(t: Option<Token>): Option<nat> {
    if t.Some? then Some(t.value.session) else None
  }

  /** The app after `initialize` restored whatever the Keychain held. */
  function Launch(stored: Option<Token>): State
    requires stored.Some? ==> stored.value == Token(0, 0)
  {
    State(0, stored, stored, [], Waiting, [], Idle, 1, SessionOf(stored), SessionOf(stored), false, true)
  }

  // ---------- The steps ----------

  /** `logout`, and the 401 branch of `initialize`: the epoch moves and the delete is queued. */
  function EndSessionStep(s: State): State {
    s.(epoch := s.epoch + 1, queue := s.queue + [Clear], owner := None)
  }

  /** `verifyCode` once the server answered: a new session, named by the epoch it opens. */
  function SignInStep(s: State): State {
    var token := Token(s.epoch + 1, s.issued);
    s.(epoch := s.epoch + 1, issued := s.issued + 1, queue := s.queue + [Set(token)], owner := Some(s.epoch + 1))
  }

  /** `renewSessionNow`: at most one attempt; the epoch is captured before the read. */
  function StartRenewalStep(s: State): State {
    if s.renewal.Idle? then s.(renewal := Reading(s.epoch)) else s
  }

  function SampleReadStep(s: State): State
    requires s.renewal.Reading?
  {
    s.(renewal := Sampled(s.renewal.epoch, s.stored))
  }

  function DeliverReadStep(s: State, ok: bool): State
    requires s.renewal.Sampled?
  {
    if !ok || s.renewal.value.None? || s.renewal.epoch != s.epoch then
      s.(renewal := Idle)
    else
      s.(renewal := Requesting(s.renewal.epoch, s.renewal.value.value, s.memory))
  }

  /** The server renews the session of the token the request carried. */
  function ServerAnswersStep(s: State, answer: Answer): State
    requires s.renewal.Requesting? && (answer.Renewed? ==> s.renewal.bearer.Some?)
  {
    if answer.Renewed? then
      var token := Token(s.renewal.bearer.value.session, s.issued);
      s.(issued := s.issued + 1, renewal := Committing,
         queue := s.queue + [Commit(token, s.renewal.epoch, s.renewal.from)])
    else
      s.(renewal := Idle)
  }

  /** The head of the queue settles; `r` is what its caller does next. */
  function Settle(s: State, r: seq<Resumption>): State
    requires s.queue != []
  {
    s.(queue := s.queue[1..], phase := Waiting, resumptions := s.resumptions + r)
  }

  function WriterStepOn(s: State, ok: bool): State
    requires s.queue != []
  {
    match s.queue[0]
    case Set(token) =>
      if ok then
        Settle(s, [PublishSignIn(token)]).(stored := Some(token), landed := Some(token.session), orphaned := false,
                                           delivered := true)
      else
        Settle(s, []).(delivered := false)
    case Clear =>
      if ok then
        Settle(s, [PublishTeardown]).(stored := None, landed := None, orphaned := false, delivered := true)
      else
        Settle(s, []).(delivered := false)
    case Commit(token, epoch, previous) =>
      match s.phase
      case Waiting =>
        if s.epoch != epoch then Settle(s, [RenewalEnds]) else s.(phase := EpochChecked)
      case EpochChecked =>
        if !ok then Settle(s, [RenewalEnds])
        else if s.stored != Some(previous) then Settle(s, [RenewalEnds])
        else s.(phase := ValueChecked)
      case ValueChecked =>
        if !ok then Settle(s, [RenewalEnds])
        else Settle(s, [PublishRenewal(token, epoch)]).(stored := Some(token), orphaned := false)
  }

  function ResumeStep(s: State): State
    requires s.resumptions != []
  {
    var rest := s.(resumptions := s.resumptions[1..]);
    match s.resumptions[0]
    case PublishSignIn(token) => rest.(memory := Some(token))
    case PublishTeardown => rest.(memory := None)
    case PublishRenewal(token, epoch) =>
      if epoch == s.epoch then rest.(memory := Some(token), renewal := Idle)
      else rest.(renewal := Idle, orphaned := s.orphaned || s.stored == Some(token))
    case RenewalEnds => rest.(renewal := Idle)
  }

  /**
   * When an event can happen.  The one scheduling assumption is in `DeliverRead`: a sign-in
   * whose write has landed publishes its token (a microtask) before a Keychain read result
   * (a native callback) is delivered.
   */
  predicate Enabled(s: State, e: Event) {
    match e
    case EndSession => true
    case SignIn => true
    case StartRenewal => true
    case SampleRead => s.renewal.Reading?
    case DeliverRead(_) => s.renewal.Sampled? && forall r <- s.resumptions :: !r.PublishSignIn?
    case ServerAnswers(answer) => s.renewal.Requesting? && (answer.Renewed? ==> s.renewal.bearer.Some?)
    case WriterStep(_) => s.queue != []
    case Resume => s.resumptions != []
  }

  function Step(s: State, e: Event): State
    requires Enabled(s, e)
  {
    match e
    case EndSession => EndSessionStep(s)
    case SignIn => SignInStep(s)
    case StartRenewal => StartRenewalStep(s)
    case SampleRead => SampleReadStep(s)
    case DeliverRead(ok) => DeliverReadStep(s, ok)
    case ServerAnswers(answer) => ServerAnswersStep(s, answer)
    case WriterStep(ok) => WriterStepOn(s, ok)
    case Resume => ResumeStep(s)
  }

  /** The state after a schedule, or None when some event of it could not happen. */
  function Run(s: State, events: seq<Event>): Option<State>
    decreases |events|
  {
    if events == [] then Some(s)
    else if Enabled(s, events[0]) then Run(Step(s, events[0]), events[1..])
    else None
  }

  predicate Drained(s: State) { s.queue == [] }

  /** No queued write and no suspended continuation. */
  predicate Quiescent(s: State) { s.queue == [] && s.resumptions == [] }

  // ---------- The invariant ----------

  function Writes(op: Op): Option<Token> {
    match op case Set(t) => Some(t) case Clear => None case Commit(t, _, _) => Some(t)
  }

  function Publishes(r: Resumption): Option<Token> {
    match r case PublishSignIn(t) => Some(t) case PublishRenewal(t, _) => Some(t) case _ => None
  }

  ghost predicate Unconditional(op: Op) { !op.Commit? }

  ghost predicate HasUnconditional(q: seq<Op>) {
    exists i :: 0 <= i < |q| && Unconditional(q[i])
  }

  predicate ChangesSession(r: Resumption) { r.PublishSignIn? || r.PublishTeardown? }

  ghost predicate NoSessionChange(rs: seq<Resumption>) {
    forall i :: 0 <= i < |rs| ==> !ChangesSession(rs[i])
  }

  predicate Before(x: Option<Token>, y: Option<Token>) {
    x.Some? && y.Some? ==> x.value.serial < y.value.serial
  }

  ghost predicate BeforeAll(x: Option<Token>, q: seq<Op>) {
    forall i :: 0 <= i < |q| ==> Before(x, Writes(q[i]))
  }

  /** Everything in flight was issued; what is written or published later was issued later. */
  ghost predicate QueueInOrder(s: State) {
    && (forall i, j :: 0 <= i < j < |s.queue| ==> Before(Writes(s.queue[i]), Writes(s.queue[j])))
    && (forall i :: 0 <= i < |s.queue| ==> Before(Writes(s.queue[i]), Some(Token(0, s.issued))))
    && Before(s.stored, Some(Token(0, s.issued)))
    && BeforeAll(s.stored, s.queue)
  }

  ghost predicate PublicationsInOrder(s: State) {
    && (forall i, j :: 0 <= i < j < |s.resumptions| ==>
      Before(Publishes(s.resumptions[i]), Publishes(s.resumptions[j])))
    && (forall i :: 0 <= i < |s.resumptions| ==>
          && Before(s.memory, Publishes(s.resumptions[i]))
          && Before(Publishes(s.resumptions[i]), Some(Token(0, s.issued)))
          && BeforeAll(Publishes(s.resumptions[i]), s.queue))
    && Before(s.memory, Some(Token(0, s.issued)))
    && BeforeAll(s.memory, s.queue)
  }

  /** `t` was read from the Keychain, so nothing queued can write it again. */
  ghost predicate WasStored(s: State, t: Token) {
    t.serial < s.issued && BeforeAll(Some(t), s.queue)
  }

  ghost predicate RememberedTokens(s: State) {
    && (s.renewal.Sampled? && s.renewal.value.Some? ==> WasStored(s, s.renewal.value.value))
    && (s.renewal.Requesting? ==> WasStored(s, s.renewal.from))
    && (forall i :: 0 <= i < |s.queue| && s.queue[i].Commit? ==> WasStored(s, s.queue[i].previous))
  }

  predicate IsRenewal(r: Resumption) { r.PublishRenewal? || r.RenewalEnds? }

  function CommitsQueued(q: seq<Op>): nat {
    if q == [] then 0 else (if q[0].Commit? then 1 else 0) + CommitsQueued(q[1..])
  }

  function RenewalsResuming(rs: seq<Resumption>): nat {
    if rs == [] then 0 else (if IsRenewal(rs[0]) then 1 else 0) + RenewalsResuming(rs[1..])
  }

  /** At most one renewal is under way, and it is in exactly one place. */
  ghost predicate SingleFlight(s: State) {
    CommitsQueued(s.queue) + RenewalsResuming(s.resumptions) == if s.renewal.Committing? then 1 else 0
  }

  /** The commit at the head is a compare-and-set, and a bump in the middle of it has queued
      an unconditional write behind it. */
  ghost predicate CommitInProgress(s: State) {
    && (s.phase != Waiting ==> s.queue != [] && s.queue[0].Commit?)
    && (s.phase != Waiting ==> s.queue[0].epoch == s.epoch || HasUnconditional(s.queue[1..]))
    && (s.phase == ValueChecked ==> s.stored == Some(s.queue[0].previous))
  }

  function LastPublication(rs: seq<Resumption>): Option<Resumption> {
    if rs == [] then None
    else if LastPublication(rs[1..]).Some? then LastPublication(rs[1..])
    else if rs[0].RenewalEnds? then None
    else Some(rs[0])
  }

  /** The publication queued last carries what is stored; with none queued, memory shows it. */
  ghost predicate MemoryFollowsStorage(s: State) {
    match LastPublication(s.resumptions)
    case None => (s.memory == s.stored) == !s.orphaned
    case Some(r) => s.stored == Publishes(r) && !s.orphaned
  }

  /** A renewal only ever touches the session it was started from. */
  ghost predicate Lineage(s: State) {
    && s.landed == SessionOf(s.stored)
    && (NoSessionChange(s.resumptions) ==> SessionOf(s.memory) == SessionOf(s.stored))
    && (forall i, j :: 0 <= i < j < |s.resumptions| && s.resumptions[j].PublishRenewal? ==>
      !ChangesSession(s.resumptions[i]))
    && (s.renewal.Requesting? && s.stored == Some(s.renewal.from) ==>
          && NoSessionChange(s.resumptions)
          && (s.renewal.bearer.Some? ==> s.renewal.bearer.value.session == s.renewal.from.session))
    && (forall i :: 0 <= i < |s.queue| && s.queue[i].Commit? && s.stored == Some(s.queue[i].previous) ==>
          NoSessionChange(s.resumptions) && s.queue[i].token.session == s.queue[i].previous.session)
  }

  /** The session the Keychain will belong to once the queue has drained without failures. */
  function Target(q: seq<Op>, session: Option<nat>): Option<nat> {
    if q == [] then session else Target(q[1..], After(q[0], session))
  }

  function After(op: Op, session: Option<nat>): Option<nat> {
    match op case Set(t) => Some(t.session) case Clear => None case Commit(_, _, _) => session
  }

  /** The stored token is a renewal that the epoch has overtaken. */
  ghost predicate Overtaken(s: State) {
    || s.orphaned
    || (var r := LastPublication(s.resumptions);
        r.Some? && r.value.PublishRenewal? && r.value.epoch != s.epoch)
  }

  /** While an unconditional write is queued, or once the latest one has landed, the queue
      leads to the latest owner; a renewal that the epoch has overtaken will be overwritten,
      unless that write failed. */
  ghost predicate Ownership(s: State) {
    && (HasUnconditional(s.queue) || s.delivered ==> Target(s.queue, SessionOf(s.stored)) == s.owner)
    && (Overtaken(s) ==> HasUnconditional(s.queue) || !s.delivered)
    && (!HasUnconditional(s.queue) && !s.delivered ==> s.owner.None? || s.landed != s.owner)
  }

  function SignedIn(op: Op): Option<nat> { if op.Set? then Some(op.token.session) else None }

  predicate Older(x: Option<nat>, y: Option<nat>) { x.Some? && y.Some? ==> x.value < y.value }

  /** Every sign-in opens a session later than all before it. */
  ghost predicate SessionsInOrder(s: State) {
    && Older(s.landed, Some(s.epoch + 1))
    && (forall i :: 0 <= i < |s.queue| ==> Older(SignedIn(s.queue[i]), Some(s.epoch + 1)))
    && (forall i :: 0 <= i < |s.queue| ==> Older(s.landed, SignedIn(s.queue[i])))
    && (forall i, j :: 0 <= i < j < |s.queue| ==> Older(SignedIn(s.queue[i]), SignedIn(s.queue[j])))
  }

  ghost predicate Order(s: State) { QueueInOrder(s) && PublicationsInOrder(s) && RememberedTokens(s) }

  ghost predicate Inv(s: State) {
    && Order(s)
    && SingleFlight(s)
    && CommitInProgress(s)
    && MemoryFollowsStorage(s)
    && Lineage(s)
    && SessionsInOrder(s)
    && Ownership(s)
  }

  // ---------- Every step keeps the invariant ----------

  lemma {:induction false} QueueAppend(q: seq<Op>, op: Op, session: Option<nat>)
    ensures Target(q + [op], session) == After(op, Target(q, session))
    ensures CommitsQueued(q + [op]) == CommitsQueued(q) + if op.Commit? then 1 else 0
    ensures HasUnconditional(q + [op]) <==> HasUnconditional(q) || Unconditional(op)
  {
    assert (q + [op])[|q|] == op;
    assert forall i :: 0 <= i < |q| ==> q[i] == (q + [op])[i];
    if q != [] {
      assert (q + [op])[1..] == q[1..] + [op];
      QueueAppend(q[1..], op, After(q[0], session));
    }
  }

  lemma {:induction false} TargetIsDecided(q: seq<Op>, a: Option<nat>, b: Option<nat>)
    ensures HasUnconditional(q) ==> Target(q, a) == Target(q, b)
    ensures !HasUnconditional(q) ==> Target(q, a) == a
  {
    if q != [] {
      assert forall i :: 0 <= i < |q[1..]| ==> q[1..][i] == q[i + 1];
      TargetIsDecided(q[1..], After(q[0], a), After(q[0], b));
      if Unconditional(q[0]) { assert HasUnconditional(q); }
    }
  }

  lemma {:induction false} ResumptionsAppend(rs: seq<Resumption>, r: Resumption)
    ensures RenewalsResuming(rs + [r]) == RenewalsResuming(rs) + if IsRenewal(r) then 1 else 0
    ensures LastPublication(rs + [r]) == if r.RenewalEnds? then LastPublication(rs) else Some(r)
  {
    if rs != [] {
      assert (rs + [r])[1..] == rs[1..] + [r];
      ResumptionsAppend(rs[1..], r);
    }
  }

  lemma {:induction false} LastPublicationIn(rs: seq<Resumption>)
    ensures LastPublication(rs).None? <==> forall i :: 0 <= i < |rs| ==> rs[i].RenewalEnds?
    ensures LastPublication(rs).Some? ==> LastPublication(rs).value in rs
    ensures RenewalsResuming(rs) == 0 <==> forall i :: 0 <= i < |rs| ==> !IsRenewal(rs[i])
  {
    if rs != [] {
      LastPublicationIn(rs[1..]);
      assert rs == [rs[0]] + rs[1..];
    }
  }

  /** `s'` is `s` with one freshly issued operation at the end of the queue. */
  ghost predicate Enqueued(s: State, op: Op, s': State) {
    && s'.queue == s.queue + [op]
    && s'.stored == s.stored && s'.memory == s.memory && s'.resumptions == s.resumptions
    && s.issued <= s'.issued
    && (Writes(op).Some? ==> Writes(op).value.serial == s.issued < s'.issued)
    && (op.Commit? ==> WasStored(s, op.previous))
    && (s'.renewal == s.renewal || s'.renewal == Committing)
  }

  lemma EnqueueKeepsQueueOrder(s: State, op: Op, s': State)
    requires Order(s) && Enqueued(s, op, s')
    ensures QueueInOrder(s') && RememberedTokens(s')
  {
    assert forall x | BeforeAll(x, s.queue) && Before(x, Writes(op)) :: BeforeAll(x, s'.queue);
    assert forall t | WasStored(s, t) :: WasStored(s', t);
  }

  lemma EnqueueKeepsPublicationOrder(s: State, op: Op, s': State)
    requires Order(s) && Enqueued(s, op, s')
    ensures PublicationsInOrder(s')
  {
    assert forall x | BeforeAll(x, s.queue) && Before(x, Writes(op)) :: BeforeAll(x, s'.queue);
    forall i | 0 <= i < |s'.resumptions|
      ensures BeforeAll(Publishes(s'.resumptions[i]), s'.queue)
    {
      assert Before(Publishes(s.resumptions[i]), Some(Token(0, s.issued)));
    }
  }

  lemma EnqueueKeepsLineage(s: State, op: Op, s': State)
    requires Lineage(s) && Enqueued(s, op, s') && s'.landed == s.landed
    requires op.Commit? && s.stored == Some(op.previous) ==>
               NoSessionChange(s.resumptions) && op.token.session == op.previous.session
    ensures Lineage(s')
  {
    assert forall i :: 0 <= i < |s.queue| ==> s'.queue[i] == s.queue[i];
  }

  lemma EnqueueKeepsSessions(s: State, op: Op, s': State)
    requires SessionsInOrder(s) && Enqueued(s, op, s') && s'.landed == s.landed && s.epoch <= s'.epoch
    requires op.Set? ==> s.epoch < op.token.session <= s'.epoch
    ensures SessionsInOrder(s')
  {
  }

  lemma EnqueueKeepsInv(s: State, op: Op, s': State)
    requires Inv(s) && (s' == EndSessionStep(s) || s' == SignInStep(s)) && Enqueued(s, op, s')
    ensures Inv(s')
  {
    assert s'.queue[|s.queue|] == op;
    EnqueueKeepsQueueOrder(s, op, s');
    EnqueueKeepsPublicationOrder(s, op, s');
    EnqueueKeepsLineage(s, op, s');
    EnqueueKeepsSessions(s, op, s');
    QueueAppend(s.queue, op, SessionOf(s.stored));
    if s.queue != [] {
      assert s'.queue[1..] == s.queue[1..] + [op];
      QueueAppend(s.queue[1..], op, None);
    }
  }

  /** Only what the renewal attempt remembers changes. */
  lemma AttemptKeepsInv(s: State, renewal: Renewal)
    requires Inv(s) && !s.renewal.Committing? && !renewal.Committing?
    requires renewal.Sampled? && renewal.value.Some? ==> WasStored(s, renewal.value.value)
    requires renewal.Requesting? ==> WasStored(s, renewal.from)
    requires renewal.Requesting? && s.stored == Some(renewal.from) ==>
               NoSessionChange(s.resumptions)
                 && (renewal.bearer.Some? ==> renewal.bearer.value.session == renewal.from.session)
    ensures Inv(s.(renewal := renewal))
  {
    var s' := s.(renewal := renewal);
    assert forall t | WasStored(s, t) :: WasStored(s', t);
  }

  lemma DeliverKeepsInv(s: State, ok: bool)
    requires Inv(s) && Enabled(s, DeliverRead(ok))
    ensures Inv(DeliverReadStep(s, ok))
  {
    var renewal := DeliverReadStep(s, ok).renewal;
    if renewal.Requesting? && s.stored == Some(renewal.from) {
      // No sign-in waits to publish and the slot is not empty, so no teardown waits either.
      LastPublicationIn(s.resumptions);
      assert NoSessionChange(s.resumptions);
    }
    AttemptKeepsInv(s, renewal);
  }

  lemma ReadKeepsInv(s: State, e: Event)
    requires Inv(s) && Enabled(s, e) && (e.StartRenewal? || e.SampleRead? || e.DeliverRead?)
    ensures Inv(Step(s, e))
  {
    match e
    case StartRenewal => if s.renewal.Idle? { AttemptKeepsInv(s, Reading(s.epoch)); }
    case SampleRead => AttemptKeepsInv(s, Sampled(s.renewal.epoch, s.stored));
    case DeliverRead(ok) => DeliverKeepsInv(s, ok);
  }

  lemma RenewedKeepsInv(s: State, op: Op, s': State)
    requires Inv(s) && Enabled(s, ServerAnswers(Renewed))
    requires s' == ServerAnswersStep(s, Renewed) && s'.queue == s.queue + [op] && op == s'.queue[|s.queue|]
    ensures Inv(s')
  {
    EnqueueKeepsQueueOrder(s, op, s');
    EnqueueKeepsPublicationOrder(s, op, s');
    EnqueueKeepsLineage(s, op, s');
    EnqueueKeepsSessions(s, op, s');
    QueueAppend(s.queue, op, SessionOf(s.stored));
    if s.queue != [] {
      assert s'.queue[1..] == s.queue[1..] + [op];
      QueueAppend(s.queue[1..], op, None);
    }
  }

  lemma AnswerKeepsInv(s: State, answer: Answer)
    requires Inv(s) && Enabled(s, ServerAnswers(answer))
    ensures Inv(ServerAnswersStep(s, answer))
  {
    if answer.Renewed? {
      var s' := ServerAnswersStep(s, Renewed);
      RenewedKeepsInv(s, s'.queue[|s.queue|], s');
    }
  }

  // The head of the queue settles.

  lemma SettleKeepsOrder(s: State, r: Resumption, s': State)
    requires Order(s) && s.queue != []
    requires s'.queue == s.queue[1..] && s'.resumptions == s.resumptions + [r]
    requires s'.memory == s.memory && s'.issued == s.issued && s'.renewal == s.renewal
    requires Publishes(r) == None || Publishes(r) == Writes(s.queue[0])
    requires s'.stored == s.stored || s'.stored == None || s'.stored == Writes(s.queue[0])
    ensures Order(s')
  {
    assert forall x | BeforeAll(x, s.queue) :: BeforeAll(x, s'.queue);
    assert BeforeAll(Writes(s.queue[0]), s'.queue);
    assert forall t | WasStored(s, t) :: WasStored(s', t);
    assert forall i :: 0 <= i < |s'.queue| ==> s'.queue[i] == s.queue[i + 1];
  }

  lemma DropKeepsOrder(s: State, s': State)
    requires Order(s) && s.queue != []
    requires s' == Settle(s, []).(delivered := false)
    ensures Order(s')
  {
    assert s'.resumptions == s.resumptions;
    assert forall x | BeforeAll(x, s.queue) :: BeforeAll(x, s'.queue);
    assert forall t | WasStored(s, t) :: WasStored(s', t);
    assert forall i :: 0 <= i < |s'.queue| ==> s'.queue[i] == s.queue[i + 1];
  }

  lemma LandingKeepsLineage(s: State)
    requires Order(s) && SingleFlight(s) && Lineage(s) && s.queue != [] && Unconditional(s.queue[0])
    ensures Lineage(WriterStepOn(s, true))
  {
    var s' := WriterStepOn(s, true);
    assert ChangesSession(s'.resumptions[|s.resumptions|]);
    assert forall i :: 0 <= i < |s'.queue| ==> s'.queue[i] == s.queue[i + 1];
    assert s.renewal.Requesting? ==> WasStored(s, s.renewal.from) && s'.stored != Some(s.renewal.from);
  }

  lemma SettleKeepsSessions(s: State, s': State)
    requires SessionsInOrder(s) && s.queue != [] && s'.queue == s.queue[1..] && s'.epoch == s.epoch
    requires s'.landed == s.landed || s'.landed == SignedIn(s.queue[0])
    ensures SessionsInOrder(s')
  {
    assert forall i :: 0 <= i < |s'.queue| ==> s'.queue[i] == s.queue[i + 1];
  }

  lemma LandingKeepsInv(s: State)
    requires Inv(s) && s.queue != [] && Unconditional(s.queue[0])
    ensures Inv(WriterStepOn(s, true))
  {
    var s' := WriterStepOn(s, true);
    var r := s'.resumptions[|s.resumptions|];
    SettleKeepsOrder(s, r, s');
    ResumptionsAppend(s.resumptions, r);
    LandingKeepsLineage(s);
    SettleKeepsSessions(s, s');
    LandingKeepsOwnership(s);
  }

  lemma LandingKeepsOwnership(s: State)
    requires Ownership(s) && s.queue != [] && Unconditional(s.queue[0])
    ensures Ownership(WriterStepOn(s, true))
  {
    var s' := WriterStepOn(s, true);
    assert HasUnconditional(s.queue);
    ResumptionsAppend(s.resumptions, s'.resumptions[|s.resumptions|]);
  }

  lemma FailureKeepsInv(s: State)
    requires Inv(s) && s.queue != [] && Unconditional(s.queue[0])
    ensures Inv(WriterStepOn(s, false))
  {
    var s' := WriterStepOn(s, false);
    assert s'.resumptions == s.resumptions;
    DropKeepsOrder(s, s');
    SettleKeepsSessions(s, s');
    DropKeepsOwnership(s, s');
    assert forall i :: 0 <= i < |s'.queue| ==> s'.queue[i] == s.queue[i + 1];
  }

  lemma DropKeepsOwnership(s: State, s': State)
    requires Ownership(s) && SessionsInOrder(s) && s.queue != [] && Unconditional(s.queue[0])
    requires s' == Settle(s, []).(delivered := false)
    ensures Ownership(s')
  {
    assert HasUnconditional(s.queue);
    TargetIsDecided(s.queue[1..], After(s.queue[0], SessionOf(s.stored)), SessionOf(s.stored));
  }

  // The commit at the head refuses, fails or lands.

  lemma HeadCommit(s: State)
    requires s.queue != [] && s.queue[0].Commit?
    ensures HasUnconditional(s.queue) <==> HasUnconditional(s.queue[1..])
  {
    assert forall i :: 0 <= i < |s.queue[1..]| ==> s.queue[1..][i] == s.queue[i + 1];
  }

  lemma CommitEndsKeepsInv(s: State, s': State)
    requires Inv(s) && s.queue != [] && s.queue[0].Commit?
    requires s' == Settle(s, [RenewalEnds])
    ensures Inv(s')
  {
    SettleKeepsOrder(s, RenewalEnds, s');
    ResumptionsAppend(s.resumptions, RenewalEnds);
    SettleKeepsSessions(s, s');
    HeadCommit(s);
    CommitEndsKeepsLineage(s, s');
  }

  lemma CommitEndsKeepsLineage(s: State, s': State)
    requires Lineage(s) && s.queue != [] && s.queue[0].Commit?
    requires s' == Settle(s, [RenewalEnds])
    ensures Lineage(s')
  {
    assert forall i :: 0 <= i < |s'.queue| ==> s'.queue[i] == s.queue[i + 1];
    assert NoSessionChange(s.resumptions) <==> NoSessionChange(s'.resumptions) by {
      assert forall i :: 0 <= i < |s.resumptions| ==> s'.resumptions[i] == s.resumptions[i];
    }
  }

  lemma CommitLandsKeepsLineage(s: State)
    requires Order(s) && Lineage(s) && SingleFlight(s) && CommitInProgress(s) && s.phase == ValueChecked
    ensures Lineage(WriterStepOn(s, true))
  {
    var s' := WriterStepOn(s, true);
    assert forall i :: 0 <= i < |s'.queue| ==> s'.queue[i] == s.queue[i + 1];
    // Single flight and an unchanged slot: nothing else waits to resume.
    assert s.resumptions == [];
    assert s.renewal.Committing?;
    assert CommitsQueued(s'.queue) == 0;
    NoCommit(s'.queue);
  }

  lemma {:induction false} NoCommit(q: seq<Op>)
    ensures CommitsQueued(q) == 0 <==> forall i :: 0 <= i < |q| ==> !q[i].Commit?
  {
    if q != [] {
      NoCommit(q[1..]);
      assert q == [q[0]] + q[1..];
    }
  }

  lemma CommitLandsKeepsInv(s: State)
    requires Inv(s) && s.phase == ValueChecked
    ensures Inv(WriterStepOn(s, true))
  {
    var s' := WriterStepOn(s, true);
    var r := s'.resumptions[|s.resumptions|];
    SettleKeepsOrder(s, r, s');
    ResumptionsAppend(s.resumptions, r);
    SettleKeepsSessions(s, s');
    HeadCommit(s);
    CommitLandsKeepsLineage(s);
  }

  lemma WriterKeepsInv(s: State, ok: bool)
    requires Inv(s) && s.queue != []
    ensures Inv(WriterStepOn(s, ok))
  {
    if Unconditional(s.queue[0]) {
      if ok { LandingKeepsInv(s); } else { FailureKeepsInv(s); }
    } else if s.phase == ValueChecked && ok {
      CommitLandsKeepsInv(s);
    } else {
      var s' := WriterStepOn(s, ok);
      if s'.queue == s.queue {
        CommitAdvancesKeepsInv(s, ok);
      } else {
        CommitEndsKeepsInv(s, s');
      }
    }
  }

  lemma PhaseKeepsInv(s: State, phase: Phase)
    requires Inv(s) && CommitInProgress(s.(phase := phase))
    ensures Inv(s.(phase := phase))
  {
    var s' := s.(phase := phase);
    assert forall t | WasStored(s, t) :: WasStored(s', t);
  }

  lemma CommitAdvancesKeepsInv(s: State, ok: bool)
    requires Inv(s) && s.queue != [] && WriterStepOn(s, ok).queue == s.queue
    ensures Inv(WriterStepOn(s, ok))
  {
    assert s.queue[1..] != s.queue;
    PhaseKeepsInv(s, WriterStepOn(s, ok).phase);
  }

  // The first continuation runs.

  lemma ResumeKeepsPublicationOrder(s: State)
    requires PublicationsInOrder(s) && s.resumptions != []
    ensures PublicationsInOrder(ResumeStep(s))
  {
    var s' := ResumeStep(s);
    assert forall i :: 0 <= i < |s'.resumptions| ==> s'.resumptions[i] == s.resumptions[i + 1];
  }

  lemma ResumeKeepsRememberedTokens(s: State)
    requires RememberedTokens(s) && s.resumptions != []
    ensures RememberedTokens(ResumeStep(s))
  {
    var s' := ResumeStep(s);
    assert forall t | WasStored(s, t) :: WasStored(s', t);
  }

  lemma ResumeKeepsOrder(s: State)
    requires Order(s) && s.resumptions != []
    ensures Order(ResumeStep(s))
  {
    ResumeKeepsPublicationOrder(s);
    ResumeKeepsRememberedTokens(s);
  }

  lemma ResumeKeepsFlight(s: State)
    requires SingleFlight(s) && CommitInProgress(s) && s.resumptions != []
    ensures SingleFlight(ResumeStep(s)) && CommitInProgress(ResumeStep(s))
  {
  }

  lemma ResumeKeepsSessions(s: State)
    requires SessionsInOrder(s) && s.resumptions != []
    ensures SessionsInOrder(ResumeStep(s))
  {
  }

  lemma ResumeKeepsLineage(s: State)
    requires Lineage(s) && MemoryFollowsStorage(s) && SingleFlight(s) && s.resumptions != []
    ensures Lineage(ResumeStep(s))
  {
    var s' := ResumeStep(s);
    var rs := s.resumptions;
    assert forall i :: 0 <= i < |s'.resumptions| ==> s'.resumptions[i] == rs[i + 1];
    LastPublicationIn(rs[1..]);
    if NoSessionChange(rs[1..]) {
      if ChangesSession(rs[0]) || rs[0].PublishRenewal? {
        assert LastPublication(rs[1..]).None?;
      } else {
        assert NoSessionChange(rs);
      }
    }
  }

  lemma ResumeKeepsMemory(s: State)
    requires Order(s) && MemoryFollowsStorage(s) && Ownership(s) && s.resumptions != []
    ensures MemoryFollowsStorage(ResumeStep(s)) && Ownership(ResumeStep(s))
  {
    var r := s.resumptions[0];
    assert r.PublishRenewal? ==> s.memory != Some(r.token);
    LastPublicationIn(s.resumptions[1..]);
  }

  lemma ResumeKeepsInv(s: State)
    requires Inv(s) && s.resumptions != []
    ensures Inv(ResumeStep(s))
  {
    ResumeKeepsOrder(s);
    ResumeKeepsLineage(s);
    ResumeKeepsMemory(s);
    ResumeKeepsFlight(s);
    ResumeKeepsSessions(s);
  }
}
