/**
 * When the mobile client may ask the server to renew its session: one deadline, moved by the
 * server's cadence after an answer and by a short backoff after a failure.  Times are in
 * milliseconds of a clock that never runs backwards.
 */
module RenewalCadence {

  import opened Numbers

  const RETRY_DELAYS_MS: seq<nat> := [1_000, 2_000, 4_000, 8_000, 16_000, 30_000]
  const MIN_CHECK_INTERVAL_MS := 5_000

  /** Where the single attempt (`inFlight`) stands. */
  datatype Attempt = NoAttempt | ReadingToken | AwaitingAnswer | Committing

  datatype State = State(now: nat, nextCheckAt: nat, consecutiveFailures: nat, attempt: Attempt)

  datatype Event =
    | Tick(elapsed: nat)
    | Trigger                                                // `maybeRenewSession`
    | NoSession                                              // no token, or the epoch moved
    | ReadFails
    | SendRequest
    | RequestFails
    | Answer(checkAgainInSeconds: int, carriesToken: bool)
    | CommitSettles(ok: bool)

  /** The delay the next failure buys after `failures` failures in a row. */
  function RetryDelay(failures: nat): nat {
    RETRY_DELAYS_MS[Min(failures, |RETRY_DELAYS_MS| - 1)]
  }

  function AfterFailure(s: State): State {
    s.(nextCheckAt := s.now + RetryDelay(s.consecutiveFailures), consecutiveFailures := s.consecutiveFailures + 1)
  }

  predicate Enabled(s: State, e: Event) {
    match e
    case Tick(_) => true
    case Trigger => true
    case NoSession => s.attempt.ReadingToken?
    case ReadFails => s.attempt.ReadingToken?
    case SendRequest => s.attempt.ReadingToken?
    case RequestFails => s.attempt.AwaitingAnswer?
    case Answer(_, _) => s.attempt.AwaitingAnswer?
    case CommitSettles(_) => s.attempt.Committing?
  }

  function Step(s: State, e: Event): State
    requires Enabled(s, e)
  {
    match e
    case Tick(elapsed) => s.(now := s.now + elapsed)
    case Trigger => if s.now < s.nextCheckAt || s.attempt != NoAttempt then s else s.(attempt := ReadingToken)
    case NoSession => s.(attempt := NoAttempt)
    case ReadFails => AfterFailure(s).(attempt := NoAttempt)
    case SendRequest => s.(attempt := AwaitingAnswer)
    case RequestFails => AfterFailure(s).(attempt := NoAttempt)
    case Answer(seconds, carriesToken) =>
      var answered := if seconds <= 0 then AfterFailure(s)
                      else s.(consecutiveFailures := 0,
                              nextCheckAt := s.now + Max(MIN_CHECK_INTERVAL_MS, seconds * 1000));
      answered.(attempt := if carriesToken then Committing else NoAttempt)
    case CommitSettles(ok) => (if ok then s else AfterFailure(s)).(attempt := NoAttempt)
  }

  /** `states[k]` is the client after the first `k` events. */
  ghost predicate IsRun(states: seq<State>, events: seq<Event>) {
    && |states| == |events| + 1
    && forall k :: 0 <= k < |events| ==> Enabled(states[k], events[k]) && states[k + 1] == Step(states[k], events[k])
  }

  predicate EndsRequest(e: Event) { e.RequestFails? || e.Answer? }

  /** Nothing is requested before `t + gap`. */
  ghost predicate QuietUntil(s: State, t: nat, gap: nat) {
    || s.now >= t + gap
    || (s.now >= t && s.nextCheckAt >= t + gap
        && (s.attempt.NoAttempt? || (s.attempt.Committing? && gap <= RetryDelay(s.consecutiveFailures))))
  }

  lemma {:induction false} StaysQuiet(states: seq<State>, events: seq<Event>, from: nat, to: nat, t: nat, gap: nat)
    requires IsRun(states, events) && from <= to < |states| && QuietUntil(states[from], t, gap)
    ensures QuietUntil(states[to], t, gap)
  {
    if from < to {
      StaysQuiet(states, events, from, to - 1, t, gap);
      assert states[to] == Step(states[to - 1], events[to - 1]);
    }
  }

  /** The step that counts another failure: a request, a Keychain read or a commit that failed,
      or an answer without a usable cadence. */
  predicate Fails(before: State, after: State) { after.consecutiveFailures > before.consecutiveFailures }

  /** Over every run, after the n-th failure in a row no request goes out before the n-th
      backoff step has passed. */
  lemma FailuresBackOff(states: seq<State>, events: seq<Event>, i: nat, j: nat)
    requires IsRun(states, events) && i < j < |events| && Fails(states[i], states[i + 1]) && events[j].SendRequest?
    ensures states[j].now >= states[i].now + RetryDelay(states[i].consecutiveFailures)
    ensures RetryDelay(states[i].consecutiveFailures) >= 1_000
  {
    assert states[i + 1] == Step(states[i], events[i]);
    StaysQuiet(states, events, i + 1, j, states[i].now, RetryDelay(states[i].consecutiveFailures));
  }

  /** Over every run, a request goes out at least one second after any earlier answer or failure. */
  lemma RequestsAreSpaced(states: seq<State>, events: seq<Event>, i: nat, j: nat)
    requires IsRun(states, events) && i < j < |events| && events[j].SendRequest?
    requires EndsRequest(events[i]) || Fails(states[i], states[i + 1])
    ensures states[j].now >= states[i].now + 1_000
  {
    assert states[i + 1] == Step(states[i], events[i]);
    if Fails(states[i], states[i + 1]) {
      FailuresBackOff(states, events, i, j);
    } else {
      StaysQuiet(states, events, i + 1, j, states[i].now, 1_000);
    }
  }

  lemma {:induction false} StaysInFlight(states: seq<State>, events: seq<Event>, i: nat, j: nat)
    requires IsRun(states, events) && i < j < |states| && events[i].SendRequest?
    requires forall k :: i < k < j ==> !EndsRequest(events[k])
    ensures states[j].attempt == AwaitingAnswer
  {
    assert states[j] == Step(states[j - 1], events[j - 1]);
    if i + 1 < j {
      StaysInFlight(states, events, i, j - 1);
    }
  }

  /** At most one request is in flight: between two requests the first one settles. */
  lemma OneRequestInFlight(states: seq<State>, events: seq<Event>, i: nat, j: nat)
    requires IsRun(states, events) && i < j < |events| && events[i].SendRequest? && events[j].SendRequest?
    ensures exists k :: i < k < j && EndsRequest(events[k])
  {
    if forall k :: i < k < j ==> !EndsRequest(events[k]) {
      StaysInFlight(states, events, i, j);
    }
  }

  predicate SetsCadence(e: Event) { e.Answer? && e.checkAgainInSeconds > 0 }

  /** A failure replaces whatever cadence the server had chosen: the next check is at least one
      second away and, until an answer sets a new cadence, never more than thirty. */
  lemma {:induction false} FailureKeepsTheDeadlineNear(states: seq<State>, events: seq<Event>, k: nat, j: nat)
    requires IsRun(states, events) && k < j < |states|
    requires Fails(states[k], states[k + 1])
    requires forall i :: k < i < j ==> !SetsCadence(events[i])
    ensures states[k + 1].nextCheckAt >= states[k].now + 1_000
    ensures states[j].nextCheckAt <= states[j].now + 30_000
  {
    assert states[k + 1] == Step(states[k], events[k]);
    if k + 1 < j {
      FailureKeepsTheDeadlineNear(states, events, k, j - 1);
      assert states[j] == Step(states[j - 1], events[j - 1]);
    }
  }

  // ---------- The deadline, in milliseconds ----------

  /** A failed read, request or commit, and an answer without a positive cadence. */
  predicate CountsAsFailure(e: Event) {
    || e == ReadFails || e == RequestFails || e == CommitSettles(false)
    || (e.Answer? && e.checkAgainInSeconds <= 0)
  }

  /** How many failures in a row the schedule ends in: an answer with a cadence starts anew. */
  function FailuresInARow(events: seq<Event>): nat {
    if events == [] then 0
    else
      var e, before := events[|events| - 1], FailuresInARow(events[..|events| - 1]);
      if CountsAsFailure(e) then before + 1 else if e.Answer? then 0 else before
  }

  lemma {:induction false} CounterIsTheRow(states: seq<State>, events: seq<Event>, k: nat)
    requires IsRun(states, events) && states[0].consecutiveFailures == 0 && k <= |events|
    ensures states[k].consecutiveFailures == FailuresInARow(events[..k])
  {
    if k > 0 {
      CounterIsTheRow(states, events, k - 1);
      assert events[..k][..k - 1] == events[..k - 1];
      assert states[k] == Step(states[k - 1], events[k - 1]);
    }
  }

  /** The backoff: after the first to the fifth failure in a row the deadline is 1, 2, 4, 8 and
      16 seconds away, and after every later one 30. */
  lemma BackoffIs(states: seq<State>, events: seq<Event>, k: nat)
    requires IsRun(states, events) && states[0].consecutiveFailures == 0 && k < |events| && CountsAsFailure(events[k])
    ensures var n, wait := FailuresInARow(events[..k + 1]), states[k + 1].nextCheckAt - states[k].now;
            && n >= 1
            && wait == (if n == 1 then 1_000 else if n == 2 then 2_000 else if n == 3 then 4_000
                        else if n == 4 then 8_000 else if n == 5 then 16_000 else 30_000)
  {
    CounterIsTheRow(states, events, k);
    CounterIsTheRow(states, events, k + 1);
    assert states[k + 1] == Step(states[k], events[k]);
  }

  /** A cadence: the deadline is that many seconds away, five at least.  Nothing else moves it. */
  lemma DeadlineIs(states: seq<State>, events: seq<Event>, k: nat)
    requires IsRun(states, events) && k < |events|
    ensures events[k].Answer? && events[k].checkAgainInSeconds > 0 ==>
              states[k + 1].nextCheckAt ==
              states[k].now + if events[k].checkAgainInSeconds < 5 then 5_000 else 1_000 * events[k].checkAgainInSeconds
    ensures !CountsAsFailure(events[k]) && !events[k].Answer? ==> states[k + 1].nextCheckAt == states[k].nextCheckAt
  {
    assert states[k + 1] == Step(states[k], events[k]);
  }

  /** A trigger starts an attempt exactly when the deadline has come and none is under way, and
      every way an attempt can end leaves none under way. */
  lemma AttemptsStartAndEnd(states: seq<State>, events: seq<Event>, k: nat)
    requires IsRun(states, events) && k < |events|
    ensures events[k] == Trigger ==>
              (states[k].attempt == NoAttempt && states[k + 1].attempt != NoAttempt <==>
                states[k].attempt == NoAttempt && states[k].now >= states[k].nextCheckAt)
    ensures events[k] in {NoSession, ReadFails, RequestFails, CommitSettles(true), CommitSettles(false)} ==>
              states[k + 1].attempt == NoAttempt
    ensures events[k].Answer? ==> (states[k + 1].attempt == NoAttempt <==> !events[k].carriesToken)
  {
    assert states[k + 1] == Step(states[k], events[k]);
  }

  /** The module's variables.  Every call is given the time, which never runs backwards. */
  class SessionRenewal {
    var nextCheckAt: nat
    var consecutiveFailures: nat
    var attempt: Attempt
    ghost var clock: nat
    ghost var states: seq<State>
    ghost var events: seq<Event>

    ghost function At(now: nat): State
      reads this
    {
      State(now, nextCheckAt, consecutiveFailures, attempt)
    }

    /** The object is where its run so far has led. */
    ghost predicate Valid()
      reads this
    {
      IsRun(states, events) && states[0] == State(0, 0, 0, NoAttempt) && states[|events|] == At(clock)
    }

    constructor ()
      ensures Valid() && clock == 0 && events == []
    {
      nextCheckAt, consecutiveFailures, attempt := 0, 0, NoAttempt;
      clock, states, events := 0, [State(0, 0, 0, NoAttempt)], [];
    }

    /** The time that passed and the step just taken are added to the run. */
    ghost method Record(before: State, now: nat, e: Event)
      requires IsRun(states, events) && states[0] == State(0, 0, 0, NoAttempt)
      requires clock <= now && states[|events|] == before.(now := clock) && before.now == now
      requires Enabled(before, e) && At(now) == Step(before, e) && !e.Tick?
      modifies this`clock, this`states, this`events
      ensures Valid() && clock == now && events == old(events) + [Tick(now - old(clock)), e]
    {
      RunGoesOn(states, events, Tick(now - clock), before);
      RunGoesOn(states + [before], events + [Tick(now - clock)], e, At(now));
      states, events := states + [before] + [At(now)], events + [Tick(now - clock)] + [e];
      clock := now;
    }

    method ScheduleRetryAfterFailure(now: nat)
      modifies this`nextCheckAt, this`consecutiveFailures
      ensures At(now) == AfterFailure(old(At(now)))
    {
      var delay := RETRY_DELAYS_MS[Min(consecutiveFailures, |RETRY_DELAYS_MS| - 1)];
      consecutiveFailures := consecutiveFailures + 1;
      nextCheckAt := now + delay;
    }

    method MaybeRenewSession(now: nat)
      requires Valid() && clock <= now
      modifies this
      ensures At(now) == Step(old(At(now)), Trigger)
      ensures Valid() && clock == now && events == old(events) + [Tick(now - old(clock)), Trigger]
    {
      ghost var before := At(now);
      if now >= nextCheckAt && attempt == NoAttempt {
        attempt := ReadingToken;
      }
      Record(before, now, Trigger);
    }

    method ReadSettles(now: nat, outcome: Event)
      requires Valid() && clock <= now
      requires outcome in {NoSession, ReadFails, SendRequest} && Enabled(At(now), outcome)
      modifies this
      ensures At(now) == Step(old(At(now)), outcome)
      ensures Valid() && clock == now && events == old(events) + [Tick(now - old(clock)), outcome]
    {
      ghost var before := At(now);
      if outcome == SendRequest {
        attempt := AwaitingAnswer;
      } else {
        if outcome == ReadFails {
          ScheduleRetryAfterFailure(now);
        }
        attempt := NoAttempt;
      }
      Record(before, now, outcome);
    }

    method RequestSettles(now: nat, outcome: Event)
      requires Valid() && clock <= now
      requires EndsRequest(outcome) && Enabled(At(now), outcome)
      modifies this
      ensures At(now) == Step(old(At(now)), outcome)
      ensures Valid() && clock == now && events == old(events) + [Tick(now - old(clock)), outcome]
    {
      ghost var before := At(now);
      if outcome.RequestFails? {
        ScheduleRetryAfterFailure(now);
        attempt := NoAttempt;
      } else {
        if outcome.checkAgainInSeconds <= 0 {
          ScheduleRetryAfterFailure(now);
        } else {
          consecutiveFailures := 0;
          nextCheckAt := now + Max(MIN_CHECK_INTERVAL_MS, outcome.checkAgainInSeconds * 1000);
        }
        attempt := if outcome.carriesToken then Committing else NoAttempt;
      }
      Record(before, now, outcome);
    }

    method CommitSettled(now: nat, ok: bool)
      requires Valid() && clock <= now
      requires Enabled(At(now), CommitSettles(ok))
      modifies this
      ensures At(now) == Step(old(At(now)), CommitSettles(ok))
      ensures Valid() && clock == now && events == old(events) + [Tick(now - old(clock)), CommitSettles(ok)]
    {
      ghost var before := At(now);
      if !ok {
        ScheduleRetryAfterFailure(now);
      }
      attempt := NoAttempt;
      Record(before, now, CommitSettles(ok));
    }
  }

  lemma RunGoesOn(states: seq<State>, events: seq<Event>, e: Event, s: State)
    requires IsRun(states, events) && Enabled(states[|events|], e) && s == Step(states[|events|], e)
    ensures IsRun(states + [s], events + [e])
  {
    var states', events' := states + [s], events + [e];
    forall k | 0 <= k < |events'|
      ensures Enabled(states'[k], events'[k]) && states'[k + 1] == Step(states'[k], events'[k])
    {
      if k < |events| { assert states'[k] == states[k] && states'[k + 1] == states[k + 1] && events'[k] == events[k]; }
    }
  }

  /** After any calls of the object's methods: its requests were spaced, and never two in flight. */
  lemma ObjectIsSpaced(renewal: SessionRenewal, i: nat, j: nat)
    requires renewal.Valid() && i < j < |renewal.events| && renewal.events[j].SendRequest?
    ensures EndsRequest(renewal.events[i]) || Fails(renewal.states[i], renewal.states[i + 1]) ==>
              renewal.states[j].now >= renewal.states[i].now + 1_000
    ensures renewal.events[i].SendRequest? ==> exists k :: i < k < j && EndsRequest(renewal.events[k])
  {
    if EndsRequest(renewal.events[i]) || Fails(renewal.states[i], renewal.states[i + 1]) {
      RequestsAreSpaced(renewal.states, renewal.events, i, j);
    }
    if renewal.events[i].SendRequest? { OneRequestInFlight(renewal.states, renewal.events, i, j); }
  }
}
