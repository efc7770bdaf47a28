/**
 * The client's module state, changed in place between awaits.  Every method is one step of
 * the protocol, and the object remembers its schedule, so that what `CredentialSafety` proves
 * of schedules holds of the object (`AtRest`).
 */
module CredentialClient {

  import opened Wrappers
  import opened Credentials
  import opened CredentialMemory
  import opened CredentialSafety

  class Client {
    // session-epoch.ts, the Keychain cell, and the API client's token
    var epoch: nat
    var stored: Option<Token>
    var memory: Option<Token>
    // secure-storage.ts: the chain of writes, and the functions awaiting them
    var queue: seq<Op>
    var phase: Phase
    var resumptions: seq<Resumption>
    // session-renewal.ts: `inFlight` and the attempt's locals
    var renewal: Renewal
    // what the server has issued
    var issued: nat
    // history
    ghost var owner: Option<nat>
    ghost var landed: Option<nat>
    ghost var orphaned: bool
    ghost var delivered: bool
    ghost var initial: Option<Token>
    ghost var events: seq<Event>

    ghost function View(): State
      reads this
    {
      State(epoch, stored, memory, queue, phase, resumptions, renewal, issued, owner, landed, orphaned, delivered)
    }

    ghost predicate Valid()
      reads this
    {
      Reaches(initial, events, View())
    }

    /** `initialize`: memory is restored from the Keychain. */
    constructor (token: Option<Token>)
      requires token.Some? ==> token.value == Token(0, 0)
      ensures Valid() && View() == Launch(token) && initial == token && events == []
    {
      epoch, stored, memory := 0, token, token;
      queue, phase, resumptions := [], Waiting, [];
      renewal, issued := Idle, 1;
      owner, landed := SessionOf(token), SessionOf(token);
      orphaned, delivered := false, true;
      initial, events := token, [];
    }

    /** The same launch, and one more event. */
    twostate predicate Extends(before: seq<Event>, e: Event)
      reads this
    {
      initial == old(initial) && events == before + [e]
    }

    /** The step just taken is remembered. */
    ghost method Record(before: State, e: Event)
      requires Reaches(initial, events, before) && Enabled(before, e) && View() == Step(before, e)
      modifies this`events
      ensures Reaches(initial, events, View()) && events == old(events) + [e]
    {
      RunThen(Launch(initial), events, before, e);
      events := events + [e];
    }

    method InvalidateSessionEpoch()
      modifies this`epoch
      ensures epoch == old(epoch) + 1
    {
      epoch := epoch + 1;
    }

    /** `serialize`: chains an operation onto the tail. */
    method Serialize(op: Op)
      modifies this`queue
      ensures queue == old(queue) + [op]
    {
      queue := queue + [op];
    }

    method Logout()
      requires Valid()
      modifies this
      ensures View() == Step(old(View()), EndSession) && Valid() && Extends(old(events), EndSession)
    {
      ghost var before := View();
      InvalidateSessionEpoch();
      Serialize(Clear);
      owner := None;
      Record(before, EndSession);
    }

    method VerifyCode()
      requires Valid()
      modifies this
      ensures View() == Step(old(View()), SignIn) && Valid() && Extends(old(events), SignIn)
    {
      ghost var before := View();
      InvalidateSessionEpoch();
      var token := Token(epoch, issued);
      issued := issued + 1;
      Serialize(Set(token));
      owner := Some(epoch);
      Record(before, SignIn);
    }

    method RenewSessionNow()
      requires Valid()
      modifies this
      ensures View() == Step(old(View()), StartRenewal) && Valid() && Extends(old(events), StartRenewal)
    {
      ghost var before := View();
      if renewal.Idle? {
        renewal := Reading(epoch);
      }
      Record(before, StartRenewal);
    }

    method KeychainReads()
      requires Valid() && Enabled(View(), SampleRead)
      modifies this
      ensures View() == Step(old(View()), SampleRead) && Valid() && Extends(old(events), SampleRead)
    {
      ghost var before := View();
      renewal := Sampled(renewal.epoch, stored);
      Record(before, SampleRead);
    }

    method ReadSettles(ok: bool)
      requires Valid() && Enabled(View(), DeliverRead(ok))
      modifies this
      ensures View() == Step(old(View()), DeliverRead(ok)) && Valid() && Extends(old(events), DeliverRead(ok))
    {
      ghost var before := View();
      var epochAtStart, startedFrom := renewal.epoch, renewal.value;
      if !ok || startedFrom.None? || epoch != epochAtStart {
        renewal := Idle;
      } else {
        renewal := Requesting(epochAtStart, startedFrom.value, memory);
      }
      Record(before, DeliverRead(ok));
    }

    method RefreshSettles(answer: Answer)
      requires Valid() && Enabled(View(), ServerAnswers(answer))
      modifies this
      ensures View() == Step(old(View()), ServerAnswers(answer)) && Valid()
              && Extends(old(events), ServerAnswers(answer))
    {
      ghost var before := View();
      if answer.Renewed? {
        var token := Token(renewal.bearer.value.session, issued);
        issued := issued + 1;
        Serialize(Commit(token, renewal.epoch, renewal.from));
        renewal := Committing;
      } else {
        renewal := Idle;
      }
      Record(before, ServerAnswers(answer));
    }

    /** The operation at the head settles and the next one may begin. */
    method Dequeue(next: seq<Resumption>)
      requires queue != []
      modifies this`queue, this`phase, this`resumptions
      ensures queue == old(queue)[1..] && phase == Waiting && resumptions == old(resumptions) + next
    {
      queue, phase, resumptions := queue[1..], Waiting, resumptions + next;
    }

    /** The head of the queue runs to its next await; `ok` is the outcome of its Keychain call. */
    method WriterTurn(ok: bool)
      requires Valid() && Enabled(View(), WriterStep(ok))
      modifies this
      ensures View() == Step(old(View()), WriterStep(ok)) && Valid() && Extends(old(events), WriterStep(ok))
    {
      ghost var before := View();
      HeadTurn(ok);
      Record(before, WriterStep(ok));
    }

    method HeadTurn(ok: bool)
      requires queue != []
      modifies this
      ensures View() == WriterStepOn(old(View()), ok) && unchanged(`initial) && unchanged(`events)
    {
      match queue[0] {
        case Set(token) =>
          if ok {
            stored, landed, orphaned, delivered := Some(token), Some(token.session), false, true;
            Dequeue([PublishSignIn(token)]);
          } else {
            delivered := false;
            Dequeue([]);
          }
        case Clear =>
          if ok {
            stored, landed, orphaned, delivered := None, None, false, true;
            Dequeue([PublishTeardown]);
          } else {
            delivered := false;
            Dequeue([]);
          }
        case Commit(token, epochAtStart, previousToken) =>
          CommitTurn(token, epochAtStart, previousToken, ok);
      }
    }

    /** The body of `commitRenewedToken`, one await at a time. */
    method CommitTurn(token: Token, epochAtStart: nat, previousToken: Token, ok: bool)
      requires queue != [] && queue[0] == Commit(token, epochAtStart, previousToken)
      modifies this
      ensures View() == WriterStepOn(old(View()), ok) && unchanged(`initial) && unchanged(`events)
    {
      match phase {
        case Waiting =>
          if epoch != epochAtStart {
            Dequeue([RenewalEnds]);
          } else {
            phase := EpochChecked;
          }
        case EpochChecked =>
          if !ok {
            Dequeue([RenewalEnds]);
          } else if stored != Some(previousToken) {
            Dequeue([RenewalEnds]);
          } else {
            phase := ValueChecked;
          }
        case ValueChecked =>
          if !ok {
            Dequeue([RenewalEnds]);
          } else {
            stored, orphaned := Some(token), false;
            Dequeue([PublishRenewal(token, epochAtStart)]);
          }
      }
    }

    /** The longest-waiting continuation runs on after its write. */
    method Continue()
      requires Valid() && Enabled(View(), Resume)
      modifies this
      ensures View() == Step(old(View()), Resume) && Valid() && Extends(old(events), Resume)
    {
      ghost var before := View();
      var next := resumptions[0];
      resumptions := resumptions[1..];
      match next {
        case PublishSignIn(token) => memory := Some(token);
        case PublishTeardown => memory := None;
        case PublishRenewal(token, epochAtStart) =>
          if epoch == epochAtStart {
            memory := Some(token);
          } else {
            orphaned := orphaned || stored == Some(token);
          }
          renewal := Idle;
        case RenewalEnds => renewal := Idle;
      }
      Record(before, Resume);
    }
  }

  /** The object at any time: the Keychain belongs to the latest sign-in or teardown whose write
      landed, and memory to the latest that has gone on after it. */
  lemma AtAnyTime(client: Client)
    requires client.Valid()
    ensures SessionOf(client.stored) == Landed(client.initial, client.events)
    ensures SessionOf(client.memory) == Published(client.initial, client.events)
  {
    KeychainBelongsToWhatLanded(client.initial, client.events, client.View());
    MemoryBelongsToWhatWasPublished(client.initial, client.events, client.View());
  }

  /** The object at rest: the Keychain and memory hold the session of the latest teardown or
      sign-in whenever its write landed, and then the same token. */
  lemma AtRest(client: Client)
    requires client.Valid() && Quiescent(client.View())
    ensures SessionOf(client.memory) == SessionOf(client.stored) == Landed(client.initial, client.events)
    ensures client.memory == client.stored <==> !Orphaned(client.initial, client.events)
    ensures Delivered(client.initial, client.events) ==>
              && client.memory == client.stored
              && SessionOf(client.stored) == LatestOwner(SessionOf(client.initial), client.events)
  {
    KeychainBelongsToWhatLanded(client.initial, client.events, client.View());
    QuiescentMemoryMatchesStorage(client.initial, client.events, client.View());
    DrainedKeychainBelongsToLatestOwner(client.initial, client.events, client.View());
  }
}
