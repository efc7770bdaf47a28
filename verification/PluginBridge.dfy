/** The request bridge between a plugin and its host. */
module PluginBridge {

  import opened Wrappers

  datatype Call = Call(verb: string, path: string, body: string)

  /** What the host posts: an answer to a request, or something that answers none. */
  datatype Incoming = Success(id: string, data: string) | Failure(id: string, status: int, error: string) | Other

  datatype Outcome = Resolved(data: string) | Refused(status: int, error: string) | TimedOut(call: Call)

  datatype Pending = Pending(call: Call, timer: nat)
  datatype Timeout = Timeout(id: string, call: Call)
  datatype Posted = Posted(id: string, call: Call)
  datatype Settlement = Settlement(id: string, outcome: Outcome)

  function Digits(n: nat): string {
    (if n < 10 then [] else Digits(n / 10)) + [(48 + n % 10) as char]
  }

  /** The id of the n-th request. */
  function Name(n: nat): string { "r" + Digits(n) }

  lemma {:induction false} DigitsAreInjective(m: nat, n: nat)
    requires Digits(m) == Digits(n)
    ensures m == n
  {
    var front := (k: nat) => if k < 10 then "" else Digits(k / 10);
    assert Digits(m) == front(m) + [(48 + m % 10) as char] && Digits(n) == front(n) + [(48 + n % 10) as char];
    assert front(m) == Digits(m)[..|Digits(m)| - 1] == Digits(n)[..|Digits(n)| - 1] == front(n);
    assert Digits(m)[|Digits(m)| - 1] == Digits(n)[|Digits(n)| - 1];
    if m >= 10 && n >= 10 { DigitsAreInjective(m / 10, n / 10); }
  }

  lemma NamesAreDistinct(m: nat, n: nat)
    ensures Name(m) == Name(n) <==> m == n
  {
    if Name(m) == Name(n) {
      assert Name(m)[1..] == Digits(m) && Name(n)[1..] == Digits(n);
      DigitsAreInjective(m, n);
    }
  }

  /** `timers` are the armed timeouts of the host's clock by handle, each with what its callback
      closes over; `settled` is every call of a promise's resolve or reject, in order. */
  datatype State = State(
    sequence: nat, pending: map<string, Pending>, nextTimer: nat, timers: map<nat, Timeout>,
    posted: seq<Posted>, settled: seq<Settlement>)

  const INIT := State(0, map[], 0, map[], [], [])

  datatype Event = Issue(call: Call) | Receive(message: Incoming) | Fire(timer: nat)

  function Settle(s: State, id: string, outcome: Outcome): State {
    s.(pending := s.pending - {id}, settled := s.settled + [Settlement(id, outcome)])
  }

  function Answer(m: Incoming): Outcome
    requires !m.Other?
  {
    if m.Success? then Resolved(m.data) else Refused(m.status, m.error)
  }

  /** One turn of the event loop; a message no request waits for, or a timer that is not armed,
      does nothing. */
  function Step(s: State, e: Event): State {
    match e
    case Issue(call) =>
      var n, timer := s.sequence + 1, s.nextTimer + 1;
      s.(sequence := n, nextTimer := timer, timers := s.timers[timer := Timeout(Name(n), call)],
         pending := s.pending[Name(n) := Pending(call, timer)], posted := s.posted + [Posted(Name(n), call)])
    case Receive(m) =>
      if m.Other? || m.id !in s.pending then s
      else Settle(s, m.id, Answer(m)).(timers := s.timers - {s.pending[m.id].timer})
    case Fire(timer) =>
      if timer !in s.timers then s
      else Settle(s, s.timers[timer].id, TimedOut(s.timers[timer].call)).(timers := s.timers - {timer})
  }

  function After(events: seq<Event>): State {
    if events == [] then INIT else Step(After(events[..|events| - 1]), events[|events| - 1])
  }

  function Times(settled: seq<Settlement>, id: string): nat {
    if settled == [] then 0 else Times(settled[..|settled| - 1], id) + if settled[|settled| - 1].id == id then 1 else 0
  }

  lemma TimesPush(settled: seq<Settlement>, x: Settlement, id: string)
    ensures Times(settled + [x], id) == Times(settled, id) + if x.id == id then 1 else 0
  {
    assert (settled + [x])[..|settled|] == settled;
  }

  /** Timers are armed exactly for the pending requests. */
  ghost predicate TimersMatch(s: State) {
    && (forall id :: id in s.pending ==>
          s.pending[id].timer in s.timers && s.timers[s.pending[id].timer] == Timeout(id, s.pending[id].call))
    && (forall t :: t in s.timers ==> s.timers[t].id in s.pending && s.pending[s.timers[t].id].timer == t)
  }

  /** The n-th request is posted once; it is pending with its own timer, or it settled once. */
  ghost predicate Accounted(s: State, n: nat) {
    && 0 < n <= |s.posted| && s.posted[n - 1].id == Name(n)
    && (Name(n) in s.pending ==> s.pending[Name(n)] == Pending(s.posted[n - 1].call, n))
    && Times(s.settled, Name(n)) == if Name(n) in s.pending then 0 else 1
  }

  ghost predicate Numbered(s: State, id: string) { exists n: nat :: 0 < n <= s.sequence && id == Name(n) }

  ghost predicate OnlyIssued(s: State) {
    forall id :: id in s.pending || Times(s.settled, id) > 0 ==> Numbered(s, id)
  }

  ghost predicate Inv(s: State) {
    && s.sequence == s.nextTimer == |s.posted|
    && TimersMatch(s)
    && OnlyIssued(s)
    && forall n: nat :: 0 < n <= s.sequence ==> Accounted(s, n)
  }

  lemma IssueKeepsInv(s: State, call: Call)
    requires Inv(s)
    ensures Inv(Step(s, Issue(call)))
  {
    var s' := Step(s, Issue(call));
    var name := Name(s'.sequence);
    assert name !in s.pending && Times(s.settled, name) == 0 by {
      if Numbered(s, name) {
        var n: nat :| 0 < n <= s.sequence && name == Name(n);
        NamesAreDistinct(n, s'.sequence);
      }
    }
    forall t | t in s.timers ensures t != s'.nextTimer {
      var id := s.timers[t].id;
      var n: nat :| 0 < n <= s.sequence && id == Name(n);
      assert Accounted(s, n);
    }
    forall n: nat | 0 < n <= s'.sequence ensures Accounted(s', n) {
      NamesAreDistinct(n, s'.sequence);
      if n < s'.sequence { assert Accounted(s, n); }
    }
    forall id | id in s'.pending || Times(s'.settled, id) > 0 ensures Numbered(s', id) {
      if id != name {
        var n: nat :| 0 < n <= s.sequence && id == Name(n);
      }
    }
  }

  /** Settling a pending request and disarming its timer. */
  lemma SettleKeepsInv(s: State, id: string, outcome: Outcome)
    requires Inv(s) && id in s.pending
    ensures Inv(Settle(s, id, outcome).(timers := s.timers - {s.pending[id].timer}))
  {
    var s' := Settle(s, id, outcome).(timers := s.timers - {s.pending[id].timer});
    forall n: nat | 0 < n <= s.sequence ensures Accounted(s', n) {
      assert Accounted(s, n);
      TimesPush(s.settled, Settlement(id, outcome), Name(n));
    }
    forall i | i in s'.pending || Times(s'.settled, i) > 0 ensures Numbered(s', i) {
      TimesPush(s.settled, Settlement(id, outcome), i);
      assert Numbered(s, i);
    }
  }

  lemma StepKeepsInv(s: State, e: Event)
    requires Inv(s)
    ensures Inv(Step(s, e))
  {
    match e
    case Issue(call) => IssueKeepsInv(s, call);
    case Receive(m) =>
      if !m.Other? && m.id in s.pending { SettleKeepsInv(s, m.id, Answer(m)); }
    case Fire(timer) =>
      if timer in s.timers {
        SettleKeepsInv(s, s.timers[timer].id, TimedOut(s.timers[timer].call));
      }
  }

  lemma {:induction false} InvHolds(events: seq<Event>)
    ensures Inv(After(events))
  {
    if events != [] {
      InvHolds(events[..|events| - 1]);
      StepKeepsInv(After(events[..|events| - 1]), events[|events| - 1]);
    }
  }

  /** How many requests a schedule issues. */
  function Issued(events: seq<Event>): nat {
    if events == [] then 0 else Issued(events[..|events| - 1]) + if events[|events| - 1].Issue? then 1 else 0
  }

  /** How an event settles the n-th request while it waits. */
  function Verdict(e: Event, n: nat, call: Call): Option<Outcome> {
    if e.Receive? && !e.message.Other? && e.message.id == Name(n) then Some(Answer(e.message))
    else if e == Fire(n) then Some(TimedOut(call))
    else None
  }

  /** The first verdict on the n-th request after it was issued, read off the schedule alone. */
  function FirstVerdict(events: seq<Event>, n: nat): Option<Outcome> {
    if events == [] then None
    else
      var before := events[..|events| - 1];
      if FirstVerdict(before, n).Some? then FirstVerdict(before, n)
      else if n <= Issued(before) then Verdict(events[|events| - 1], n, NthCall(before, n))
      else None
  }

  /** The call of the n-th request. */
  function NthCall(events: seq<Event>, n: nat): Call {
    if events == [] then Call("", "", "")
    else if n <= Issued(events[..|events| - 1]) || !events[|events| - 1].Issue? then NthCall(events[..|events| - 1], n)
    else events[|events| - 1].call
  }

  /** What became of the n-th request. */
  ghost predicate Fate(s: State, n: nat, call: Call, verdict: Option<Outcome>) {
    && 0 < n <= |s.posted| && s.posted[n - 1] == Posted(Name(n), call)
    && (verdict.None? <==> Name(n) in s.pending)
    && (verdict.Some? ==> Settlement(Name(n), verdict.value) in s.settled)
  }

  lemma {:induction false} SequenceIsIssued(events: seq<Event>)
    ensures After(events).sequence == Issued(events)
  {
    if events != [] { SequenceIsIssued(events[..|events| - 1]); }
  }

  lemma {:induction false} NoVerdictBeforeIssue(events: seq<Event>, n: nat)
    requires n > Issued(events)
    ensures FirstVerdict(events, n) == None
  {
    if events != [] { NoVerdictBeforeIssue(events[..|events| - 1], n); }
  }

  lemma FateStep(s: State, e: Event, n: nat, call: Call, verdict: Option<Outcome>)
    requires Inv(s) && 0 < n <= s.sequence && Fate(s, n, call, verdict)
    ensures Fate(Step(s, e), n, call, if verdict.Some? then verdict else Verdict(e, n, call))
  {
    assert Accounted(s, n);
    match e
    case Issue(_) => NamesAreDistinct(n, s.sequence + 1);
    case Receive(_) =>
    case Fire(timer) =>
      if timer in s.timers {
        var id := s.timers[timer].id;
        var m: nat :| 0 < m <= s.sequence && id == Name(m);
        assert Accounted(s, m);
        NamesAreDistinct(m, n);
      }
  }

  lemma FateOfNewest(s: State, call: Call)
    requires Inv(s)
    ensures Fate(Step(s, Issue(call)), s.sequence + 1, call, None)
  {
  }

  lemma {:induction false} FateHolds(events: seq<Event>, n: nat)
    requires 0 < n <= Issued(events)
    ensures Fate(After(events), n, NthCall(events, n), FirstVerdict(events, n))
  {
    var before, e := events[..|events| - 1], events[|events| - 1];
    InvHolds(before);
    SequenceIsIssued(before);
    if n <= Issued(before) {
      FateHolds(before, n);
      FateStep(After(before), e, n, NthCall(before, n), FirstVerdict(before, n));
    } else {
      NoVerdictBeforeIssue(before, n);
      FateOfNewest(After(before), e.call);
    }
  }

  /** Over every schedule of requests, messages (late, repeated and unknown ids included) and
      timeouts: the n-th request is posted under its own id; it settles once, with the first
      answer to it or with its own timeout if that comes first, and nothing later changes that;
      until then it is pending and its timer armed. */
  lemma EveryRequestSettlesOnce(events: seq<Event>, n: nat)
    requires 0 < n <= Issued(events)
    ensures var s := After(events);
            && Fate(s, n, NthCall(events, n), FirstVerdict(events, n))
            && Times(s.settled, Name(n)) == (if FirstVerdict(events, n).Some? then 1 else 0)
            && (n in s.timers <==> FirstVerdict(events, n).None?)
  {
    FateHolds(events, n);
    InvHolds(events);
    SequenceIsIssued(events);
    var s := After(events);
    assert Accounted(s, n);
    if n in s.timers {
      var id := s.timers[n].id;
      var m: nat :| 0 < m <= s.sequence && id == Name(m);
      assert Accounted(s, m);
    }
  }

  /** Only issued ids are ever pending or settled. */
  lemma OnlyIssuedIdsSettle(events: seq<Event>, id: string)
    requires id in After(events).pending || Times(After(events).settled, id) > 0
    ensures exists n: nat :: 0 < n <= Issued(events) && id == Name(n)
  {
    InvHolds(events);
    SequenceIsIssued(events);
    assert Numbered(After(events), id);
  }

  // ---------- The object ----------

  /** The bridge once its port is there. */
  class Bridge {
    var sequence: nat
    var pending: map<string, Pending>
    var nextTimer: nat
    var timers: map<nat, Timeout>
    var posted: seq<Posted>
    var settled: seq<Settlement>
    ghost var events: seq<Event>

    function View(): State
      reads this
    {
      State(sequence, pending, nextTimer, timers, posted, settled)
    }

    ghost predicate Valid()
      reads this
    {
      View() == After(events)
    }

    constructor ()
      ensures Valid() && events == []
    {
      sequence, pending, nextTimer, timers, posted, settled := 0, map[], 0, map[], [], [];
      events := [];
    }

    ghost method Record(before: State, e: Event)
      requires before == After(events) && View() == Step(before, e)
      modifies this`events
      ensures Valid() && events == old(events) + [e]
    {
      assert (events + [e])[..|events|] == events;
      events := events + [e];
    }

    method SetTimeout(callback: Timeout) returns (handle: nat)
      modifies this`nextTimer, this`timers
      ensures handle == nextTimer == old(nextTimer) + 1 && timers == old(timers)[handle := callback]
    {
      nextTimer := nextTimer + 1;
      timers := timers[nextTimer := callback];
      handle := nextTimer;
    }

    method ClearTimeout(handle: nat)
      modifies this`timers
      ensures timers == old(timers) - {handle}
    {
      timers := timers - {handle};
    }

    /** `request`, from where its wait for the port ends. */
    method Request(call: Call) returns (id: string)
      requires Valid()
      modifies this
      ensures View() == Step(old(View()), Issue(call)) && id == Name(sequence)
      ensures Valid() && events == old(events) + [Issue(call)]
    {
      ghost var before := View();
      sequence := sequence + 1;
      id := Name(sequence);
      var timer := SetTimeout(Timeout(id, call));
      pending := pending[id := Pending(call, timer)];
      posted := posted + [Posted(id, call)];
      Record(before, Issue(call));
    }

    method OnPortMessage(message: Incoming)
      requires Valid()
      modifies this
      ensures View() == Step(old(View()), Receive(message))
      ensures Valid() && events == old(events) + [Receive(message)]
    {
      ghost var before := View();
      Deliver(message);
      Record(before, Receive(message));
    }

    method Deliver(message: Incoming)
      modifies this`pending, this`timers, this`settled
      ensures View() == Step(old(View()), Receive(message))
    {
      if message.Other? { return; }
      if message.id !in pending { return; }
      var waiting := pending[message.id];
      pending := pending - {message.id};
      ClearTimeout(waiting.timer);
      if message.Success? {
        settled := settled + [Settlement(message.id, Resolved(message.data))];
      } else {
        settled := settled + [Settlement(message.id, Refused(message.status, message.error))];
      }
    }

    /** The host fires an armed timer: it disarms it and runs the callback, which rejects the
        promise of the id it closes over. */
    method OnTimeout(timer: nat)
      requires Valid() && timer in timers
      modifies this
      ensures View() == Step(old(View()), Fire(timer))
      ensures Valid() && events == old(events) + [Fire(timer)]
    {
      ghost var before := View();
      var callback := timers[timer];
      timers := timers - {timer};
      pending := pending - {callback.id};
      settled := settled + [Settlement(callback.id, TimedOut(callback.call))];
      Record(before, Fire(timer));
    }
  }

  /** After any calls of the object's methods: what became of its n-th request. */
  lemma BridgeSettlesOnce(bridge: Bridge, n: nat)
    requires bridge.Valid() && 0 < n <= bridge.sequence
    ensures Fate(bridge.View(), n, NthCall(bridge.events, n), FirstVerdict(bridge.events, n))
    ensures Times(bridge.settled, Name(n)) == if Name(n) in bridge.pending then 0 else 1
    ensures n in bridge.timers <==> Name(n) in bridge.pending
  {
    SequenceIsIssued(bridge.events);
    EveryRequestSettlesOnce(bridge.events, n);
  }

  // ---------- Ids and outcomes, written out ----------

  /** The number a decimal numeral denotes. */
  function Value(digits: string): int {
    if digits == "" then 0 else 10 * Value(digits[..|digits| - 1]) + (digits[|digits| - 1] as int - '0' as int)
  }

  lemma {:induction false} DigitsAreDecimal(n: nat)
    ensures Digits(n) != "" && Value(Digits(n)) == n && (n > 0 ==> Digits(n)[0] != '0')
    ensures forall i :: 0 <= i < |Digits(n)| ==> '0' <= Digits(n)[i] <= '9'
  {
    if n >= 10 { DigitsAreDecimal(n / 10); }
    AppendDigit(if n < 10 then "" else Digits(n / 10), n / 10, n % 10);
  }

  lemma AppendDigit(front: string, high: nat, low: nat)
    requires low < 10 && Value(front) == high && (front == "" ==> high == 0)
    ensures Value(front + [(48 + low) as char]) == 10 * high + low && '0' <= (48 + low) as char <= '9'
  {
    assert (front + [(48 + low) as char])[..|front|] == front;
  }

  /** The id of the n-th request is `r` and its number in decimal. */
  lemma NameIs(n: nat)
    ensures |Name(n)| > 1 && Name(n)[0] == 'r' && Value(Name(n)[1..]) == n && (n > 0 ==> Name(n)[1] != '0')
    ensures forall i :: 1 <= i < |Name(n)| ==> '0' <= Name(n)[i] <= '9'
  {
    DigitsAreDecimal(n);
    assert Name(n)[1..] == Digits(n);
  }

  /** What settles a waiting request, and how: an answer gives its data, a refusal its status and
      error, the timeout names the call; each takes the request and its timer away. */
  lemma OutcomesAre(events: seq<Event>, n: nat, data: string, status: int, error: string)
    requires 0 < n <= Issued(events) && FirstVerdict(events, n) == None
    ensures Name(n) in After(events).pending && n in After(events).timers
    ensures var s, s' := After(events), After(events + [Receive(Success(Name(n), data))]);
            s'.settled == s.settled + [Settlement(Name(n), Resolved(data))] && Name(n) !in s'.pending && n !in s'.timers
    ensures var s, s' := After(events), After(events + [Receive(Failure(Name(n), status, error))]);
            && s'.settled == s.settled + [Settlement(Name(n), Refused(status, error))]
            && Name(n) !in s'.pending && n !in s'.timers
    ensures var s, s' := After(events), After(events + [Fire(n)]);
            && s'.settled == s.settled + [Settlement(Name(n), TimedOut(NthCall(events, n)))]
            && Name(n) !in s'.pending && n !in s'.timers
  {
    EveryRequestSettlesOnce(events, n);
    InvHolds(events);
    SequenceIsIssued(events);
    assert Accounted(After(events), n);
    AfterPush(events, Receive(Success(Name(n), data)));
    AfterPush(events, Receive(Failure(Name(n), status, error)));
    AfterPush(events, Fire(n));
  }

  lemma AfterPush(events: seq<Event>, e: Event)
    ensures After(events + [e]) == Step(After(events), e)
  {
    assert (events + [e])[..|events|] == events;
  }
}
