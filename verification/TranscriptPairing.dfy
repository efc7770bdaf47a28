/** Pairing the tool results of a run transcript with their calls. */
module TranscriptPairing {

  import opened RunTranscript
  import opened Sequences
  import opened Wrappers

  /** "Missing IDs stay unpaired": an absent or empty call id gives no key. */
  function Key(m: Message): Option<string> {
    if m.callId.Some? && m.callId.value != "" then Some(m.taskId + ":" + m.callId.value) else None
  }

  predicate IsCall(m: Message, key: string) { m.kind == ToolUse && Key(m) == Some(key) }

  predicate IsResult(m: Message, key: string) { m.kind == ToolResult && Key(m) == Some(key) }

  // ---------- What pairing means ----------

  /** The result at `j` belongs to the call at `i`: the latest earlier call of its key, with no
      other result of that key between them. */
  ghost predicate Paired(items: seq<Message>, i: int, j: int) {
    && 0 <= i < j < |items|
    && Key(items[j]).Some?
    && var key := Key(items[j]).value;
       && IsCall(items[i], key) && IsResult(items[j], key)
       && forall k :: i < k < j ==> !IsCall(items[k], key) && !IsResult(items[k], key)
  }

  /** TranscriptEntry `i` of the output list opens with item `i` unless that is a paired result. */
  ghost predicate Opens(items: seq<Message>, j: int) { forall i :: !Paired(items, i, j) }

  /** The value of an entry: a message, or a tool call and its result. */
  datatype Slot = MessageSlot(message: Message) | ToolSlot(call: Option<Message>, result: Option<Message>)

  /** The entry item `i` opens, once the first `n` items have been seen. */
  ghost predicate IsSlotOf(items: seq<Message>, n: int, i: int, slot: Slot)
    requires 0 <= i < n <= |items|
  {
    match items[i].kind
    case ToolUse =>
      && slot.ToolSlot? && slot.call == Some(items[i])
      && (forall j :: 0 <= j < n && Paired(items, i, j) ==> slot.result == Some(items[j]))
      && (slot.result.Some? ==> exists j :: 0 <= j < n && Paired(items, i, j))
    case ToolResult => slot == ToolSlot(None, Some(items[i]))
    case _ => slot == MessageSlot(items[i])
  }

  /** The items among the first `n` that open an entry, in order. */
  ghost function Openers(items: seq<Message>, n: nat): seq<int>
    requires n <= |items|
  {
    if n == 0 then [] else Openers(items, n - 1) + if Opens(items, n - 1) then [n - 1] else []
  }

  ghost predicate AreEntries(items: seq<Message>, n: nat, slots: seq<Slot>)
    requires n <= |items|
  {
    && |slots| == |Openers(items, n)|
    && forall p :: 0 <= p < |slots| ==>
         0 <= Openers(items, n)[p] < n && IsSlotOf(items, n, Openers(items, n)[p], slots[p])
  }

  lemma {:induction false} OpenersMembers(items: seq<Message>, n: nat, i: int)
    requires n <= |items|
    ensures i in Openers(items, n) <==> 0 <= i < n && Opens(items, i)
  {
    if n > 0 { OpenersMembers(items, n - 1, i); }
  }

  /** An opener's place in the list is the number of openers before it. */
  lemma {:induction false} OpenerPlace(items: seq<Message>, n: nat, i: nat)
    requires i < n <= |items| && Opens(items, i)
    ensures |Openers(items, i)| < |Openers(items, n)| && Openers(items, n)[|Openers(items, i)|] == i
  {
    if i < n - 1 { OpenerPlace(items, n - 1, i); }
  }

  lemma {:induction false} OpenersIncrease(items: seq<Message>, n: nat, p: nat, q: nat)
    requires n <= |items| && p < q < |Openers(items, n)|
    ensures 0 <= Openers(items, n)[p] < Openers(items, n)[q] < n
    decreases n
  {
    if q < |Openers(items, n - 1)| {
      OpenersIncrease(items, n - 1, p, q);
    } else {
      OpenersMembers(items, n - 1, Openers(items, n - 1)[p]);
    }
  }

  // ---------- The pending calls ----------

  /** The call a result of `key` would be paired with after `n` items. */
  ghost function OpenCall(items: seq<Message>, n: nat, key: string): Option<int>
    requires n <= |items|
  {
    if n == 0 then None
    else if IsCall(items[n - 1], key) then Some(n - 1)
    else if IsResult(items[n - 1], key) then None
    else OpenCall(items, n - 1, key)
  }

  lemma {:induction false} OpenCallMeans(items: seq<Message>, n: nat, key: string, i: int)
    requires n <= |items|
    ensures OpenCall(items, n, key) == Some(i) <==>
            && 0 <= i < n && IsCall(items[i], key)
            && forall k :: i < k < n ==> !IsCall(items[k], key) && !IsResult(items[k], key)
  {
    if n > 0 && !IsCall(items[n - 1], key) && !IsResult(items[n - 1], key) {
      OpenCallMeans(items, n - 1, key, i);
    }
  }

  lemma PairedIsOpenCall(items: seq<Message>, i: int, j: nat)
    requires j < |items|
    ensures Paired(items, i, j) <==>
            items[j].kind == ToolResult && Key(items[j]).Some? && OpenCall(items, j, Key(items[j]).value) == Some(i)
  {
    if Key(items[j]).Some? { OpenCallMeans(items, j, Key(items[j]).value, i); }
  }

  // ---------- buildRunTranscriptEntries ----------

  class TranscriptEntry {
    const isTool: bool
    const message: Option<Message>
    const call: Option<Message>
    var result: Option<Message>

    constructor (isTool: bool, message: Option<Message>, call: Option<Message>, result: Option<Message>)
      ensures this.isTool == isTool && this.message == message && this.call == call && this.result == result
    {
      this.isTool, this.message, this.call, this.result := isTool, message, call, result;
    }

    ghost function Value(): Slot
      reads this
    {
      if isTool || message.None? then ToolSlot(call, result) else MessageSlot(message.value)
    }
  }

  ghost function Slots(entries: seq<TranscriptEntry>): (r: seq<Slot>)
    reads entries
    ensures |r| == |entries| && forall p :: 0 <= p < |entries| ==> r[p] == entries[p].Value()
  {
    seq(|entries|, p requires 0 <= p < |entries| reads entries => entries[p].Value())
  }

  /** The pending map aliases entries already in the list. */
  ghost predicate PendingIs(items: seq<Message>, n: nat, entries: seq<TranscriptEntry>,
                            pending: map<string, TranscriptEntry>)
    requires n <= |items|
  {
    && (forall key :: key in pending <==> OpenCall(items, n, key).Some?)
    && forall key :: key in pending ==>
         var i := OpenCall(items, n, key).value;
         0 <= i < n && |Openers(items, i)| < |entries| && entries[|Openers(items, i)|] == pending[key]
  }

  /** The entry lists before and after item `n`, as values. */
  ghost function After(items: seq<Message>, n: nat, slots: seq<Slot>): seq<Slot>
    requires n < |items|
  {
    var m := items[n];
    match m.kind
    case ToolUse => slots + [ToolSlot(Some(m), None)]
    case ToolResult =>
      var key := Key(m);
      if key.Some? && OpenCall(items, n, key.value).Some? then
        var i := OpenCall(items, n, key.value).value;
        if 0 <= i < n && |Openers(items, i)| < |slots| && slots[|Openers(items, i)|].ToolSlot?
        then slots[|Openers(items, i)| := slots[|Openers(items, i)|].(result := Some(m))]
        else slots
      else slots + [ToolSlot(None, Some(m))]
    case _ => slots + [MessageSlot(m)]
  }

  /** An entry that is already in the list keeps its meaning when an unrelated item arrives. */
  lemma SlotKept(items: seq<Message>, n: nat, i: nat, slot: Slot)
    requires i < n < |items| && IsSlotOf(items, n, i, slot) && !Paired(items, i, n)
    ensures IsSlotOf(items, n + 1, i, slot)
  {
  }

  lemma OneResult(items: seq<Message>, i: int, j: int, k: int)
    requires Paired(items, i, j) && Paired(items, i, k)
    ensures j == k
  {
  }

  lemma OneCall(items: seq<Message>, i: int, k: int, j: int)
    requires Paired(items, i, j) && Paired(items, k, j)
    ensures i == k
  {
  }

  lemma CallOpens(items: seq<Message>, i: int)
    requires 0 <= i < |items| && items[i].kind != ToolResult
    ensures Opens(items, i)
  {
  }

  lemma AppendKeepsEntries(items: seq<Message>, n: nat, slots: seq<Slot>, slot: Slot)
    requires n < |items| && AreEntries(items, n, slots)
    requires Opens(items, n) && IsSlotOf(items, n + 1, n, slot)
    ensures AreEntries(items, n + 1, slots + [slot])
  {
    forall p | 0 <= p < |slots| ensures IsSlotOf(items, n + 1, Openers(items, n)[p], slots[p]) {
      SlotKept(items, n, Openers(items, n)[p], slots[p]);
    }
  }

  /** The entry of a call that a new result answers has no result yet. */
  lemma CallSlotIsEmpty(items: seq<Message>, n: nat, slots: seq<Slot>, i: nat)
    requires n < |items| && AreEntries(items, n, slots) && Paired(items, i, n)
    ensures var p := |Openers(items, i)|;
            && p < |slots| && Openers(items, n)[p] == i
            && slots[p] == ToolSlot(Some(items[i]), None)
  {
    CallOpens(items, i);
    OpenerPlace(items, n, i);
    forall j | 0 <= j < n + 1 && Paired(items, i, j) ensures j == n { OneResult(items, i, j, n); }
  }

  lemma OtherSlotKept(items: seq<Message>, n: nat, slots: seq<Slot>, i: nat, q: nat)
    requires n < |items| && AreEntries(items, n, slots) && Paired(items, i, n)
    requires q < |slots| && q != |Openers(items, i)|
    ensures IsSlotOf(items, n + 1, Openers(items, n)[q], slots[q])
  {
    CallSlotIsEmpty(items, n, slots, i);
    var p, openers := |Openers(items, i)|, Openers(items, n);
    if q < p { OpenersIncrease(items, n, q, p); } else { OpenersIncrease(items, n, p, q); }
    if Paired(items, openers[q], n) { OneCall(items, i, openers[q], n); }
    SlotKept(items, n, openers[q], slots[q]);
  }

  lemma FilledSlot(items: seq<Message>, n: nat, i: nat)
    requires n < |items| && Paired(items, i, n)
    ensures IsSlotOf(items, n + 1, i, ToolSlot(Some(items[i]), Some(items[n])))
  {
    forall j | 0 <= j < n + 1 && Paired(items, i, j) ensures j == n { OneResult(items, i, j, n); }
  }

  lemma FillKeepsEntries(items: seq<Message>, n: nat, slots: seq<Slot>, i: nat)
    requires n < |items| && AreEntries(items, n, slots) && Paired(items, i, n)
    requires |Openers(items, i)| < |slots|
    ensures AreEntries(items, n + 1, slots[|Openers(items, i)| := ToolSlot(Some(items[i]), Some(items[n]))])
  {
    var openers := Openers(items, n);
    assert !Opens(items, n) && Openers(items, n + 1) == openers;
    CallSlotIsEmpty(items, n, slots, i);
    FilledSlot(items, n, i);
    forall q | 0 <= q < |slots| && q != |Openers(items, i)|
      ensures 0 <= openers[q] < n + 1 && IsSlotOf(items, n + 1, openers[q], slots[q])
    {
      OtherSlotKept(items, n, slots, i, q);
    }
  }

  lemma AfterKeepsEntries(items: seq<Message>, n: nat, slots: seq<Slot>)
    requires n < |items| && AreEntries(items, n, slots)
    ensures AreEntries(items, n + 1, After(items, n, slots))
  {
    var m := items[n];
    if m.kind == ToolResult && Key(m).Some? && OpenCall(items, n, Key(m).value).Some? {
      var i := OpenCall(items, n, Key(m).value).value;
      PairedIsOpenCall(items, i, n);
      CallSlotIsEmpty(items, n, slots, i);
      FillKeepsEntries(items, n, slots, i);
    } else {
      forall i ensures !Paired(items, i, n) { PairedIsOpenCall(items, i, n); }
      AppendKeepsEntries(items, n, slots, After(items, n, slots)[|slots|]);
    }
  }

  lemma PendingStays(items: seq<Message>, n: nat, entries: seq<TranscriptEntry>, entries': seq<TranscriptEntry>,
                     pending: map<string, TranscriptEntry>)
    requires n < |items| && PendingIs(items, n, entries, pending) && entries <= entries'
    requires forall key :: OpenCall(items, n + 1, key) == OpenCall(items, n, key)
    ensures PendingIs(items, n + 1, entries', pending)
  {
  }

  lemma PendingAfterCall(items: seq<Message>, n: nat, entries: seq<TranscriptEntry>, entry: TranscriptEntry,
                         pending: map<string, TranscriptEntry>)
    requires n < |items| && PendingIs(items, n, entries, pending) && |entries| == |Openers(items, n)|
    requires items[n].kind == ToolUse
    ensures PendingIs(items, n + 1, entries + [entry],
                      if Key(items[n]).Some? then pending[Key(items[n]).value := entry] else pending)
  {
  }

  lemma PendingAfterResult(items: seq<Message>, n: nat, entries: seq<TranscriptEntry>,
                           pending: map<string, TranscriptEntry>)
    requires n < |items| && PendingIs(items, n, entries, pending)
    requires items[n].kind == ToolResult && Key(items[n]).Some?
    ensures PendingIs(items, n + 1, entries, pending - {Key(items[n]).value})
  {
  }

  /** The entries after `n` rounds of the loop. */
  ghost function SlotsAfter(items: seq<Message>, n: nat): seq<Slot>
    requires n <= |items|
  {
    if n == 0 then [] else After(items, n - 1, SlotsAfter(items, n - 1))
  }

  lemma {:induction false} SlotsAfterAreEntries(items: seq<Message>, n: nat)
    requires n <= |items|
    ensures AreEntries(items, n, SlotsAfter(items, n))
  {
    if n > 0 {
      SlotsAfterAreEntries(items, n - 1);
      AfterKeepsEntries(items, n - 1, SlotsAfter(items, n - 1));
    }
  }

  /** A paired result finds its call's entry without a result. */
  lemma PairedSlotIsEmpty(items: seq<Message>, n: nat, i: nat)
    requires n < |items| && Paired(items, i, n)
    ensures var slots, p := SlotsAfter(items, n), |Openers(items, i)|;
            p < |slots| && slots[p].ToolSlot? && slots[p].result == None
  {
    SlotsAfterAreEntries(items, n);
    CallSlotIsEmpty(items, n, SlotsAfter(items, n), i);
  }

  /** A result whose call is pending goes into the call's entry, through the alias. */
  method Fill(items: seq<Message>, n: nat, entries: seq<TranscriptEntry>, pending: map<string, TranscriptEntry>,
              key: string)
    returns (pending': map<string, TranscriptEntry>)
    requires n < |items| && Slots(entries) == SlotsAfter(items, n) && PendingIs(items, n, entries, pending)
    requires Distinct(entries)
    requires items[n].kind == ToolResult && Key(items[n]) == Some(key) && key in pending
    modifies pending[key]
    ensures Slots(entries) == After(items, n, old(Slots(entries)))
    ensures pending' == pending - {key}
  {
    ghost var before, i := Slots(entries), OpenCall(items, n, key).value;
    PairedIsOpenCall(items, i, n);
    PairedSlotIsEmpty(items, n, i);
    assert pending[key] == entries[|Openers(items, i)|];
    var call := pending[key];
    call.result := Some(items[n]);
    pending' := pending - {key};
  }

  ghost predicate LoopState(items: seq<Message>, n: nat, entries: seq<TranscriptEntry>,
                            pending: map<string, TranscriptEntry>)
    requires n <= |items|
    reads entries
  {
    Distinct(entries) && Slots(entries) == SlotsAfter(items, n) && PendingIs(items, n, entries, pending)
  }

  /** The loop body for item `n`. */
  method Take(items: seq<Message>, n: nat, entries: seq<TranscriptEntry>, pending: map<string, TranscriptEntry>)
    returns (entries': seq<TranscriptEntry>, pending': map<string, TranscriptEntry>)
    requires n < |items| && LoopState(items, n, entries, pending)
    modifies entries
    ensures LoopState(items, n + 1, entries', pending')
    ensures forall p :: 0 <= p < |entries'| ==> entries'[p] in entries || fresh(entries'[p])
  {
    var message := items[n];
    var key := Key(message);
    entries', pending' := entries, pending;
    if message.kind == ToolResult && key.Some? && key.value in pending {
      PendingAfterResult(items, n, entries, pending);
      PendingInList(items, n, entries, pending, key.value);
      pending' := Fill(items, n, entries, pending, key.value);
    } else {
      var entry := new TranscriptEntry(message.kind == ToolUse || message.kind == ToolResult,
                             if message.kind == ToolUse || message.kind == ToolResult then None else Some(message),
                             if message.kind == ToolUse then Some(message) else None,
                             if message.kind == ToolResult then Some(message) else None);
      entries' := entries + [entry];
      PushIsAfter(items, n, old(Slots(entries)), pending, entries, entry.Value());
      if message.kind == ToolUse {
        SlotsAfterAreEntries(items, n);
        PendingAfterCall(items, n, entries, entry, pending);
        if key.Some? { pending' := pending[key.value := entry]; }
      } else {
        PendingStays(items, n, entries, entries', pending);
      }
    }
  }

  lemma PendingInList(items: seq<Message>, n: nat, entries: seq<TranscriptEntry>,
                      pending: map<string, TranscriptEntry>, key: string)
    requires n < |items| && PendingIs(items, n, entries, pending) && key in pending
    ensures pending[key] in entries
  {
  }

  lemma PushIsAfter(items: seq<Message>, n: nat, slots: seq<Slot>, pending: map<string, TranscriptEntry>,
                    entries: seq<TranscriptEntry>, slot: Slot)
    requires n < |items| && PendingIs(items, n, entries, pending)
    requires var m := items[n];
             match m.kind
             case ToolUse => slot == ToolSlot(Some(m), None)
             case ToolResult => slot == ToolSlot(None, Some(m)) && !(Key(m).Some? && Key(m).value in pending)
             case _ => slot == MessageSlot(m)
    ensures After(items, n, slots) == slots + [slot]
  {
  }

  /** The entries of a run: its messages sorted, joined and redacted into items, and the items
      paired. */
  ghost predicate IsRunView(sorted: seq<Message>, redact: string -> string, slots: seq<Slot>) {
    exists items, runs :: IsTranscript(sorted, items, runs, redact) && AreEntries(items, |items|, slots)
  }

  /** `buildRunTranscriptEntries`. */
  method BuildRunTranscriptEntries(messages: seq<Cell>, redact: string -> string)
    returns (entries: seq<TranscriptEntry>)
    ensures IsRunView(SeqOf(messages), redact, Slots(entries))
  {
    var items := BuildRunTranscript(messages, redact);
    entries := PairItems(items);
  }

  /** The loop over the items. */
  method PairItems(items: seq<Message>) returns (entries: seq<TranscriptEntry>)
    ensures AreEntries(items, |items|, Slots(entries))
  {
    entries := TakeAll(items);
    SlotsAfterAreEntries(items, |items|);
  }

  method TakeAll(items: seq<Message>) returns (entries: seq<TranscriptEntry>)
    ensures Slots(entries) == SlotsAfter(items, |items|)
  {
    entries := [];
    var pending: map<string, TranscriptEntry> := map[];
    for n := 0 to |items|
      invariant forall p :: 0 <= p < |entries| ==> fresh(entries[p])
      invariant LoopState(items, n, entries, pending)
    {
      entries, pending := Take(items, n, entries, pending);
    }
  }

  // ---------- Nothing is lost or used twice ----------

  function Messages(slot: Slot): multiset<Message> {
    match slot
    case MessageSlot(m) => multiset{m}
    case ToolSlot(call, result) =>
      (if call.Some? then multiset{call.value} else multiset{})
        + (if result.Some? then multiset{result.value} else multiset{})
  }

  function AllMessages(slots: seq<Slot>): multiset<Message> {
    if slots == [] then multiset{} else AllMessages(slots[..|slots| - 1]) + Messages(slots[|slots| - 1])
  }

  lemma {:induction false} FillAddsOne(slots: seq<Slot>, p: nat, m: Message, filled: seq<Slot>)
    requires p < |slots| && slots[p].ToolSlot? && slots[p].result == None
    requires filled == slots[p := slots[p].(result := Some(m))]
    ensures AllMessages(filled) == AllMessages(slots) + multiset{m}
    decreases |slots|
  {
    var last := |slots| - 1;
    if p < last {
      assert filled[..last] == slots[..last][p := slots[p].(result := Some(m))];
      FillAddsOne(slots[..last], p, m, filled[..last]);
    } else {
      assert filled[..last] == slots[..last];
      assert Messages(filled[p]) == Messages(slots[p]) + multiset{m};
    }
  }

  /** The slots are determined by the items. */
  lemma SlotsAgree(items: seq<Message>, n: nat, a: seq<Slot>, b: seq<Slot>)
    requires n <= |items| && AreEntries(items, n, a) && AreEntries(items, n, b)
    ensures a == b
  {
    forall p | 0 <= p < |a| ensures a[p] == b[p] {
      var i := Openers(items, n)[p];
      if items[i].kind == ToolUse && (a[p].result.Some? || b[p].result.Some?) {
        var j :| 0 <= j < n && Paired(items, i, j);
        assert a[p].result == Some(items[j]) == b[p].result;
      }
    }
  }

  lemma AfterAddsOne(items: seq<Message>, n: nat)
    requires n < |items|
    ensures AllMessages(SlotsAfter(items, n + 1)) == AllMessages(SlotsAfter(items, n)) + multiset{items[n]}
  {
    var m, slots, after := items[n], SlotsAfter(items, n), SlotsAfter(items, n + 1);
    if m.kind == ToolResult && Key(m).Some? && OpenCall(items, n, Key(m).value).Some? {
      var i := OpenCall(items, n, Key(m).value).value;
      PairedIsOpenCall(items, i, n);
      PairedSlotIsEmpty(items, n, i);
      FillAddsOne(slots, |Openers(items, i)|, m, after);
    } else {
      assert after[..|slots|] == slots;
    }
  }

  function Tally(items: seq<Message>, n: nat): multiset<Message>
    requires n <= |items|
  {
    if n == 0 then multiset{} else Tally(items, n - 1) + multiset{items[n - 1]}
  }

  lemma {:induction false} TallyIsMultiset(items: seq<Message>, n: nat)
    requires n <= |items|
    ensures Tally(items, n) == multiset(items[..n])
  {
    if n > 0 {
      TallyIsMultiset(items, n - 1);
      assert items[..n] == items[..n - 1] + [items[n - 1]];
    }
  }

  ghost predicate HoldsItems(items: seq<Message>, n: nat)
    requires n <= |items|
  {
    AllMessages(SlotsAfter(items, n)) == Tally(items, n)
  }

  lemma HeldNext(items: seq<Message>, n: nat)
    requires n < |items| && HoldsItems(items, n)
    ensures HoldsItems(items, n + 1)
  {
    AfterAddsOne(items, n);
  }

  lemma SlotsAfterHoldTheItems(items: seq<Message>)
    ensures HoldsItems(items, |items|)
  {
    var k := 0;
    while k < |items|
      invariant k <= |items| && HoldsItems(items, k)
    {
      HeldNext(items, k);
      k := k + 1;
    }
  }

  /** Every item fills exactly one slot of exactly one entry. */
  lemma EveryItemFillsOneSlot(items: seq<Message>, slots: seq<Slot>)
    requires AreEntries(items, |items|, slots)
    ensures AllMessages(slots) == multiset(items)
  {
    SlotsAfterAreEntries(items, |items|);
    SlotsAgree(items, |items|, slots, SlotsAfter(items, |items|));
    SlotsAfterHoldTheItems(items);
    TallyIsMultiset(items, |items|);
    assert items[..|items|] == items;
  }

  // ---------- Keys ----------

  predicate NoColon(s: string) { forall k :: 0 <= k < |s| ==> s[k] != ':' }

  /** Between tasks whose ids have no colon, equal keys mean the same task and call id. */
  lemma KeyIdentifiesTheCall(a: Message, b: Message)
    requires NoColon(a.taskId) && NoColon(b.taskId) && Key(a).Some? && Key(b).Some?
    ensures Key(a) == Key(b) <==> a.taskId == b.taskId && a.callId == b.callId
  {
    var ka, kb := Key(a).value, Key(b).value;
    assert ka[|a.taskId|] == ':' && kb[|b.taskId|] == ':';
    assert forall k :: 0 <= k < |a.taskId| ==> ka[k] == a.taskId[k];
    assert forall k :: 0 <= k < |b.taskId| ==> kb[k] == b.taskId[k];
    if ka == kb {
      assert a.taskId == ka[..|a.taskId|] && b.taskId == kb[..|b.taskId|];
      assert a.callId.value == ka[|a.taskId| + 1..] && b.callId.value == kb[|b.taskId| + 1..];
    }
  }

  /** Two tasks can share a key, for some call ids, exactly when the id of one is that of the
      other, a colon and more. */
  lemma TasksShareAKeyIff(a: string, b: string)
    requires a != b
    ensures (exists x, y :: x != "" && y != "" && a + ":" + x == b + ":" + y) <==> a + ":" <= b || b + ":" <= a
  {
    if a + ":" <= b {
      PrefixSharesAKey(a, b);
    } else if b + ":" <= a {
      PrefixSharesAKey(b, a);
    }
    if exists x, y :: x != "" && y != "" && a + ":" + x == b + ":" + y {
      var x, y :| x != "" && y != "" && a + ":" + x == b + ":" + y;
      SharedKeyIsPrefix(a, b, x, y);
    }
  }

  lemma PrefixSharesAKey(a: string, b: string)
    requires a + ":" <= b
    ensures exists x, y :: x != "" && y != "" && a + ":" + x == b + ":" + y
    ensures exists x, y :: x != "" && y != "" && b + ":" + y == a + ":" + x
  {
    var x := b[|a| + 1..] + ":" + "y";
    assert b == (a + ":") + b[|a| + 1..];
    assert a + ":" + x == b + ":" + "y";
  }

  lemma SharedKeyIsPrefix(a: string, b: string, x: string, y: string)
    requires a != b && a + ":" + x == b + ":" + y
    ensures a + ":" <= b || b + ":" <= a
  {
    var key := a + ":" + x;
    assert key[..|a|] == a && key[..|b|] == b && key[|a|] == ':' && key[|b|] == ':';
    if |a| < |b| {
      assert b[..|a| + 1] == key[..|a| + 1] == a + ":";
    } else if |b| < |a| {
      assert a[..|b| + 1] == key[..|b| + 1] == b + ":";
    }
  }

  /** Two such messages. */
  lemma ColonConfusesTasks(a: Message, b: Message)
    requires a.taskId == "t" && a.callId == Some("x:y") && b.taskId == "t:x" && b.callId == Some("y")
    ensures Key(a) == Key(b) && a.taskId != b.taskId
  {
    assert "t" + ":" + "x:y" == "t:x" + ":" + "y";
  }

  // ---------- Pairing on the messages' own fields ----------

  ghost predicate HasCallId(m: Message) { m.callId.Some? && m.callId.value != "" }

  /** The result at `j` is the first result after the call at `i` of the same task with the same
      call id, which is not empty, and no other call of that task and id comes between. */
  ghost predicate Answers(items: seq<Message>, i: nat, j: nat) {
    && i < j < |items|
    && items[i].kind == ToolUse && items[j].kind == ToolResult
    && items[i].taskId == items[j].taskId && items[i].callId == items[j].callId && HasCallId(items[j])
    && forall k :: i < k < j && (items[k].kind == ToolUse || items[k].kind == ToolResult) ==>
         items[k].taskId != items[j].taskId || items[k].callId != items[j].callId
  }

  lemma NoIdNoKey(m: Message)
    ensures Key(m).Some? <==> HasCallId(m)
  {
  }

  /** Pairing by keys is pairing by task and call id. */
  lemma PairedIffAnswers(items: seq<Message>, i: nat, j: nat)
    requires forall k :: 0 <= k < |items| ==> NoColon(items[k].taskId)
    ensures Paired(items, i, j) <==> Answers(items, i, j)
  {
    if i < j < |items| && HasCallId(items[j]) {
      forall k | i <= k < j
        ensures Key(items[k]) == Key(items[j]) <==>
                items[k].taskId == items[j].taskId && items[k].callId == items[j].callId
      {
        NoIdNoKey(items[k]);
        NoIdNoKey(items[j]);
        if HasCallId(items[k]) { KeyIdentifiesTheCall(items[k], items[j]); }
      }
    }
  }

  /** Where the entry of an item stands. */
  lemma EntryOfCall(items: seq<Message>, slots: seq<Slot>, i: nat) returns (p: nat)
    requires AreEntries(items, |items|, slots) && i < |items| && items[i].kind == ToolUse
    ensures p < |slots| && slots[p].ToolSlot? && slots[p].call == Some(items[i])
    ensures forall j :: 0 <= j < |items| && Paired(items, i, j) ==> slots[p].result == Some(items[j])
    ensures slots[p].result.Some? ==> exists j :: 0 <= j < |items| && Paired(items, i, j)
  {
    CallOpens(items, i);
    OpenerPlace(items, |items|, i);
    p := |Openers(items, i)|;
    assert IsSlotOf(items, |items|, Openers(items, |items|)[p], slots[p]);
  }

  /** Each call has an entry; it holds a result exactly when some result answers the call, and
      then that one. */
  lemma CallHoldsItsAnswer(items: seq<Message>, slots: seq<Slot>, i: nat) returns (p: nat)
    requires forall k :: 0 <= k < |items| ==> NoColon(items[k].taskId)
    requires AreEntries(items, |items|, slots) && i < |items| && items[i].kind == ToolUse
    ensures p < |slots| && slots[p].ToolSlot? && slots[p].call == Some(items[i])
    ensures forall j :: 0 <= j < |items| && Answers(items, i, j) ==> slots[p].result == Some(items[j])
    ensures slots[p].result.Some? ==> exists j :: 0 <= j < |items| && Answers(items, i, j)
  {
    p := EntryOfCall(items, slots, i);
    forall j: nat ensures Paired(items, i, j) <==> Answers(items, i, j) { PairedIffAnswers(items, i, j); }
  }

  /** A result that answers no call, as any without a call id, has an entry of its own, and so
      has every other item that is not a call. */
  lemma OthersStandAlone(items: seq<Message>, slots: seq<Slot>, j: nat) returns (p: nat)
    requires forall k :: 0 <= k < |items| ==> NoColon(items[k].taskId)
    requires AreEntries(items, |items|, slots) && j < |items| && items[j].kind != ToolUse
    requires items[j].kind == ToolResult ==> forall i: nat :: !Answers(items, i, j)
    ensures p < |slots|
    ensures slots[p] == if items[j].kind == ToolResult then ToolSlot(None, Some(items[j])) else MessageSlot(items[j])
  {
    forall i ensures !Paired(items, i, j) {
      if Paired(items, i, j) { PairedIffAnswers(items, i, j); }
    }
    OpenerPlace(items, |items|, j);
    p := |Openers(items, j)|;
    assert IsSlotOf(items, |items|, Openers(items, |items|)[p], slots[p]);
  }

  lemma NoIdNeverAnswers(items: seq<Message>, i: nat, j: nat)
    requires Answers(items, i, j)
    ensures items[j].callId != None && items[j].callId != Some("") && items[i].callId == items[j].callId
  {
  }

  ghost predicate OpenedBy(slot: Slot, m: Message) {
    match m.kind
    case ToolUse => slot.ToolSlot? && slot.call == Some(m)
    case ToolResult => slot == ToolSlot(None, Some(m))
    case _ => slot == MessageSlot(m)
  }

  /** The entries stand in the order of the items that open them: all but the answers. */
  lemma EntriesFollowTheItems(items: seq<Message>, slots: seq<Slot>) returns (at: seq<int>)
    requires forall k :: 0 <= k < |items| ==> NoColon(items[k].taskId)
    requires AreEntries(items, |items|, slots)
    ensures |at| == |slots| && forall p :: 0 <= p < |at| ==> 0 <= at[p] < |items| && OpenedBy(slots[p], items[at[p]])
    ensures forall p, q :: 0 <= p < q < |at| ==> at[p] < at[q]
    ensures forall j: nat :: j < |items| ==> (j in at <==> forall i: nat :: !Answers(items, i, j))
  {
    at := Openers(items, |items|);
    forall p | 0 <= p < |at| ensures 0 <= at[p] < |items| && OpenedBy(slots[p], items[at[p]]) {
      assert IsSlotOf(items, |items|, at[p], slots[p]);
    }
    forall p, q | 0 <= p < q < |at| ensures at[p] < at[q] { OpenersIncrease(items, |items|, p, q); }
    forall j: nat | j < |items| ensures j in at <==> forall i: nat :: !Answers(items, i, j) {
      OpenersMembers(items, |items|, j);
      forall i: nat ensures Paired(items, i, j) <==> Answers(items, i, j) { PairedIffAnswers(items, i, j); }
      if !Opens(items, j) {
        var i :| Paired(items, i, j);
      }
    }
  }
}
