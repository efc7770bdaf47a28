/**
 * The transcript of an agent run: messages sorted, streamed text joined and redacted, and
 * tool results put into the entry of the call they answer.
 */
module RunTranscript {

  import opened Runs
  import opened Sequences
  import opened StableSort
  import opened Wrappers

  datatype MessageKind = Text | Thinking | ToolUse | ToolResult | Error

  datatype Message = Message(
    kind: MessageKind, taskId: string, seqNo: int, callId: Option<string>,
    content: Option<string>, output: Option<string>, createdAt: Option<string>, tool: Option<string>)

  predicate Joins(a: Message, b: Message) {
    (b.kind == Text || b.kind == Thinking) && a.kind == b.kind
  }

  // ---------- buildRunTranscript ----------

  function Contents(run: seq<Message>): string {
    if run == [] then "" else Contents(run[..|run| - 1]) + OrEmpty(run[|run| - 1].content)
  }

  function LatestTime(run: seq<Message>): Option<string> {
    if run == [] then None
    else if run[|run| - 1].createdAt.Some? then run[|run| - 1].createdAt
    else LatestTime(run[..|run| - 1])
  }

  /** The item a run of streamed fragments becomes, before redaction. */
  function Joined(run: seq<Message>): Message
    requires run != []
  {
    if |run| == 1 then run[0] else run[0].(content := Some(Contents(run)), createdAt := LatestTime(run))
  }

  function RedactField(field: Option<string>, redact: string -> string): Option<string> {
    if field.Some? && field.value != "" then Some(redact(field.value)) else field
  }

  function Redacted(m: Message, redact: string -> string): Message {
    m.(content := RedactField(m.content, redact), output := RedactField(m.output, redact))
  }

  ghost predicate JoinsRuns(messages: seq<Message>, items: seq<Message>, runs: seq<seq<Message>>) {
    && AreRuns(messages, runs, Joins)
    && |items| == |runs|
    && forall i :: 0 <= i < |runs| ==> items[i] == Joined(runs[i])
  }

  /** One item for each maximal run of the sorted messages, joined, then redacted as a whole. */
  ghost predicate IsTranscript(sorted: seq<Message>, items: seq<Message>, runs: seq<seq<Message>>,
                               redact: string -> string) {
    && AreRuns(sorted, runs, Joins)
    && |items| == |runs|
    && forall i :: 0 <= i < |runs| ==> items[i] == Redacted(Joined(runs[i]), redact)
  }

  /** A message object of the page's cache, or an item copied from one. */
  class Cell {
    var message: Message

    constructor (m: Message)
      ensures message == m
    {
      message := m;
    }
  }

  ghost function Values(cells: seq<Cell>): (r: seq<Message>)
    reads cells
    ensures |r| == |cells| && forall i :: 0 <= i < |cells| ==> r[i] == cells[i].message
  {
    seq(|cells|, i requires 0 <= i < |cells| reads cells => cells[i].message)
  }

  function SeqNo(m: Message): int { m.seqNo }

  ghost function SeqOf(cells: seq<Cell>): seq<Message>
    reads cells
  {
    Sort(Values(cells), SeqNo)
  }

  /** `buildRunTranscript`.  There is no `modifies`: the messages handed in are not mutated,
      though the items are. */
  method BuildRunTranscript(messages: seq<Cell>, redact: string -> string) returns (items: seq<Message>)
    ensures exists runs :: IsTranscript(SeqOf(messages), items, runs, redact)
  {
    var sorted := SortBySeq(messages);
    var cells: seq<Cell>;
    ghost var runs;
    cells, runs := JoinFragments(sorted);
    items := [];
    for i := 0 to |cells|
      invariant |items| == i && forall k :: 0 <= k < i ==> items[k] == Redacted(Joined(runs[k]), redact)
    {
      items := items + [Redacted(cells[i].message, redact)];
    }
    assert IsTranscript(SeqOf(messages), items, runs, redact);
  }

  /** `[...messages].sort((a, b) => a.seq - b.seq)`: the list is new, the objects are the
      messages' own. */
  method SortBySeq(messages: seq<Cell>) returns (sorted: seq<Cell>)
    ensures Values(sorted) == SeqOf(messages) && multiset(sorted) == multiset(messages)
  {
    sorted := [];
    for i := 0 to |messages|
      invariant Values(sorted) == SeqOf(messages[..i]) && multiset(sorted) == multiset(messages[..i])
    {
      assert messages[..i + 1] == messages[..i] + [messages[i]];
      assert Values(messages[..i + 1])[..i] == Values(messages[..i]);
      sorted := InsertBySeq(sorted, messages[i]);
    }
    assert messages[..|messages|] == messages;
  }

  lemma InsertedValues(cells: seq<Cell>, cell: Cell, p: nat)
    requires p <= |cells| && (p > 0 ==> cells[p - 1].message.seqNo <= cell.message.seqNo)
    requires forall k :: p <= k < |cells| ==> cells[k].message.seqNo > cell.message.seqNo
    ensures Values(cells[..p] + [cell] + cells[p..]) == Insert(Values(cells), SeqNo, cell.message)
    ensures multiset(cells[..p] + [cell] + cells[p..]) == multiset(cells) + multiset{cell}
  {
    InsertAt(Values(cells), SeqNo, cell.message, p);
    ValuesAround(cells, cell, p);
    assert cells == cells[..p] + cells[p..];
  }

  lemma ValuesAround(cells: seq<Cell>, cell: Cell, p: nat)
    requires p <= |cells|
    ensures Values(cells[..p] + [cell] + cells[p..]) == Values(cells)[..p] + [cell.message] + Values(cells)[p..]
  {
  }

  method InsertBySeq(cells: seq<Cell>, cell: Cell) returns (cells': seq<Cell>)
    ensures Values(cells') == Insert(Values(cells), SeqNo, cell.message)
    ensures multiset(cells') == multiset(cells) + multiset{cell}
  {
    var p := |cells|;
    while p > 0 && cells[p - 1].message.seqNo > cell.message.seqNo
      invariant 0 <= p <= |cells| && forall k :: p <= k < |cells| ==> cells[k].message.seqNo > cell.message.seqNo
    {
      p := p - 1;
    }
    cells' := cells[..p] + [cell] + cells[p..];
    InsertedValues(cells, cell, p);
  }

  /** An item with one more fragment. */
  function Extended(previous: Message, message: Message): Message {
    previous.(content := Some(OrEmpty(previous.content) + OrEmpty(message.content)),
              createdAt := if message.createdAt.Some? then message.createdAt else previous.createdAt)
  }

  function Absorbed(items: seq<Message>, message: Message): seq<Message> {
    if items != [] && Joins(items[|items| - 1], message)
    then items[|items| - 1 := Extended(items[|items| - 1], message)]
    else items + [message]
  }

  method JoinFragments(messages: seq<Cell>) returns (items: seq<Cell>, ghost runs: seq<seq<Message>>)
    ensures JoinsRuns(Values(messages), Values(items), runs)
    ensures forall k :: 0 <= k < |items| ==> fresh(items[k])
  {
    ghost var values := Values(messages);
    items := AbsorbAll(messages, values);
    runs := RunsAfter(values, |values|);
    assert values[..|values|] == values;
  }

  /** The item objects are new and hold the items after `n` rounds. */
  ghost predicate CellsHold(messages: seq<Message>, n: nat, items: seq<Cell>)
    requires n <= |messages|
    reads items
  {
    && Values(items) == ItemsAfter(messages, n)
    && Distinct(items)
  }

  /** The loop's state: the messages are as they were, and the items are what the first `n`
      of them make. */
  ghost predicate Absorbing(messages: seq<Cell>, values: seq<Message>, n: nat, items: seq<Cell>)
    reads messages, items
  {
    n <= |messages| && values == Values(messages) && CellsHold(values, n, items)
  }

  method AbsorbAll(messages: seq<Cell>, ghost values: seq<Message>) returns (items: seq<Cell>)
    requires values == Values(messages)
    ensures Values(items) == ItemsAfter(values, |values|)
    ensures forall k :: 0 <= k < |items| ==> fresh(items[k])
  {
    items := [];
    for i := 0 to |messages|
      invariant forall k :: 0 <= k < |items| ==> fresh(items[k])
      invariant Absorbing(messages, values, i, items)
    {
      items := Absorb(messages, values, i, items);
    }
  }

  /** The items after `n` rounds of the loop. */
  function ItemsAfter(messages: seq<Message>, n: nat): seq<Message>
    requires n <= |messages|
  {
    if n == 0 then [] else Absorbed(ItemsAfter(messages, n - 1), messages[n - 1])
  }

  lemma {:induction false} RunsAfter(messages: seq<Message>, n: nat) returns (runs: seq<seq<Message>>)
    requires n <= |messages|
    ensures JoinsRuns(messages[..n], ItemsAfter(messages, n), runs)
  {
    if n == 0 {
      runs := [];
    } else {
      runs := RunsAfter(messages, n - 1);
      runs := AbsorbedRuns(messages, n - 1, ItemsAfter(messages, n - 1), runs);
    }
  }

  /** The loop body: the last item is extended in place, or a copy of the message becomes an
      item.  Without the copy the next fragment would be written into the caller's message. */
  method Absorb(messages: seq<Cell>, ghost values: seq<Message>, i: nat, items: seq<Cell>) returns (items': seq<Cell>)
    requires i < |messages| && Absorbing(messages, values, i, items)
    requires forall k :: 0 <= k < |items| ==> items[k] !in messages
    modifies items
    ensures Absorbing(messages, values, i + 1, items')
    ensures forall k :: 0 <= k < |items'| ==> items'[k] in items || fresh(items'[k])
  {
    var message := messages[i];
    if items != [] && Joins(items[|items| - 1].message, message.message) {
      Extend(items, message);
      items' := items;
    } else {
      var item := new Cell(message.message);
      items' := items + [item];
      assert Values(items') == old(Values(items)) + [values[i]];
    }
    assert Values(items') == Absorbed(old(Values(items)), values[i]);
  }

  /** The last item takes in one more fragment. */
  method Extend(items: seq<Cell>, message: Cell)
    requires items != [] && message !in items
    requires Distinct(items)
    modifies items[|items| - 1]
    ensures Values(items) ==
            old(Values(items))[|items| - 1 := Extended(old(items[|items| - 1].message), message.message)]
  {
    var previous := items[|items| - 1];
    previous.message := previous.message.(
      content := Some(OrEmpty(previous.message.content) + OrEmpty(message.message.content)),
      createdAt := if message.message.createdAt.Some? then message.message.createdAt else previous.message.createdAt);
  }

  lemma AbsorbedRuns(all: seq<Message>, i: nat, items: seq<Message>, runs: seq<seq<Message>>)
    returns (runs': seq<seq<Message>>)
    requires i < |all| && JoinsRuns(all[..i], items, runs)
    ensures JoinsRuns(all[..i + 1], Absorbed(items, all[i]), runs')
  {
    var messages, message := all[..i], all[i];
    assert all[..i + 1] == messages + [message];
    if items != [] && Joins(items[|items| - 1], message) {
      FragmentJoins(messages, items, runs, message);
      runs' := runs[|runs| - 1 := runs[|runs| - 1] + [message]];
    } else {
      FragmentStarts(messages, items, runs, message);
      runs' := runs + [[message]];
    }
  }

  lemma FragmentStarts(messages: seq<Message>, items: seq<Message>, runs: seq<seq<Message>>, message: Message)
    requires JoinsRuns(messages, items, runs) && (items != [] ==> !Joins(items[|items| - 1], message))
    ensures JoinsRuns(messages + [message], items + [message], runs + [[message]])
  {
    if runs != [] { RunIsOneKind(runs[|runs| - 1], |runs[|runs| - 1]| - 1); }
    RunStarts(messages, runs, Joins, message);
  }

  /** Extending the last item in place gives the item of the extended run. */
  lemma FragmentJoins(messages: seq<Message>, items: seq<Message>, runs: seq<seq<Message>>, message: Message)
    requires JoinsRuns(messages, items, runs) && items != [] && Joins(items[|items| - 1], message)
    ensures JoinsRuns(messages + [message], items[|items| - 1 := Extended(items[|items| - 1], message)],
                      runs[|runs| - 1 := runs[|runs| - 1] + [message]])
  {
    var run := runs[|runs| - 1];
    RunIsOneKind(run, |run| - 1);
    RunGrows(messages, runs, Joins, message);
    assert (run + [message])[..|run|] == run;
    if |run| == 1 {
      assert run[..0] == [] && Contents([]) == "" && LatestTime([]) == None;
      assert Contents(run) == OrEmpty(run[0].content);
      assert LatestTime(run) == run[0].createdAt;
    }
    assert (run + [message])[0] == run[0];
    assert Contents(run + [message]) == Contents(run) + OrEmpty(message.content);
  }

  lemma {:induction false} RunIsOneKind(run: seq<Message>, k: nat)
    requires IsRun(run, Joins) && k < |run|
    ensures run[k].kind == run[0].kind
  {
    if k > 0 {
      RunIsOneKind(run, k - 1);
      assert Joins(run[k - 1], run[k - 1 + 1]);
    }
  }

  // ---------- Items on the messages' own fields ----------

  /** The messages with one sequence number, in order. */
  function WithSeqNo(s: seq<Message>, n: int): seq<Message> {
    if s == [] then []
    else if s[|s| - 1].seqNo == n then WithSeqNo(s[..|s| - 1], n) + [s[|s| - 1]]
    else WithSeqNo(s[..|s| - 1], n)
  }

  lemma {:induction false} SelectedBySeqNo(s: seq<Message>, n: int)
    ensures WithSeqNo(s, n) == Select(s, HasRank(SeqNo, n))
  {
    if s != [] {
      SelectedBySeqNo(s[..|s| - 1], n);
      assert HasRank(SeqNo, n)(s[|s| - 1]) <==> SeqNo(s[|s| - 1]) == n;
    }
  }

  /** The messages are taken by ascending sequence number, equal ones in the order given. */
  lemma TakenBySeqNo(cells: seq<Cell>, n: int)
    ensures var sorted := SeqOf(cells);
            && (forall i, j :: 0 <= i < j < |sorted| ==> sorted[i].seqNo <= sorted[j].seqNo)
            && multiset(sorted) == multiset(Values(cells))
            && WithSeqNo(sorted, n) == WithSeqNo(Values(cells), n)
  {
    SortIsStable(Values(cells), SeqNo, n);
    SelectedBySeqNo(SeqOf(cells), n);
    SelectedBySeqNo(Values(cells), n);
    var sorted := SeqOf(cells);
    forall i, j | 0 <= i < j < |sorted| ensures sorted[i].seqNo <= sorted[j].seqNo {
      assert SeqNo(sorted[i]) <= SeqNo(sorted[j]);
    }
  }

  /** Neighbours become one item exactly when both are text or both are thinking. */
  lemma NeighboursJoinIff(sorted: seq<Message>, items: seq<Message>, runs: seq<seq<Message>>,
                          redact: string -> string, p: nat)
    requires IsTranscript(sorted, items, runs, redact) && p + 1 < |sorted|
    ensures Together(runs, p) <==>
            || (sorted[p].kind == Text && sorted[p + 1].kind == Text)
            || (sorted[p].kind == Thinking && sorted[p + 1].kind == Thinking)
  {
    TogetherIff(sorted, runs, Joins, p);
  }

  /** `text` is the contents of the run in order, a missing one counting as empty. */
  ghost predicate IsTextOf(text: string, run: seq<Message>)
    decreases |run|
  {
    if run == [] then text == ""
    else exists before, last ::
      && text == before + last && IsTextOf(before, run[..|run| - 1])
      && (run[|run| - 1].content == Some(last) || (run[|run| - 1].content == None && last == ""))
  }

  lemma {:induction false} ContentsIsText(run: seq<Message>)
    ensures IsTextOf(Contents(run), run)
  {
    if run != [] {
      ContentsIsText(run[..|run| - 1]);
      assert Contents(run) == Contents(run[..|run| - 1]) + OrEmpty(run[|run| - 1].content);
    }
  }

  ghost predicate NoTimes(run: seq<Message>, from: nat) {
    forall j :: from <= j < |run| ==> run[j].createdAt == None
  }

  /** `time` is the latest time any message of the run has. */
  ghost predicate IsTimeOf(time: Option<string>, run: seq<Message>) {
    if time == None then NoTimes(run, 0)
    else exists k :: 0 <= k < |run| && IsLastTime(time, run, k)
  }

  ghost predicate IsLastTime(time: Option<string>, run: seq<Message>, k: nat)
    requires k < |run|
  {
    run[k].createdAt == time && NoTimes(run, k + 1)
  }

  lemma {:induction false} LatestIsTime(run: seq<Message>)
    ensures IsTimeOf(LatestTime(run), run)
  {
    if run != [] {
      var front := run[..|run| - 1];
      LatestIsTime(front);
      if run[|run| - 1].createdAt.Some? {
        assert IsLastTime(LatestTime(run), run, |run| - 1);
      } else if LatestTime(front).Some? {
        var k :| 0 <= k < |front| && IsLastTime(LatestTime(front), front, k);
        LaterWithoutTime(run, k + 1);
        assert IsLastTime(LatestTime(run), run, k);
      } else {
        LaterWithoutTime(run, 0);
      }
    }
  }

  lemma LaterWithoutTime(run: seq<Message>, from: nat)
    requires run != [] && NoTimes(run[..|run| - 1], from) && run[|run| - 1].createdAt == None
    ensures NoTimes(run, from)
  {
    assert forall j :: 0 <= j < |run| - 1 ==> run[..|run| - 1][j] == run[j];
  }

  /** What secrets are taken out of: the field if it is there and not empty. */
  ghost predicate IsRedacted(shown: Option<string>, field: Option<string>, redact: string -> string) {
    shown == if field == None || field == Some("") then field else Some(redact(field.value))
  }

  /** An item has its first message's kind, task, number, call and tool, the latest time of its
      run, the redacted output, and the redacted text: of its one message, or of the whole run. */
  lemma ItemIs(sorted: seq<Message>, items: seq<Message>, runs: seq<seq<Message>>, redact: string -> string, i: nat)
    requires IsTranscript(sorted, items, runs, redact) && i < |items|
    ensures var item, run := items[i], runs[i];
            && run != []
            && item.kind == run[0].kind && item.taskId == run[0].taskId && item.seqNo == run[0].seqNo
            && item.callId == run[0].callId && item.tool == run[0].tool
            && IsTimeOf(item.createdAt, run)
            && IsRedacted(item.output, run[0].output, redact)
            && (|run| == 1 ==> IsRedacted(item.content, run[0].content, redact))
            && (|run| > 1 ==> exists text :: IsTextOf(text, run) && IsRedacted(item.content, Some(text), redact))
  {
    var run := runs[i];
    assert IsRun(run, Joins);
    LatestIsTime(run);
    ContentsIsText(run);
    if |run| == 1 {
      assert run[..0] == [] && LatestTime(run) == run[0].createdAt;
    }
  }
}
