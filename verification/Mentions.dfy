/**
 * Mentions in the mobile composer: an invisible sentinel marks every `@` the suggestion bar
 * inserted, and sending turns each marked run back into a link.
 */
module Mentions {

  import opened Characters
  import opened Numbers
  import opened Wrappers

  const SENTINEL: char := '\U{2063}'

  datatype MentionType = Member | Agent | Squad | Everyone | Issue

  datatype Marker = Marker(kind: MentionType, id: string, name: string)

  predicate NoSpace(s: string) { forall i :: 0 <= i < |s| ==> !IsSpace(s[i]) }

  predicate NoSentinel(s: string) { forall i :: 0 <= i < |s| ==> s[i] != SENTINEL }

  /** The text with every sentinel deleted. */
  function Strip(s: string): string {
    if s == [] then [] else if s[0] == SENTINEL then Strip(s[1..]) else [s[0]] + Strip(s[1..])
  }

  lemma {:induction false} StripConcat(a: string, b: string)
    ensures Strip(a + b) == Strip(a) + Strip(b)
  {
    if a == [] {
      assert a + b == b;
    } else {
      assert (a + b)[1..] == a[1..] + b;
      StripConcat(a[1..], b);
    }
  }

  lemma {:induction false} StripClean(s: string)
    ensures NoSentinel(Strip(s)) && (NoSentinel(s) ==> Strip(s) == s)
  {
    if s != [] { StripClean(s[1..]); }
  }

  // ---------- What serializing means ----------

  /** A piece of the sent text: a character of the user's, or the link of a marker. */
  datatype Segment = Plain(c: char) | Link(marker: Marker)

  function KindName(kind: MentionType): string {
    match kind
    case Member => "member" case Agent => "agent" case Squad => "squad" case Everyone => "all" case Issue => "issue"
  }

  function LinkText(m: Marker): string {
    "[" + (if m.kind == Issue then m.name else "@" + m.name) + "](mention://" + KindName(m.kind) + "/" + m.id + ")"
  }

  function Render(segments: seq<Segment>): string {
    if segments == [] then []
    else (match segments[0] case Plain(c) => [c] case Link(m) => LinkText(m)) + Render(segments[1..])
  }

  /** The segments with each link read back as `@name`. */
  function ReadBack(segments: seq<Segment>): string {
    if segments == [] then []
    else (match segments[0] case Plain(c) => [c] case Link(m) => "@" + m.name) + ReadBack(segments[1..])
  }

  function Links(segments: seq<Segment>): seq<Marker> {
    if segments == [] then []
    else (match segments[0] case Plain(_) => [] case Link(m) => [m]) + Links(segments[1..])
  }

  /** The characters up to the first whitespace. */
  function Word(text: string): string {
    if text == [] || IsSpace(text[0]) then [] else [text[0]] + Word(text[1..])
  }

  lemma {:induction false} WordIsPrefix(text: string)
    ensures |Word(text)| <= |text| && Word(text) == text[..|Word(text)|] && NoSpace(Word(text))
    ensures |Word(text)| < |text| ==> IsSpace(text[|Word(text)|])
  {
    if text != [] && !IsSpace(text[0]) { WordIsPrefix(text[1..]); }
  }

  /** Pairs marked runs with markers, in order; None when a run does not match its marker or
      markers are left over. */
  function Walk(text: string, markers: seq<Marker>): Option<seq<Segment>>
    decreases |text|
  {
    if text == [] then (if markers == [] then Some([]) else None)
    else if text[0] != SENTINEL then Cons(Plain(text[0]), Walk(text[1..], markers))
    else if |text| == 1 || text[1] != '@' then Walk(text[1..], markers)
    else
      WordIsPrefix(text[2..]);
      var word := Word(text[2..]);
      if markers == [] || markers[0].name != word then None
      else Cons(Link(markers[0]), Walk(text[2 + |word|..], markers[1..]))
  }

  function Cons(s: Segment, rest: Option<seq<Segment>>): Option<seq<Segment>> {
    if rest.None? then None else Some([s] + rest.value)
  }

  function Serialized(text: string, markers: seq<Marker>): string {
    if NoSentinel(text) then text
    else match Walk(text, markers) case Some(segments) => Render(segments) case None => Strip(text)
  }

  // ---------- serializeMentions ----------

  /** `text.indexOf(SENTINEL, from)`, with the length of the text for "not found". */
  method IndexOfSentinel(text: string, from: nat) returns (k: nat)
    requires from <= |text|
    ensures from <= k <= |text| && NoSentinel(text[from..k])
    ensures k < |text| ==> text[k] == SENTINEL
  {
    k := from;
    while k < |text| && text[k] != SENTINEL
      invariant from <= k <= |text| && NoSentinel(text[from..k])
    {
      assert text[from..k + 1] == text[from..k] + [text[k]];
      k := k + 1;
    }
  }

  /** The word from `from` reaches at least to `k`. */
  ghost predicate WordReaches(text: string, from: nat, k: nat) {
    from <= k <= |text| && text[from..k] + Word(text[k..]) == Word(text[from..])
  }

  lemma WordGoesOn(text: string, from: nat, k: nat)
    requires WordReaches(text, from, k) && k < |text| && !IsSpace(text[k])
    ensures WordReaches(text, from, k + 1)
  {
    assert text[k..][1..] == text[k + 1..];
    assert text[from..k + 1] == text[from..k] + [text[k]];
    assert text[from..k] + ([text[k]] + Word(text[k + 1..])) == (text[from..k] + [text[k]]) + Word(text[k + 1..]);
  }

  method WordEnd(text: string, from: nat) returns (k: nat)
    requires from <= |text|
    ensures from <= k <= |text| && text[from..k] == Word(text[from..])
  {
    k := from;
    assert text[from..from] + Word(text[from..]) == Word(text[from..]);
    while k < |text| && !IsSpace(text[k])
      invariant WordReaches(text, from, k)
    {
      WordGoesOn(text, from, k);
      k := k + 1;
    }
    assert Word(text[k..]) == "" && text[from..k] + "" == text[from..k];
  }

  function Plains(s: string): (r: seq<Segment>)
    ensures |r| == |s|
  {
    seq(|s|, i requires 0 <= i < |s| => Plain(s[i]))
  }

  function Join(done: seq<Segment>, rest: Option<seq<Segment>>): Option<seq<Segment>> {
    if rest.None? then None else Some(done + rest.value)
  }

  lemma JoinLaws(a: seq<Segment>, b: seq<Segment>, rest: Option<seq<Segment>>)
    ensures Join([], rest) == rest
    ensures Join(a, Join(b, rest)) == Join(a + b, rest)
  {
    if rest.Some? {
      assert [] + rest.value == rest.value;
      assert a + (b + rest.value) == (a + b) + rest.value;
    }
  }

  lemma {:induction false} RenderConcat(a: seq<Segment>, b: seq<Segment>)
    ensures Render(a + b) == Render(a) + Render(b)
  {
    if a == [] {
      assert a + b == b;
    } else {
      assert (a + b)[1..] == a[1..] + b;
      RenderConcat(a[1..], b);
    }
  }

  /** Text without sentinels is copied. */
  lemma {:induction false} WalkPlain(text: string, rest: string, markers: seq<Marker>)
    requires NoSentinel(text)
    ensures Walk(text + rest, markers) == Join(Plains(text), Walk(rest, markers))
    ensures Render(Plains(text)) == text
  {
    if text == [] {
      assert text + rest == rest;
      JoinLaws([], [], Walk(rest, markers));
    } else {
      assert (text + rest)[1..] == text[1..] + rest;
      assert Plains(text) == [Plain(text[0])] + Plains(text[1..]);
      WalkPlain(text[1..], rest, markers);
      JoinLaws([Plain(text[0])], Plains(text[1..]), Walk(rest, markers));
    }
  }

  /** The walk has turned the first `cursor` characters and `used` markers into `done`. */
  ghost predicate Walked(text: string, markers: seq<Marker>, cursor: nat, used: nat, done: seq<Segment>) {
    && cursor <= |text| && used <= |markers|
    && Walk(text, markers) == Join(done, Walk(text[cursor..], markers[used..]))
  }

  lemma WalkedPlain(text: string, markers: seq<Marker>, cursor: nat, used: nat, done: seq<Segment>, to: nat)
    requires Walked(text, markers, cursor, used, done) && cursor <= to <= |text| && NoSentinel(text[cursor..to])
    ensures Walked(text, markers, to, used, done + Plains(text[cursor..to]))
    ensures Render(done + Plains(text[cursor..to])) == Render(done) + text[cursor..to]
  {
    assert text[cursor..] == text[cursor..to] + text[to..];
    WalkPlain(text[cursor..to], text[to..], markers[used..]);
    RenderConcat(done, Plains(text[cursor..to]));
    JoinLaws(done, Plains(text[cursor..to]), Walk(text[to..], markers[used..]));
  }

  lemma WalkedStray(text: string, markers: seq<Marker>, cursor: nat, used: nat, done: seq<Segment>)
    requires Walked(text, markers, cursor, used, done) && cursor < |text| && text[cursor] == SENTINEL
    requires cursor + 1 == |text| || text[cursor + 1] != '@'
    ensures Walked(text, markers, cursor + 1, used, done)
  {
    assert text[cursor..][1..] == text[cursor + 1..];
  }

  lemma RenderPush(done: seq<Segment>, m: Marker)
    ensures Render(done + [Link(m)]) == Render(done) + LinkText(m)
  {
    RenderConcat(done, [Link(m)]);
    assert [Link(m)][1..] == [] && LinkText(m) + "" == LinkText(m);
  }

  lemma WalkedRun(text: string, markers: seq<Marker>, cursor: nat, used: nat, done: seq<Segment>, end: nat)
    requires Walked(text, markers, cursor, used, done)
    requires cursor + 1 < |text| && text[cursor] == SENTINEL && text[cursor + 1] == '@'
    requires cursor + 2 <= end <= |text| && text[cursor + 2..end] == Word(text[cursor + 2..])
    ensures if used == |markers| || markers[used].name != text[cursor + 2..end] then Walk(text, markers) == None
            else && Walked(text, markers, end, used + 1, done + [Link(markers[used])])
                 && Render(done + [Link(markers[used])]) == Render(done) + LinkText(markers[used])
  {
    assert text[cursor..][2..] == text[cursor + 2..];
    if used < |markers| && markers[used].name == text[cursor + 2..end] {
      assert text[cursor..][2 + |text[cursor + 2..end]|..] == text[end..];
      assert markers[used..][1..] == markers[used + 1..];
      RenderPush(done, markers[used]);
      JoinLaws(done, [Link(markers[used])], Walk(text[end..], markers[used + 1..]));
    }
  }

  /** What was sent so far is what the walk has done so far. */
  ghost predicate Written(text: string, markers: seq<Marker>, cursor: nat, used: nat, out: string, done: seq<Segment>) {
    Walked(text, markers, cursor, used, done) && out == Render(done)
  }

  /** The loop body: copies up to the next sentinel and deals with that one. */
  method Advance(text: string, markers: seq<Marker>, cursor: nat, used: nat, out: string, ghost done: seq<Segment>)
    returns (cursor': nat, used': nat, out': string, abort: bool, ghost done': seq<Segment>)
    requires cursor < |text| && Written(text, markers, cursor, used, out, done)
    ensures cursor < cursor' <= |text|
    ensures if abort then Walk(text, markers) == None else Written(text, markers, cursor', used', out', done')
  {
    var sentinelAt := IndexOfSentinel(text, cursor);
    WalkedPlain(text, markers, cursor, used, done, sentinelAt);
    out', done' := out + text[cursor..sentinelAt], done + Plains(text[cursor..sentinelAt]);
    if sentinelAt == |text| {
      cursor', used', abort := |text|, used, false;
    } else {
      cursor', used', out', abort, done' := TakeSentinel(text, markers, sentinelAt, used, out', done');
    }
  }

  method TakeSentinel(text: string, markers: seq<Marker>, sentinelAt: nat, used: nat, out: string,
                      ghost done: seq<Segment>)
    returns (cursor': nat, used': nat, out': string, abort: bool, ghost done': seq<Segment>)
    requires sentinelAt < |text| && text[sentinelAt] == SENTINEL && Written(text, markers, sentinelAt, used, out, done)
    ensures sentinelAt < cursor' <= |text|
    ensures if abort then Walk(text, markers) == None else Written(text, markers, cursor', used', out', done')
  {
    cursor', used', out', abort, done' := sentinelAt + 1, used, out, false, done;
    if sentinelAt + 1 == |text| || text[sentinelAt + 1] != '@' {
      WalkedStray(text, markers, sentinelAt, used, done);
      return;
    }
    var wordEnd := WordEnd(text, sentinelAt + 2);
    WalkedRun(text, markers, sentinelAt, used, done, wordEnd);
    if used == |markers| || markers[used].name != text[sentinelAt + 2..wordEnd] {
      abort := true;
      return;
    }
    out', done' := out + LinkText(markers[used]), done + [Link(markers[used])];
    used', cursor' := used + 1, wordEnd;
  }

  lemma NothingWritten(text: string, markers: seq<Marker>)
    ensures Written(text, markers, 0, 0, "", [])
  {
    assert text[0..] == text && markers[0..] == markers;
    JoinLaws([], [], Walk(text, markers));
  }

  lemma AllWritten(text: string, markers: seq<Marker>, used: nat, out: string, done: seq<Segment>)
    requires Written(text, markers, |text|, used, out, done)
    ensures Walk(text, markers) == if used == |markers| then Some(done) else None
  {
    assert text[|text|..] == [] && done + [] == done;
    assert markers[used..] == [] <==> used == |markers|;
  }

  method SerializeMentions(text: string, markers: seq<Marker>) returns (r: string)
    ensures r == Serialized(text, markers)
  {
    var first := IndexOfSentinel(text, 0);
    if first == |text| {
      assert text[0..|text|] == text;
      return text;
    }
    assert text[first] == SENTINEL;
    var out, cursor, markerIndex, abort := "", 0, 0, false;
    ghost var done: seq<Segment> := [];
    NothingWritten(text, markers);
    while cursor < |text| && !abort
      invariant cursor <= |text|
      invariant if abort then Walk(text, markers) == None else Written(text, markers, cursor, markerIndex, out, done)
      decreases |text| - cursor
    {
      cursor, markerIndex, out, abort, done := Advance(text, markers, cursor, markerIndex, out, done);
    }
    if !abort { AllWritten(text, markers, markerIndex, out, done); }
    if abort || markerIndex != |markers| {
      r := StripSentinels(text);
    } else {
      r := out;
    }
  }

  /** `text.replace(new RegExp(SENTINEL, "g"), "")`. */
  method StripSentinels(text: string) returns (r: string)
    ensures r == Strip(text)
  {
    r := "";
    assert text[0..] == text;
    for i := 0 to |text|
      invariant r + Strip(text[i..]) == Strip(text)
    {
      assert text[i..][1..] == text[i + 1..];
      if text[i] != SENTINEL { r := r + [text[i]]; }
    }
  }

  // ---------- Nothing is lost, nothing is claimed twice ----------

  ghost predicate CleanNames(ms: seq<Marker>) { forall i :: 0 <= i < |ms| ==> NoSentinel(ms[i].name) }

  /** The segments use every marker once, in order, and read back as the text without its
      sentinels. */
  ghost predicate Keeps(segments: seq<Segment>, text: string, markers: seq<Marker>) {
    && Links(segments) == markers
    && Strip(ReadBack(segments)) == Strip(text)
    && (CleanNames(markers) ==> ReadBack(segments) == Strip(text))
  }

  lemma PlainKeeps(text: string, rest: seq<Segment>, markers: seq<Marker>)
    requires text != "" && text[0] != SENTINEL && Keeps(rest, text[1..], markers)
    ensures Keeps([Plain(text[0])] + rest, text, markers)
  {
    assert ([Plain(text[0])] + rest)[1..] == rest;
    assert ([text[0]] + ReadBack(rest))[1..] == ReadBack(rest);
  }

  lemma RunKeeps(text: string, rest: seq<Segment>, markers: seq<Marker>)
    requires |text| > 1 && text[0] == SENTINEL && text[1] == '@'
    requires markers != [] && markers[0].name == Word(text[2..]) && 2 + |markers[0].name| <= |text|
    requires Keeps(rest, text[2 + |markers[0].name|..], markers[1..])
    ensures Keeps([Link(markers[0])] + rest, text, markers)
  {
    var m := markers[0];
    WordIsPrefix(text[2..]);
    assert text == [SENTINEL] + (("@" + m.name) + text[2 + |m.name|..]);
    LinkReadsBack(m, text[2 + |m.name|..], rest);
    assert markers == [m] + markers[1..];
    if CleanNames(markers) {
      assert forall i :: 0 <= i < |markers| - 1 ==> markers[1..][i] == markers[i + 1];
    }
  }

  /** On the linked path every marker is used exactly once, in order, and reading the links
      back gives the user's text without its sentinels. */
  lemma {:induction false} WalkKeepsTheText(text: string, markers: seq<Marker>)
    requires Walk(text, markers).Some?
    ensures Keeps(Walk(text, markers).value, text, markers)
    decreases |text|
  {
    if text == [] {
    } else if text[0] != SENTINEL {
      WalkKeepsTheText(text[1..], markers);
      PlainKeeps(text, Walk(text[1..], markers).value, markers);
    } else if |text| == 1 || text[1] != '@' {
      WalkKeepsTheText(text[1..], markers);
    } else {
      WordIsPrefix(text[2..]);
      var tail := text[2 + |Word(text[2..])|..];
      WalkKeepsTheText(tail, markers[1..]);
      RunKeeps(text, Walk(tail, markers[1..]).value, markers);
    }
  }

  /** A link in front of `rest`, for the marked run in front of `tail`. */
  lemma LinkReadsBack(m: Marker, tail: string, rest: seq<Segment>)
    requires Strip(ReadBack(rest)) == Strip(tail)
    ensures Links([Link(m)] + rest) == [m] + Links(rest)
    ensures Strip(ReadBack([Link(m)] + rest)) == Strip([SENTINEL] + (("@" + m.name) + tail))
    ensures NoSentinel(m.name) && ReadBack(rest) == Strip(tail) ==>
              ReadBack([Link(m)] + rest) == Strip([SENTINEL] + (("@" + m.name) + tail))
  {
    assert ([Link(m)] + rest)[1..] == rest;
    assert ([SENTINEL] + (("@" + m.name) + tail))[1..] == ("@" + m.name) + tail;
    StripConcat("@" + m.name, tail);
    StripConcat("@" + m.name, ReadBack(rest));
    StripClean("@" + m.name);
  }

  /** What is sent is the user's text without sentinels, or that text with the markers' links
      in place of their `@name`s. */
  lemma SerializedReadsBack(text: string, markers: seq<Marker>)
    requires CleanNames(markers)
    ensures || Serialized(text, markers) == Strip(text)
            || (exists segments :: Serialized(text, markers) == Render(segments)
                  && Links(segments) == markers && ReadBack(segments) == Strip(text))
  {
    StripClean(text);
    match Walk(text, markers)
    case None =>
    case Some(segments) =>
      WalkKeepsTheText(text, markers);
      assert Links(segments) == markers && ReadBack(segments) == Strip(text);
  }

  // ---------- What the receiver reads ----------

  /** `s` up to the first `c`, and what follows it; None when there is no `c`. */
  function CutAt(s: string, c: char): Option<(string, string)> {
    if s == "" then None
    else if s[0] == c then Some(("", s[1..]))
    else
      var rest := CutAt(s[1..], c);
      if rest.None? then None else Some(([s[0]] + rest.value.0, rest.value.1))
  }

  datatype ReadLink = ReadLink(title: string, kind: string, id: string)

  /** A link at the start of a text, by its brackets alone: `[label](mention://kind/id)`. */
  function LinkAt(s: string): Option<ReadLink> {
    if s == "" || s[0] != '[' then None
    else
      var title := CutAt(s[1..], ']');
      if title.None? || !("(mention://" <= title.value.1) then None
      else
        var kind := CutAt(title.value.1[11..], '/');
        if kind.None? then None
        else
          var id := CutAt(kind.value.1, ')');
          if id.None? then None else Some(ReadLink(title.value.0, kind.value.0, id.value.0))
  }

  lemma {:induction false} CutFinds(s: string, c: char, rest: string)
    requires forall i :: 0 <= i < |s| ==> s[i] != c
    ensures CutAt(s + [c] + rest, c) == Some((s, rest))
  {
    if s == "" {
      assert (s + [c] + rest)[1..] == rest;
    } else {
      assert (s + [c] + rest)[1..] == s[1..] + [c] + rest && (s + [c] + rest)[0] == s[0];
      CutFinds(s[1..], c, rest);
      assert [s[0]] + s[1..] == s;
    }
  }

  /** What a link must say. */
  ghost predicate Says(link: ReadLink, m: Marker) {
    && link.title == (if m.kind == Issue then m.name else "@" + m.name)
    && link.id == m.id
    && (m.kind == Member ==> link.kind == "member")
    && (m.kind == Agent ==> link.kind == "agent")
    && (m.kind == Squad ==> link.kind == "squad")
    && (m.kind == Everyone ==> link.kind == "all")
    && (m.kind == Issue ==> link.kind == "issue")
  }

  ghost predicate Readable(m: Marker) {
    && (forall i :: 0 <= i < |m.name| ==> m.name[i] != ']')
    && (forall i :: 0 <= i < |m.id| ==> m.id[i] != ')')
  }

  lemma BracketsRead(title: string, kind: string, id: string, rest: string)
    requires forall i :: 0 <= i < |title| ==> title[i] != ']'
    requires forall i :: 0 <= i < |kind| ==> kind[i] != '/'
    requires forall i :: 0 <= i < |id| ==> id[i] != ')'
    ensures LinkAt("[" + title + "](mention://" + kind + "/" + id + ")" + rest) == Some(ReadLink(title, kind, id))
  {
    var tail := id + ")" + rest;
    var middle := kind + "/" + tail;
    var text := "[" + title + "](mention://" + kind + "/" + id + ")" + rest;
    assert text[1..] == title + "]" + ("(mention://" + middle);
    CutFinds(title, ']', "(mention://" + middle);
    assert ("(mention://" + middle)[11..] == middle;
    CutFinds(kind, '/', tail);
    CutFinds(id, ')', rest);
  }

  /** The receiver reads off a link the marker's label, with an `@` unless it is an issue, its
      type word and its id. */
  lemma LinkIsRead(m: Marker, rest: string)
    requires Readable(m)
    ensures LinkAt(LinkText(m) + rest).Some? && Says(LinkAt(LinkText(m) + rest).value, m)
  {
    BracketsRead(if m.kind == Issue then m.name else "@" + m.name, KindName(m.kind), m.id, rest);
  }

  /** Where the `k`-th link of the segments begins in what is sent. */
  function LinkStart(segments: seq<Segment>, k: nat): nat
    requires k < |Links(segments)|
  {
    match segments[0]
    case Plain(_) => 1 + LinkStart(segments[1..], k)
    case Link(m) => if k == 0 then 0 else |LinkText(m)| + LinkStart(segments[1..], k - 1)
  }

  /** The link of `m` is read at `at`. */
  ghost predicate ReadsAt(s: string, at: nat, m: Marker) {
    at <= |s| && LinkAt(s[at..]).Some? && Says(LinkAt(s[at..]).value, m)
  }

  lemma ReadsBehind(text: string, head: string, tail: string, at: nat, start: nat, m: Marker)
    requires text == head + tail && start == |head| + at && ReadsAt(tail, at, m)
    ensures ReadsAt(text, start, m)
  {
    assert text[start..] == tail[at..];
  }

  /** The `k`-th link of the segments is read where it begins. */
  ghost predicate IsRead(segments: seq<Segment>, k: nat)
    requires k < |Links(segments)|
  {
    ReadsAt(Render(segments), LinkStart(segments, k), Links(segments)[k])
  }

  /** The text before the rest of the segments. */
  function Head(segments: seq<Segment>): string
    requires segments != []
  {
    match segments[0] case Plain(c) => [c] case Link(m) => LinkText(m)
  }

  lemma LinkStep(segments: seq<Segment>, k: nat, k': nat)
    requires k < |Links(segments)| && k == k' + (if segments[0].Link? then 1 else 0)
    ensures Render(segments) == Head(segments) + Render(segments[1..])
    ensures k' < |Links(segments[1..])| && Links(segments)[k] == Links(segments[1..])[k']
    ensures LinkStart(segments, k) == |Head(segments)| + LinkStart(segments[1..], k')
  {
  }

  lemma FirstIsRead(segments: seq<Segment>)
    requires segments != [] && segments[0].Link? && Readable(segments[0].marker)
    ensures IsRead(segments, 0)
  {
    LinkIsRead(segments[0].marker, Render(segments[1..]));
    assert Render(segments)[0..] == Render(segments);
  }

  lemma {:induction false} RenderedLink(segments: seq<Segment>, k: nat)
    requires k < |Links(segments)| && Readable(Links(segments)[k])
    ensures IsRead(segments, k)
    decreases |segments|
  {
    if segments[0].Link? && k == 0 {
      FirstIsRead(segments);
    } else {
      var k' := if segments[0].Link? then k - 1 else k;
      LinkStep(segments, k, k');
      RenderedLink(segments[1..], k');
      ReadsBehind(Render(segments), Head(segments), Render(segments[1..]),
                  LinkStart(segments[1..], k'), LinkStart(segments, k), Links(segments)[k]);
    }
  }

  lemma {:induction false} LinksAreApart(segments: seq<Segment>, k: nat)
    requires 0 < k < |Links(segments)|
    ensures LinkStart(segments, k - 1) < LinkStart(segments, k)
    decreases |segments|
  {
    if segments[0].Plain? {
      LinksAreApart(segments[1..], k);
    } else if k > 1 {
      LinksAreApart(segments[1..], k - 1);
    }
  }

  /** On the linked path the receiver finds, in order, one link for each marker, and reads off
      it that marker's label, type and id. */
  lemma SentLinksAreRead(text: string, markers: seq<Marker>, k: nat)
    requires !NoSentinel(text) && Walk(text, markers).Some? && k < |markers| && Readable(markers[k])
    ensures Links(Walk(text, markers).value) == markers
    ensures var at := LinkStart(Walk(text, markers).value, k);
            && ReadsAt(Serialized(text, markers), at, markers[k])
            && (k > 0 ==> LinkStart(Walk(text, markers).value, k - 1) < at)
  {
    WalkKeepsTheText(text, markers);
    RenderedLink(Walk(text, markers).value, k);
    if k > 0 { LinksAreApart(Walk(text, markers).value, k); }
  }

  /** The whole text of each kind of link, and of a picked mention. */
  lemma LinkTexts(id: string, name: string)
    ensures LinkText(Marker(Member, id, name)) == "[@" + name + "](mention://member/" + id + ")"
    ensures LinkText(Marker(Agent, id, name)) == "[@" + name + "](mention://agent/" + id + ")"
    ensures LinkText(Marker(Squad, id, name)) == "[@" + name + "](mention://squad/" + id + ")"
    ensures LinkText(Marker(Everyone, id, name)) == "[@" + name + "](mention://all/" + id + ")"
    ensures LinkText(Marker(Issue, id, name)) == "[" + name + "](mention://issue/" + id + ")"
    ensures Marked(Marker(Member, id, name)) == "\U{2063}@" + name + " "
  {
    assert "[" + ("@" + name) == "[@" + name;
    assert "](mention://" + "member" + "/" == "](mention://member/";
    assert "](mention://" + "agent" + "/" == "](mention://agent/";
    assert "](mention://" + "squad" + "/" == "](mention://squad/" && "](mention://" + "all" + "/" == "](mention://all/";
    assert "](mention://" + "issue" + "/" == "](mention://issue/";
    assert ['\U{2063}'] + "@" == "\U{2063}@";
  }

  // ---------- tokenAtCursor and insertMention ----------

  /** The run `@...` from `start` to the cursor is a mention being typed. */
  ghost predicate IsToken(text: string, cursor: int, boundary: string -> bool, start: int) {
    && 0 <= start < cursor <= |text|
    && text[start] == '@'
    && (forall k :: start < k < cursor ==> text[k] != '@' && !IsSpace(text[k]))
    && (start > 0 ==> text[start - 1] != SENTINEL && boundary(text[Max(0, start - 2)..start]))
  }

  method TokenAtCursor(text: string, cursor: int, boundary: string -> bool) returns (r: Option<(nat, string)>)
    ensures r.Some? ==> IsToken(text, cursor, boundary, r.value.0) && r.value.1 == text[r.value.0 + 1..cursor]
    ensures r.None? ==> forall start :: !IsToken(text, cursor, boundary, start)
  {
    if cursor < 1 || cursor > |text| {
      return None;
    }
    var i := cursor - 1;
    while i >= 0 && text[i] != '@'
      invariant -1 <= i < cursor
      invariant forall k :: i < k < cursor ==> text[k] != '@' && !IsSpace(text[k])
    {
      if IsSpace(text[i]) {
        forall start ensures !IsToken(text, cursor, boundary, start) {
          assert start < i ==> text[i] != '@';
        }
        return None;
      }
      i := i - 1;
    }
    if i < 0 {
      return None;
    }
    assert forall start :: IsToken(text, cursor, boundary, start) ==> start == i;
    if i > 0 && text[i - 1] == SENTINEL {
      return None;
    }
    if i > 0 && !boundary(text[Max(0, i - 2)..i]) {
      return None;
    }
    return Some((i, text[i + 1..cursor]));
  }

  /** The text the suggestion bar inserts. */
  function Marked(m: Marker): string { [SENTINEL] + "@" + m.name + " " }

  /** `insertMention`: the `@` at `start` and `queryLength` characters after it give way. */
  function InsertMention(text: string, start: nat, queryLength: nat, mention: Marker): string
    requires start + 1 + queryLength <= |text|
  {
    text[..start] + Marked(mention) + text[start + 1 + queryLength..]
  }

  // ---------- Which run gets which marker ----------

  /** A stretch of typed text and the mention inserted after it. */
  datatype Piece = Piece(typed: string, marker: Marker)

  function Laid(pieces: seq<Piece>): string {
    if pieces == [] then [] else
      pieces[0].typed + Marked(pieces[0].marker) + Laid(pieces[1..])
  }

  function Markers(pieces: seq<Piece>): (r: seq<Marker>)
    ensures |r| == |pieces|
  {
    seq(|pieces|, i requires 0 <= i < |pieces| => pieces[i].marker)
  }

  ghost predicate CleanPieces(pieces: seq<Piece>) {
    forall i :: 0 <= i < |pieces| ==> NoSentinel(pieces[i].typed)
  }

  ghost predicate NoneSpaced(ms: seq<Marker>) { forall i :: 0 <= i < |ms| ==> NoSpace(ms[i].name) }

  /** What follows a run's first word. */
  function RestOfRun(m: Marker): string {
    WordIsPrefix(m.name);
    m.name[|Word(m.name)|..] + " "
  }

  lemma {:induction false} WordOfRun(name: string, rest: string)
    ensures Word(name + " " + rest) == Word(name)
  {
    if name == "" || IsSpace(name[0]) {
      assert (name + " " + rest)[0] == if name == "" then ' ' else name[0];
    } else {
      assert (name + " " + rest)[1..] == name[1..] + " " + rest;
      WordOfRun(name[1..], rest);
    }
  }

  lemma {:induction false} WordIsAllIff(name: string)
    ensures Word(name) == name <==> NoSpace(name)
  {
    WordIsPrefix(name);
    if name != "" && !IsSpace(name[0]) { WordIsAllIff(name[1..]); }
  }

  /** A marked run takes the next marker, provided its name is the run's first word. */
  lemma WalkRun(m: Marker, rest: string, ms: seq<Marker>)
    ensures Walk(Marked(m) + rest, ms) ==
            if ms != [] && ms[0].name == Word(m.name) then Cons(Link(ms[0]), Walk(RestOfRun(m) + rest, ms[1..]))
            else None
  {
    var run := Marked(m) + rest;
    assert run[2..] == m.name + " " + rest;
    WordOfRun(m.name, rest);
    WordIsPrefix(m.name);
    assert run[2 + |Word(m.name)|..] == RestOfRun(m) + rest;
  }

  lemma RestOfRunIsClean(m: Marker)
    requires NoSentinel(m.name)
    ensures NoSentinel(RestOfRun(m))
  {
    WordIsPrefix(m.name);
  }

  /** The list names the runs: each marker's name is the first word of the run it meets. */
  ghost predicate Names(ms: seq<Marker>, pieces: seq<Piece>) {
    |ms| == |pieces| && forall i :: 0 <= i < |pieces| ==> ms[i].name == Word(pieces[i].marker.name)
  }

  /** The laid-out text with run `i` linked to `ms[i]`. */
  function Woven(pieces: seq<Piece>, tail: string, ms: seq<Marker>): seq<Segment>
    requires |ms| == |pieces|
  {
    if pieces == [] then Plains(tail)
    else
      Plains(pieces[0].typed)
        + ([Link(ms[0])] + (Plains(RestOfRun(pieces[0].marker)) + Woven(pieces[1..], tail, ms[1..])))
  }

  /** Nothing in the layout but its runs holds a sentinel. */
  ghost predicate CleanLayout(pieces: seq<Piece>, tail: string) {
    && CleanPieces(pieces) && NoSentinel(tail)
    && forall i :: 0 <= i < |pieces| ==> NoSentinel(pieces[i].marker.name)
  }

  /** On every layout and every marker list: the linked path is taken exactly when the list
      names the runs in order, and then run `i` gets marker `i`. */
  lemma {:induction false} LinkedIffNamed(pieces: seq<Piece>, tail: string, ms: seq<Marker>)
    requires CleanLayout(pieces, tail)
    ensures Walk(Laid(pieces) + tail, ms) == if Names(ms, pieces) then Some(Woven(pieces, tail, ms)) else None
    decreases |pieces|
  {
    if pieces == [] {
      WalkTail(tail, ms);
    } else {
      var rest := Laid(pieces[1..]) + tail;
      PieceWalks(pieces[0], rest, ms);
      assert Laid(pieces) + tail == pieces[0].typed + (Marked(pieces[0].marker) + rest);
      if ms != [] {
        NamesSplit(ms, pieces);
        LinkedIffNamed(pieces[1..], tail, ms[1..]);
      }
    }
  }

  lemma WalkTail(tail: string, ms: seq<Marker>)
    requires NoSentinel(tail)
    ensures Walk(Laid([]) + tail, ms) == if ms == [] then Some(Plains(tail)) else None
  {
    WalkPlain(tail, [], ms);
    assert tail + [] == tail && Laid([]) + tail == tail && Plains(tail) + [] == Plains(tail);
  }

  lemma NamesSplit(ms: seq<Marker>, pieces: seq<Piece>)
    requires ms != [] && pieces != []
    ensures Names(ms, pieces) <==> ms[0].name == Word(pieces[0].marker.name) && Names(ms[1..], pieces[1..])
  {
    if Names(ms[1..], pieces[1..]) && ms[0].name == Word(pieces[0].marker.name) {
      forall i | 0 <= i < |pieces| ensures ms[i].name == Word(pieces[i].marker.name) {
        if i > 0 { assert ms[i] == ms[1..][i - 1] && pieces[i] == pieces[1..][i - 1]; }
      }
    }
  }

  /** One piece of the layout. */
  lemma PieceWalks(p: Piece, rest: string, ms: seq<Marker>)
    requires NoSentinel(p.typed) && NoSentinel(p.marker.name)
    ensures Walk(p.typed + (Marked(p.marker) + rest), ms) ==
            if ms == [] || ms[0].name != Word(p.marker.name) || Walk(rest, ms[1..]).None? then None
            else Some(Plains(p.typed) + ([Link(ms[0])] + (Plains(RestOfRun(p.marker)) + Walk(rest, ms[1..]).value)))
  {
    WalkPlain(p.typed, Marked(p.marker) + rest, ms);
    WalkRun(p.marker, rest, ms);
    if ms != [] {
      RestOfRunIsClean(p.marker);
      WalkPlain(RestOfRun(p.marker), rest, ms[1..]);
    }
  }

  lemma {:induction false} WovenLinks(pieces: seq<Piece>, tail: string, ms: seq<Marker>)
    requires |ms| == |pieces|
    ensures Links(Woven(pieces, tail, ms)) == ms
  {
    if pieces == [] {
      PlainsHaveNoLinks(tail, []);
      assert Plains(tail) + [] == Plains(tail);
    } else {
      var rest := Woven(pieces[1..], tail, ms[1..]);
      WovenLinks(pieces[1..], tail, ms[1..]);
      PlainsHaveNoLinks(RestOfRun(pieces[0].marker), rest);
      var linked := [Link(ms[0])] + (Plains(RestOfRun(pieces[0].marker)) + rest);
      assert linked[1..] == Plains(RestOfRun(pieces[0].marker)) + rest;
      PlainsHaveNoLinks(pieces[0].typed, linked);
    }
  }

  lemma {:induction false} PlainsHaveNoLinks(s: string, rest: seq<Segment>)
    ensures Links(Plains(s) + rest) == Links(rest)
  {
    if s == "" {
      assert Plains(s) + rest == rest;
    } else {
      assert (Plains(s) + rest)[1..] == Plains(s[1..]) + rest;
      PlainsHaveNoLinks(s[1..], rest);
    }
  }

  /** Every run is linked to the marker it was picked with exactly when the list is the runs'
      own, in the order of the text, and no name has white space. */
  lemma IdentitiesAreRightIff(pieces: seq<Piece>, tail: string, ms: seq<Marker>)
    requires CleanLayout(pieces, tail)
    ensures Walk(Laid(pieces) + tail, ms) == Some(Woven(pieces, tail, Markers(pieces))) <==>
            ms == Markers(pieces) && NoneSpaced(ms)
  {
    LinkedIffNamed(pieces, tail, ms);
    WovenLinks(pieces, tail, Markers(pieces));
    if |ms| == |pieces| { WovenLinks(pieces, tail, ms); }
    forall i | 0 <= i < |pieces|
      ensures Word(pieces[i].marker.name) == pieces[i].marker.name <==> NoSpace(pieces[i].marker.name)
    {
      WordIsAllIff(pieces[i].marker.name);
    }
  }

  /** Some run is linked to a marker it was not picked with exactly when the list names the
      runs and is not their own. */
  lemma IdentitiesAreWrongIff(pieces: seq<Piece>, tail: string, ms: seq<Marker>)
    requires CleanLayout(pieces, tail)
    ensures (var walk := Walk(Laid(pieces) + tail, ms);
             walk.Some? && walk.value != Woven(pieces, tail, Markers(pieces)))
            <==> Names(ms, pieces) && ms != Markers(pieces)
  {
    LinkedIffNamed(pieces, tail, ms);
    WovenLinks(pieces, tail, Markers(pieces));
    if |ms| == |pieces| { WovenLinks(pieces, tail, ms); }
  }

  // ---------- Sessions of the composer ----------

  /** The composer's text and its markers in the order they were picked; `pieces` and `tail`
      are history: which stretch of the text came from where. */
  datatype Draft = Draft(text: string, markers: seq<Marker>, pieces: seq<Piece>, tail: string)

  /** Gap `k` is the typed text before run `k`, or behind the last run. */
  datatype Action =
    | Type(gap: nat, typed: string)                              // retype a gap
    | Pick(gap: nat, start: nat, cursor: nat, mention: Marker)   // choose a suggestion for the token in a gap

  function Gap(d: Draft, k: nat): string
    requires k <= |d.pieces|
  {
    if k < |d.pieces| then d.pieces[k].typed else d.tail
  }

  function GapStart(d: Draft, k: nat): nat
    requires k <= |d.pieces|
  {
    |Laid(d.pieces[..k])|
  }

  /** What follows gap `k`. */
  function Behind(d: Draft, k: nat): string
    requires k <= |d.pieces|
  {
    if k < |d.pieces| then Marked(d.pieces[k].marker) + Laid(d.pieces[k + 1..]) + d.tail else ""
  }

  ghost predicate Allowed(d: Draft, a: Action, boundary: string -> bool) {
    && a.gap <= |d.pieces|
    && match a
       case Type(_, typed) => NoSentinel(typed)
       case Pick(gap, start, cursor, mention) =>
         && GapStart(d, gap) <= cursor <= GapStart(d, gap) + |Gap(d, gap)|
         && IsToken(d.text, cursor, boundary, start) && NoSentinel(mention.name)
  }

  /** The layout with another text in gap `k`. */
  function Regapped(d: Draft, k: nat, typed: string): Draft
    requires k <= |d.pieces|
  {
    if k < |d.pieces| then d.(pieces := d.pieces[k := d.pieces[k].(typed := typed)]) else d.(tail := typed)
  }

  /** The layout with a new piece in front of gap `k`, of which `rest` is left. */
  function Split(d: Draft, k: nat, p: Piece, rest: string): Draft
    requires k <= |d.pieces|
  {
    var after := Regapped(d, k, rest);
    after.(pieces := after.pieces[..k] + [p] + after.pieces[k..])
  }

  function Perform(d: Draft, a: Action): Draft
    requires a.gap <= |d.pieces| && GapStart(d, a.gap) + |Gap(d, a.gap)| <= |d.text|
    requires a.Pick? ==> GapStart(d, a.gap) <= a.start < a.cursor <= GapStart(d, a.gap) + |Gap(d, a.gap)|
  {
    var from, typed := GapStart(d, a.gap), Gap(d, a.gap);
    match a
    case Type(gap, new') =>
      Regapped(d, gap, new').(text := d.text[..from] + new' + d.text[from + |typed|..])
    case Pick(gap, start, cursor, mention) =>
      Split(d, gap, Piece(typed[..start - from], mention), typed[cursor - from..]).(
        text := InsertMention(d.text, start, cursor - start - 1, mention), markers := d.markers + [mention])
  }

  /** The text is its layout. */
  ghost predicate IsLaid(d: Draft) { d.text == Laid(d.pieces) + d.tail && CleanLayout(d.pieces, d.tail) }

  lemma {:induction false} LaidConcat(a: seq<Piece>, b: seq<Piece>)
    ensures Laid(a + b) == Laid(a) + Laid(b)
  {
    if a == [] {
      assert a + b == b;
    } else {
      assert (a + b)[1..] == a[1..] + b;
      LaidConcat(a[1..], b);
    }
  }

  lemma LaidAround(d: Draft, k: nat)
    requires k <= |d.pieces|
    ensures Laid(d.pieces) + d.tail == Laid(d.pieces[..k]) + (Gap(d, k) + Behind(d, k))
  {
    LaidConcat(d.pieces[..k], d.pieces[k..]);
    assert d.pieces == d.pieces[..k] + d.pieces[k..];
    if k < |d.pieces| { assert d.pieces[k..][1..] == d.pieces[k + 1..]; }
  }

  lemma {:induction false} LaidEndsInSpace(pieces: seq<Piece>)
    requires pieces != []
    ensures |Laid(pieces)| > 0 && Laid(pieces)[|Laid(pieces)| - 1] == ' '
  {
    if |pieces| > 1 { LaidEndsInSpace(pieces[1..]); }
  }

  /** A token never reaches back over the mention before its gap. */
  lemma TokenStaysInGap(d: Draft, a: Action, boundary: string -> bool)
    requires IsLaid(d) && Allowed(d, a, boundary)
    ensures GapStart(d, a.gap) + |Gap(d, a.gap)| <= |d.text|
    ensures a.Pick? ==> GapStart(d, a.gap) <= a.start < a.cursor
  {
    LaidAround(d, a.gap);
    if a.Pick? && a.gap > 0 {
      LaidEndsInSpace(d.pieces[..a.gap]);
      assert d.text[GapStart(d, a.gap) - 1] == ' ';
    }
  }

  lemma RegappedIsLaid(d: Draft, k: nat, typed: string)
    requires k <= |d.pieces| && CleanLayout(d.pieces, d.tail) && NoSentinel(typed)
    ensures var d' := Regapped(d, k, typed);
            && Laid(d'.pieces) + d'.tail == Laid(d.pieces[..k]) + (typed + Behind(d, k))
            && CleanLayout(d'.pieces, d'.tail) && |d'.pieces| == |d.pieces|
            && d'.pieces[..k] == d.pieces[..k] && Markers(d'.pieces) == Markers(d.pieces)
  {
    var d' := Regapped(d, k, typed);
    assert d'.pieces[..k] == d.pieces[..k];
    LaidAround(d', k);
    if k < |d.pieces| { assert d'.pieces[k + 1..] == d.pieces[k + 1..]; }
  }

  lemma TypeKeepsLayout(d: Draft, gap: nat, typed: string)
    requires IsLaid(d) && gap <= |d.pieces| && NoSentinel(typed)
    requires GapStart(d, gap) + |Gap(d, gap)| <= |d.text|
    ensures IsLaid(Perform(d, Type(gap, typed)))
    ensures Markers(Perform(d, Type(gap, typed)).pieces) == Markers(d.pieces)
  {
    LaidAround(d, gap);
    RegappedIsLaid(d, gap, typed);
    var from := GapStart(d, gap);
    assert d.text[..from] == Laid(d.pieces[..gap]) && d.text[from + |Gap(d, gap)|..] == Behind(d, gap);
  }

  /** The pick at `start` for the token up to `cursor` makes the piece `p` and leaves `rest`. */
  ghost predicate Cuts(d: Draft, a: Action, p: Piece, rest: string) {
    && a.Pick? && a.gap <= |d.pieces|
    && GapStart(d, a.gap) <= a.start < a.cursor <= GapStart(d, a.gap) + |Gap(d, a.gap)| <= |d.text|
    && p == Piece(Gap(d, a.gap)[..a.start - GapStart(d, a.gap)], a.mention)
    && rest == Gap(d, a.gap)[a.cursor - GapStart(d, a.gap)..]
  }

  /** Inserting a mention into a gap splits its piece. */
  lemma PickSplitsPieces(d: Draft, gap: nat, p: Piece, rest: string)
    requires gap <= |d.pieces| && CleanLayout(d.pieces, d.tail)
    requires NoSentinel(p.typed) && NoSentinel(rest) && NoSentinel(p.marker.name)
    ensures var d' := Split(d, gap, p, rest);
            && Laid(d'.pieces) + d'.tail ==
              Laid(d.pieces[..gap]) + (p.typed + (Marked(p.marker) + (rest + Behind(d, gap))))
            && CleanLayout(d'.pieces, d'.tail)
            && Markers(d'.pieces) == Markers(d.pieces)[..gap] + [p.marker] + Markers(d.pieces)[gap..]
  {
    var after := Regapped(d, gap, rest);
    RegappedIsLaid(d, gap, rest);
    PickedPieces(after, gap, p, rest + Behind(d, gap));
    PickedMarkers(after.pieces, gap, p);
    PickedIsClean(after.pieces, after.tail, gap, p);
  }

  lemma PickKeepsLayout(d: Draft, a: Action, p: Piece, rest: string)
    requires IsLaid(d) && Cuts(d, a, p, rest) && NoSentinel(a.mention.name)
    ensures IsLaid(Perform(d, a))
    ensures Markers(Perform(d, a).pieces) == Markers(d.pieces)[..a.gap] + [a.mention] + Markers(d.pieces)[a.gap..]
  {
    GapIsClean(d, a.gap, a.start - GapStart(d, a.gap), a.cursor - GapStart(d, a.gap));
    LaidAround(d, a.gap);
    PickedText(d.text, Laid(d.pieces[..a.gap]), Gap(d, a.gap), Behind(d, a.gap), a, p, rest);
    PickSplitsPieces(d, a.gap, p, rest);
    PerformedPick(d, a, p, rest);
  }

  lemma PerformedPick(d: Draft, a: Action, p: Piece, rest: string)
    requires Cuts(d, a, p, rest)
    ensures Perform(d, a).pieces == Split(d, a.gap, p, rest).pieces
            && Perform(d, a).tail == Split(d, a.gap, p, rest).tail
    ensures Perform(d, a).text == InsertMention(d.text, a.start, a.cursor - a.start - 1, a.mention)
  {
  }

  lemma GapIsClean(d: Draft, k: nat, i: nat, j: nat)
    requires CleanLayout(d.pieces, d.tail) && k <= |d.pieces| && i <= j <= |Gap(d, k)|
    ensures NoSentinel(Gap(d, k)[..i]) && NoSentinel(Gap(d, k)[j..])
  {
  }

  /** `insertMention` inside the middle one of three stretches. */
  lemma PickedText(text: string, before: string, typed: string, behind: string, a: Action, p: Piece, rest: string)
    requires a.Pick? && text == before + (typed + behind) && |before| <= a.start < a.cursor <= |before| + |typed|
    requires p == Piece(typed[..a.start - |before|], a.mention) && rest == typed[a.cursor - |before|..]
    ensures InsertMention(text, a.start, a.cursor - a.start - 1, a.mention) ==
            before + (p.typed + (Marked(p.marker) + (rest + behind)))
  {
    assert text[..a.start] == before + p.typed;
    assert text[a.cursor..] == rest + behind;
  }

  /** A new piece in front of gap `gap`. */
  lemma PickedPieces(d: Draft, gap: nat, p: Piece, behind: string)
    requires gap <= |d.pieces| && Laid(d.pieces) + d.tail == Laid(d.pieces[..gap]) + behind
    ensures Laid(d.pieces[..gap] + [p] + d.pieces[gap..]) + d.tail ==
            Laid(d.pieces[..gap]) + (p.typed + (Marked(p.marker) + behind))
  {
    var head, last := Laid(d.pieces[..gap]), Laid(d.pieces[gap..]);
    LaidConcat(d.pieces[..gap], d.pieces[gap..]);
    assert d.pieces == d.pieces[..gap] + d.pieces[gap..];
    LaidWithPiece(d.pieces[..gap], p, d.pieces[gap..]);
    assert head + last + d.tail == head + (last + d.tail);
    SamePrefix(head, behind, last + d.tail);
    PieceText(head, p, last, d.tail);
  }

  lemma PickedMarkers(pieces: seq<Piece>, gap: nat, p: Piece)
    requires gap <= |pieces|
    ensures Markers(pieces[..gap] + [p] + pieces[gap..]) == Markers(pieces)[..gap] + [p.marker] + Markers(pieces)[gap..]
  {
  }

  lemma PickedIsClean(pieces: seq<Piece>, tail: string, gap: nat, p: Piece)
    requires gap <= |pieces| && CleanLayout(pieces, tail) && NoSentinel(p.typed) && NoSentinel(p.marker.name)
    ensures CleanLayout(pieces[..gap] + [p] + pieces[gap..], tail)
  {
  }

  lemma SamePrefix(head: string, x: string, y: string)
    requires head + x == head + y
    ensures x == y
  {
    assert x == (head + x)[|head|..] && y == (head + y)[|head|..];
  }

  lemma LaidWithPiece(a: seq<Piece>, p: Piece, b: seq<Piece>)
    ensures Laid(a + [p] + b) == Laid(a) + (p.typed + Marked(p.marker) + Laid(b))
  {
    assert a + [p] + b == a + ([p] + b);
    LaidConcat(a, [p] + b);
    assert ([p] + b)[1..] == b;
  }

  lemma PieceText(head: string, p: Piece, last: string, tail: string)
    ensures head + (p.typed + Marked(p.marker) + last) + tail == head + (p.typed + (Marked(p.marker) + (last + tail)))
  {
  }

  /** What an action makes of the layout. */
  lemma PerformKeepsLayout(d: Draft, a: Action, boundary: string -> bool)
    requires IsLaid(d) && Allowed(d, a, boundary)
    ensures GapStart(d, a.gap) + |Gap(d, a.gap)| <= |d.text|
    ensures a.Pick? ==> GapStart(d, a.gap) <= a.start < a.cursor
    ensures IsLaid(Perform(d, a))
    ensures Markers(Perform(d, a).pieces) ==
            if a.Type? then Markers(d.pieces) else Markers(d.pieces)[..a.gap] + [a.mention] + Markers(d.pieces)[a.gap..]
  {
    TokenStaysInGap(d, a, boundary);
    match a
    case Type(gap, typed) => TypeKeepsLayout(d, gap, typed);
    case Pick(gap, start, cursor, mention) =>
      var from, typed := GapStart(d, gap), Gap(d, gap);
      PickKeepsLayout(d, a, Piece(typed[..start - from], mention), typed[cursor - from..]);
  }

  /** The draft after a session that starts empty; None if some action was not possible. */
  ghost function After(actions: seq<Action>, boundary: string -> bool): (r: Option<Draft>)
    ensures r.Some? ==> IsLaid(r.value)
  {
    if actions == [] then Some(Draft("", [], [], ""))
    else
      var before, a := After(actions[..|actions| - 1], boundary), actions[|actions| - 1];
      if before.None? || !Allowed(before.value, a, boundary) then None
      else
        PerformKeepsLayout(before.value, a, boundary);
        Some(Perform(before.value, a))
  }

  /** The list holds the runs' own markers, in the order of the text. */
  ghost predicate HasOwnMarkers(d: Draft) { d.markers == Markers(d.pieces) }

  /** Every mention to the right of the pick is one of the same marker. */
  ghost predicate PassesOnlyItself(d: Draft, a: Action) {
    a.Pick? ==> forall i :: a.gap <= i < |d.pieces| ==> d.pieces[i].marker == a.mention
  }

  lemma {:induction false} InsertIsAppendIff(ms: seq<Marker>, g: nat, m: Marker)
    requires g <= |ms|
    ensures ms[..g] + [m] + ms[g..] == ms + [m] <==> forall i :: g <= i < |ms| ==> ms[i] == m
  {
    var inserted := ms[..g] + [m] + ms[g..];
    assert inserted[g] == m && forall i :: g <= i < |ms| ==> inserted[i + 1] == ms[i];
    if inserted == ms + [m] {
      var i := g;
      while i < |ms|
        invariant g <= i <= |ms| && forall j :: g <= j < i ==> ms[j] == m
        invariant inserted[i] == m
      {
        assert (ms + [m])[i] == ms[i];
        i := i + 1;
      }
    }
  }

  /** One pick keeps the list right exactly when every mention to its right is of its own marker. */
  lemma PickKeepsOwnMarkersIff(d: Draft, a: Action, boundary: string -> bool)
    requires IsLaid(d) && Allowed(d, a, boundary) && HasOwnMarkers(d)
    ensures GapStart(d, a.gap) + |Gap(d, a.gap)| <= |d.text|
    ensures a.Pick? ==> GapStart(d, a.gap) <= a.start < a.cursor
    ensures HasOwnMarkers(Perform(d, a)) <==> PassesOnlyItself(d, a)
  {
    PerformKeepsLayout(d, a, boundary);
    if a.Pick? {
      InsertIsAppendIff(Markers(d.pieces), a.gap, a.mention);
      assert Perform(d, a).markers == Markers(d.pieces) + [a.mention];
      assert forall i :: 0 <= i < |d.pieces| ==> Markers(d.pieces)[i] == d.pieces[i].marker;
    }
  }

  /** The list was right after every action so far. */
  ghost predicate AlwaysOwn(actions: seq<Action>, boundary: string -> bool) {
    && (actions != [] ==> AlwaysOwn(actions[..|actions| - 1], boundary))
    && After(actions, boundary).Some? && HasOwnMarkers(After(actions, boundary).value)
  }

  /** No pick so far was made to the left of a mention of another marker. */
  ghost predicate NeverPassesAnother(actions: seq<Action>, boundary: string -> bool) {
    actions != [] ==>
      var before := actions[..|actions| - 1];
      && NeverPassesAnother(before, boundary)
      && After(before, boundary).Some? && PassesOnlyItself(After(before, boundary).value, actions[|actions| - 1])
  }

  /** Over every session of typing and picking anywhere: the list stays right exactly as long
      as no mention is picked to the left of one of another marker. */
  lemma {:induction false} SessionKeepsOwnMarkersIff(actions: seq<Action>, boundary: string -> bool)
    requires After(actions, boundary).Some?
    ensures AlwaysOwn(actions, boundary) <==> NeverPassesAnother(actions, boundary)
  {
    if actions != [] {
      var before := actions[..|actions| - 1];
      SessionKeepsOwnMarkersIff(before, boundary);
      var d := After(before, boundary).value;
      if HasOwnMarkers(d) { PickKeepsOwnMarkersIff(d, actions[|actions| - 1], boundary); }
      if AlwaysOwn(before, boundary) { assert HasOwnMarkers(d); }
    }
  }

  /** Each mention was picked to the right of all earlier ones. */
  ghost predicate LeftToRight(actions: seq<Action>, boundary: string -> bool) {
    actions != [] ==>
      var before, a := actions[..|actions| - 1], actions[|actions| - 1];
      && LeftToRight(before, boundary)
      && After(before, boundary).Some? && (a.Pick? ==> a.gap == |After(before, boundary).value.pieces|)
  }

  lemma {:induction false} LeftToRightPassesNone(actions: seq<Action>, boundary: string -> bool)
    requires LeftToRight(actions, boundary)
    ensures NeverPassesAnother(actions, boundary)
  {
    if actions != [] { LeftToRightPassesNone(actions[..|actions| - 1], boundary); }
  }

  /** Mentions picked left to right: every run is linked to the marker it was picked with,
      unless a picked name contains white space, and then none is. */
  lemma LeftToRightMentionsLink(actions: seq<Action>, boundary: string -> bool)
    requires After(actions, boundary).Some? && LeftToRight(actions, boundary)
    ensures var d := After(actions, boundary).value;
            && HasOwnMarkers(d)
            && Walk(d.text, d.markers) ==
               if NoneSpaced(d.markers) then Some(Woven(d.pieces, d.tail, Markers(d.pieces))) else None
  {
    var d := After(actions, boundary).value;
    LeftToRightPassesNone(actions, boundary);
    SessionKeepsOwnMarkersIff(actions, boundary);
    LinkedIffNamed(d.pieces, d.tail, d.markers);
    forall i | 0 <= i < |d.pieces|
      ensures Word(d.pieces[i].marker.name) == d.pieces[i].marker.name <==> NoSpace(d.pieces[i].marker.name)
    {
      WordIsAllIff(d.pieces[i].marker.name);
    }
  }

  /** Picking a mention to the left of an earlier one of the same name swaps the two identities
      without falling back. */
  lemma PickingRightToLeftSwapsIdentities(a: Marker, b: Marker, text: string)
    requires a.name == b.name && NoSpace(a.name) && NoSentinel(a.name) && a.id != b.id
    requires text == InsertMention("@" + InsertMention("@", 0, 0, a), 0, 0, b)
    ensures text == Laid([Piece("", b), Piece("", a)])
    ensures Walk(text, [a, b]) == Some(Woven([Piece("", b), Piece("", a)], "", [a, b]))
    ensures Woven([Piece("", b), Piece("", a)], "", [a, b]) != Woven([Piece("", b), Piece("", a)], "", [b, a])
  {
    var pieces := [Piece("", b), Piece("", a)];
    PickInFront("", a);
    PickInFront(Marked(a), b);
    assert pieces[1..] == [Piece("", a)] && pieces[1..][1..] == [];
    assert Laid(pieces[1..]) == Marked(a) + "" && Laid(pieces) == "" + Marked(b) + Laid(pieces[1..]);
    assert Laid(pieces) + "" == Laid(pieces);
    WordIsAllIff(a.name);
    LinkedIffNamed(pieces, "", [a, b]);
    WovenLinks(pieces, "", [a, b]);
    WovenLinks(pieces, "", [b, a]);
  }

  /** Picking for an `@` typed in front of `rest`. */
  lemma PickInFront(rest: string, m: Marker)
    ensures InsertMention("@" + rest, 0, 0, m) == Marked(m) + rest
  {
    assert ("@" + rest)[..0] == [] && ("@" + rest)[1..] == rest;
  }
}
