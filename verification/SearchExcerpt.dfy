/** The one-line excerpt of a documentation search result. */
module SearchExcerpt {

  import opened Characters
  import opened Numbers
  import opened Wrappers

  const EXCERPT_LENGTH := 80
  const EXCERPT_LEAD := 20
  /** How far a window edge moves to a word boundary. */
  const SNAP := 15
  const ELLIPSIS := "\U{2026}"

  /** The class `\w`. */
  predicate IsWord(c: char) { 'a' <= c <= 'z' || 'A' <= c <= 'Z' || '0' <= c <= '9' || c == '_' }

  function TrimStart(s: string): string { if s != "" && IsSpace(s[0]) then TrimStart(s[1..]) else s }

  function TrimEnd(s: string): string {
    if s != "" && IsSpace(s[|s| - 1]) then TrimEnd(s[..|s| - 1]) else s
  }

  function Trim(s: string): string { TrimEnd(TrimStart(s)) }

  /** Every run of white space as one blank. */
  function Collapse(s: string): string {
    if s == "" then ""
    else if !IsSpace(s[0]) then [s[0]] + Collapse(s[1..])
    else if |s| > 1 && IsSpace(s[1]) then Collapse(s[1..])
    else " " + Collapse(s[1..])
  }

  function FlattenText(text: string): string { Trim(Collapse(text)) }

  /** The length of the first word of `s`. */
  function WordLength(s: string): (n: nat)
    ensures n <= |s|
  {
    if s == "" || IsSpace(s[0]) then 0 else 1 + WordLength(s[1..])
  }

  /** `split(/\s+/)`, without the empty strings it may give at either end. */
  function Words(s: string): seq<string>
    decreases |s|
  {
    if s == "" then []
    else if IsSpace(s[0]) then Words(s[1..])
    else [s[..WordLength(s)]] + Words(s[WordLength(s)..])
  }

  function Lower(s: string, lower: char -> char): string { seq(|s|, i requires 0 <= i < |s| => lower(s[i])) }

  /** The trimmed, lower-cased, non-empty terms. */
  function Terms(raw: seq<string>, lower: char -> char): seq<string> {
    if raw == [] then []
    else
      var term := Lower(Trim(raw[0]), lower);
      (if term == "" then [] else [term]) + Terms(raw[1..], lower)
  }

  predicate OccursAt(s: string, t: string, i: nat) { i + |t| <= |s| && s[i .. i + |t|] == t }

  /** `indexOf`, from `i` on. */
  function IndexOf(s: string, t: string, i: nat): (r: Option<nat>)
    ensures r.Some? ==> i <= r.value && OccursAt(s, t, r.value) && forall j :: i <= j < r.value ==> !OccursAt(s, t, j)
    ensures r.None? ==> forall j :: i <= j ==> !OccursAt(s, t, j)
    decreases |s| - i
  {
    if i + |t| > |s| then None else if OccursAt(s, t, i) then Some(i) else IndexOf(s, t, i + 1)
  }

  /** The first term, in order, that occurs at all. */
  function FoundTerm(lowered: string, terms: seq<string>): Option<string> {
    if terms == [] then None
    else if IndexOf(lowered, terms[0], 0).Some? then Some(terms[0])
    else FoundTerm(lowered, terms[1..])
  }

  function Hit(lowered: string, terms: seq<string>): nat {
    var term := FoundTerm(lowered, terms);
    if term.None? then 0
    else var at := IndexOf(lowered, term.value, 0); if at.Some? then at.value else 0
  }

  function FirstSpace(s: string): (r: Option<nat>)
    ensures r.Some? ==> r.value < |s| && IsSpace(s[r.value]) && forall i :: 0 <= i < r.value ==> !IsSpace(s[i])
    ensures r.None? ==> forall i :: 0 <= i < |s| ==> !IsSpace(s[i])
  {
    if s == "" then None
    else if IsSpace(s[0]) then Some(0)
    else var rest := FirstSpace(s[1..]); if rest.Some? then Some(rest.value + 1) else None
  }

  function LastBlank(s: string): (r: Option<nat>)
    ensures r.Some? ==> r.value < |s| && s[r.value] == ' ' && forall i :: r.value < i < |s| ==> s[i] != ' '
    ensures r.None? ==> forall i :: 0 <= i < |s| ==> s[i] != ' '
  {
    if s == "" then None else if s[|s| - 1] == ' ' then Some(|s| - 1) else LastBlank(s[..|s| - 1])
  }

  /** Where the window starts before its edges move. */
  function RawStart(flat: string, hit: nat): nat { Max(0, Min(hit - EXCERPT_LEAD, |flat| - EXCERPT_LENGTH)) }

  /** The edges that avoid cutting a word: the window drops the word it would cut, if the word
      ends, or starts, within fifteen characters and the hit stays inside. */
  ghost predicate IsStart(flat: string, hit: nat, start: nat) {
    var raw := RawStart(flat, hit);
    var limit := Min(hit, raw + SNAP);
    && raw <= start <= Max(raw, limit) && start <= |flat| && limit <= |flat|
    && if raw > 0 && raw <= |flat| && IsWord(flat[raw - 1]) && exists i :: raw <= i < limit && IsSpace(flat[i])
       then start > raw && IsSpace(flat[start - 1]) && forall i :: raw <= i < start - 1 ==> !IsSpace(flat[i])
       else start == raw
  }

  ghost predicate IsEnd(flat: string, hit: nat, end: nat) {
    var raw := RawStart(flat, hit) + EXCERPT_LENGTH;
    && raw - SNAP <= end <= raw <= |flat|
    && if raw < |flat| && IsWord(flat[raw]) && exists i :: raw - SNAP <= i < raw && flat[i] == ' '
       then end < raw && flat[end] == ' ' && forall i :: end < i < raw ==> flat[i] != ' '
       else end == raw
  }

  /** The inner `space`: how far behind `from` the first white space before `to` is. */
  function Space(flat: string, from: nat, to: nat): (r: Option<nat>)
    requires from <= to <= |flat|
    ensures r.Some? ==>
              && from + r.value < to && IsSpace(flat[from + r.value])
              && forall i :: from <= i < from + r.value ==> !IsSpace(flat[i])
    ensures r.None? ==> forall i :: from <= i < to ==> !IsSpace(flat[i])
  {
    assert forall i :: from <= i < to ==> flat[i] == flat[from..to][i - from];
    FirstSpace(flat[from..to])
  }

  /** The last blank of the fifteen characters before `end`, counted from where they start. */
  function BlankBefore(flat: string, end: nat): (r: Option<nat>)
    requires SNAP <= end <= |flat|
    ensures r.Some? ==>
              && r.value < SNAP && flat[end - SNAP + r.value] == ' '
              && forall i :: end - SNAP + r.value < i < end ==> flat[i] != ' '
    ensures r.None? ==> forall i :: end - SNAP <= i < end ==> flat[i] != ' '
  {
    assert forall i :: end - SNAP <= i < end ==> flat[i] == flat[end - SNAP..end][i - (end - SNAP)];
    LastBlank(flat[end - SNAP..end])
  }

  method SnapStart(flat: string, hit: nat, raw: nat) returns (start: nat)
    requires |flat| > EXCERPT_LENGTH && hit < |flat| && raw == RawStart(flat, hit)
    ensures IsStart(flat, hit, start)
  {
    start := raw;
    if start > 0 && IsWord(flat[start - 1]) {
      var s := Space(flat, start, Min(hit, start + SNAP));
      if s.Some? { start := start + s.value + 1; }
    }
  }

  method SnapEnd(flat: string, hit: nat, raw: nat) returns (end: nat)
    requires |flat| > EXCERPT_LENGTH && hit < |flat| && raw == RawStart(flat, hit) + EXCERPT_LENGTH
    ensures IsEnd(flat, hit, end)
  {
    end := raw;
    if end < |flat| && IsWord(flat[end]) {
      var s := BlankBefore(flat, end);
      if s.Some? { end := end - (SNAP - s.value); }
    }
  }

  method Window(flat: string, hit: nat) returns (start: nat, end: nat)
    requires |flat| > EXCERPT_LENGTH && hit < |flat|
    ensures IsStart(flat, hit, start) && IsEnd(flat, hit, end)
    ensures start <= hit < end <= |flat| && 50 <= end - start <= EXCERPT_LENGTH && (end == |flat| || hit + 45 <= end)
  {
    var raw := Max(0, Min(hit - EXCERPT_LEAD, |flat| - EXCERPT_LENGTH));
    start := SnapStart(flat, hit, raw);
    end := SnapEnd(flat, hit, raw + EXCERPT_LENGTH);
    WindowHoldsTheHit(flat, hit, start, end);
  }

  /** The window lies in the text, has fifty to eighty characters, and holds the hit with the
      forty-five characters from it on, or all there are. */
  lemma WindowHoldsTheHit(flat: string, hit: nat, start: nat, end: nat)
    requires |flat| > EXCERPT_LENGTH && hit < |flat|
    requires IsStart(flat, hit, start) && IsEnd(flat, hit, end)
    ensures start <= hit < end <= |flat| && 50 <= end - start <= EXCERPT_LENGTH
    ensures end == |flat| || hit + 45 <= end
    ensures start == 0 || hit - start <= EXCERPT_LEAD || end == |flat|
  {
  }

  /** Where the first term of the query to occur does so; the whole query is the first term. */
  function HitIn(flat: string, query: string, lower: char -> char): nat {
    Hit(Lower(flat, lower), Terms([query] + Words(query), lower))
  }

  method Excerpt(text: string, query: string, lower: char -> char) returns (r: string)
    ensures var flat := FlattenText(text);
            if |flat| <= EXCERPT_LENGTH then r == flat
            else exists start, end :: IsExcerpt(flat, HitIn(flat, query, lower), start, end, r)
  {
    var flat := FlattenText(text);
    if |flat| <= EXCERPT_LENGTH { return flat; }
    var hit := HitIn(flat, query, lower);
    HitIsInside(Lower(flat, lower), [query] + Words(query), lower);
    var start, end := Window(flat, hit);
    WindowHoldsTheHit(flat, hit, start, end);
    r := (if start > 0 then ELLIPSIS else "") + Trim(flat[start..end]) + (if end < |flat| then ELLIPSIS else "");
    assert IsExcerpt(flat, hit, start, end, r);
  }

  ghost predicate IsExcerpt(flat: string, hit: nat, start: nat, end: nat, r: string) {
    && IsStart(flat, hit, start) && IsEnd(flat, hit, end) && start <= end <= |flat|
    && r == (if start > 0 then ELLIPSIS else "") + Trim(flat[start..end]) + (if end < |flat| then ELLIPSIS else "")
  }

  lemma {:induction false} TermsAreNotEmpty(raw: seq<string>, lower: char -> char)
    ensures forall t :: t in Terms(raw, lower) ==> t != ""
  {
    if raw != [] { TermsAreNotEmpty(raw[1..], lower); }
  }

  lemma {:induction false} FoundTermOccurs(lowered: string, terms: seq<string>)
    ensures var term := FoundTerm(lowered, terms);
            term.Some? ==> term.value in terms && OccursAt(lowered, term.value, Hit(lowered, terms))
  {
    if terms != [] { FoundTermOccurs(lowered, terms[1..]); }
  }

  lemma HitIsInside(lowered: string, raw: seq<string>, lower: char -> char)
    requires lowered != ""
    ensures Hit(lowered, Terms(raw, lower)) < |lowered|
  {
    TermsAreNotEmpty(raw, lower);
    FoundTermOccurs(lowered, Terms(raw, lower));
  }

  predicate Solid(s: string) { s != "" && !IsSpace(s[0]) && !IsSpace(s[|s| - 1]) }

  lemma {:induction false} TrimIsSolid(s: string)
    ensures Trim(s) == "" || Solid(Trim(s))
  {
    StartTrimmed(s);
    EndTrimmed(TrimStart(s));
  }

  lemma {:induction false} StartTrimmed(s: string)
    ensures TrimStart(s) == "" || !IsSpace(TrimStart(s)[0])
  {
    if s != "" && IsSpace(s[0]) { StartTrimmed(s[1..]); }
  }

  lemma {:induction false} EndTrimmed(s: string)
    ensures TrimEnd(s) <= s && (TrimEnd(s) == "" || !IsSpace(TrimEnd(s)[|TrimEnd(s)| - 1]))
  {
    if s != "" && IsSpace(s[|s| - 1]) { EndTrimmed(s[..|s| - 1]); }
  }

  lemma {:induction false} TermsAreSolid(raw: seq<string>, lower: char -> char)
    requires forall c :: IsSpace(lower(c)) <==> IsSpace(c)
    ensures forall t :: t in Terms(raw, lower) ==> Solid(t)
  {
    if raw != [] {
      TermsAreSolid(raw[1..], lower);
      TrimIsSolid(raw[0]);
    }
  }

  ghost predicate Shows(s: string, part: string) { exists i: nat :: OccursAt(s, part, i) }

  lemma {:induction false} TrimStartShows(s: string, part: string, i: nat)
    requires OccursAt(s, part, i) && Solid(part)
    ensures Shows(TrimStart(s), part)
  {
    if s != "" && IsSpace(s[0]) {
      assert part[0] == s[i];
      assert s[1..][i - 1 .. i - 1 + |part|] == s[i .. i + |part|];
      TrimStartShows(s[1..], part, i - 1);
    }
  }

  lemma {:induction false} TrimEndShows(s: string, part: string, i: nat)
    requires OccursAt(s, part, i) && Solid(part)
    ensures Shows(TrimEnd(s), part)
  {
    if s != "" && IsSpace(s[|s| - 1]) {
      assert part[|part| - 1] == s[i + |part| - 1];
      assert s[..|s| - 1][i .. i + |part|] == s[i .. i + |part|];
      TrimEndShows(s[..|s| - 1], part, i);
    }
  }

  /** The first of the terms that occurs, up to 45 characters long, can be read in `r` where it
      first occurs. */
  ghost predicate ShowsTheMatch(flat: string, terms: seq<string>, lower: char -> char, r: string) {
    var term, hit := FoundTerm(Lower(flat, lower), terms), Hit(Lower(flat, lower), terms);
    term.Some? && |term.value| <= 45 ==>
      && hit + |term.value| <= |flat|
      && Lower(flat[hit .. hit + |term.value|], lower) == term.value
      && Shows(r, flat[hit .. hit + |term.value|])
  }

  /** The reader sees the match, whatever the edges of the window did. */
  lemma MatchIsShown(text: string, query: string, lower: char -> char, start: nat, end: nat, r: string)
    requires forall c :: IsSpace(lower(c)) <==> IsSpace(c)
    requires |FlattenText(text)| > EXCERPT_LENGTH
    requires IsExcerpt(FlattenText(text), HitIn(FlattenText(text), query, lower), start, end, r)
    ensures ShowsTheMatch(FlattenText(text), Terms([query] + Words(query), lower), lower, r)
  {
    TermsAreSolid([query] + Words(query), lower);
    FoundIsShown(FlattenText(text), Terms([query] + Words(query), lower), lower, start, end, r);
  }

  lemma FoundIsShown(flat: string, terms: seq<string>, lower: char -> char, start: nat, end: nat, r: string)
    requires forall c :: IsSpace(lower(c)) <==> IsSpace(c)
    requires |flat| > EXCERPT_LENGTH && forall t :: t in terms ==> Solid(t)
    requires IsExcerpt(flat, Hit(Lower(flat, lower), terms), start, end, r)
    ensures ShowsTheMatch(flat, terms, lower, r)
  {
    var term, hit := FoundTerm(Lower(flat, lower), terms), Hit(Lower(flat, lower), terms);
    if term.Some? && |term.value| <= 45 {
      FoundTermOccurs(Lower(flat, lower), terms);
      OccurrenceIsShown(flat, hit, term.value, lower, start, end, r);
    }
  }

  lemma OccurrenceIsShown(flat: string, hit: nat, term: string, lower: char -> char, start: nat, end: nat, r: string)
    requires forall c :: IsSpace(lower(c)) <==> IsSpace(c)
    requires |flat| > EXCERPT_LENGTH && Solid(term) && |term| <= 45 && OccursAt(Lower(flat, lower), term, hit)
    requires IsExcerpt(flat, hit, start, end, r)
    ensures hit + |term| <= |flat| && Lower(flat[hit .. hit + |term|], lower) == term
            && Shows(r, flat[hit .. hit + |term|])
  {
    PartOfLower(flat, lower, hit, term);
    WindowHoldsTheHit(flat, hit, start, end);
    PartIsShown(flat, flat[hit .. hit + |term|], hit, start, end);
  }

  lemma PartIsShown(flat: string, part: string, hit: nat, start: nat, end: nat)
    requires Solid(part) && OccursAt(flat, part, hit) && start <= hit && hit + |part| <= end <= |flat|
    ensures Shows((if start > 0 then ELLIPSIS else "") + Trim(flat[start..end]) +
                  (if end < |flat| then ELLIPSIS else ""), part)
  {
    var window := flat[start..end];
    forall k | 0 <= k < |part| ensures window[hit - start .. hit - start + |part|][k] == part[k] {
      assert flat[hit .. hit + |part|][k] == flat[hit + k] == window[hit - start + k];
    }
    TrimStartShows(window, part, hit - start);
    var i: nat :| OccursAt(TrimStart(window), part, i);
    TrimEndShows(TrimStart(window), part, i);
    ShowsInside(if start > 0 then ELLIPSIS else "", Trim(window), if end < |flat| then ELLIPSIS else "", part);
  }

  lemma PartOfLower(flat: string, lower: char -> char, hit: nat, term: string)
    requires OccursAt(Lower(flat, lower), term, hit)
    ensures hit + |term| <= |flat| && Lower(flat[hit .. hit + |term|], lower) == term
    ensures (forall c :: IsSpace(lower(c)) <==> IsSpace(c)) && Solid(term) ==> Solid(flat[hit .. hit + |term|])
  {
    forall i | 0 <= i < |term| ensures term[i] == lower(flat[hit + i]) {
      assert Lower(flat, lower)[hit .. hit + |term|][i] == Lower(flat, lower)[hit + i];
    }
  }

  lemma ShowsInside(before: string, s: string, after: string, part: string)
    requires Shows(s, part)
    ensures Shows(before + s + after, part)
  {
    var i: nat :| OccursAt(s, part, i);
    var r := before + s + after;
    var at := |before| + i;
    forall k | 0 <= k < |part| ensures r[at .. at + |part|][k] == part[k] {
      assert r[at + k] == s[i + k] == s[i .. i + |part|][k];
    }
    assert OccursAt(r, part, at);
  }

  // ---------- Edges, flat text and hit, written out ----------

  /** The edges in numbers: the raw window of 80 starts 20 before the hit, as far as the text
      allows; each edge then moves by at most 15 so as not to cut a word. */
  lemma EdgesAre(flat: string, hit: nat, start: nat, end: nat)
    requires |flat| > 80 && hit < |flat| && IsStart(flat, hit, start) && IsEnd(flat, hit, end)
    ensures var raw := if hit < 20 then 0 else if hit - 20 < |flat| - 80 then hit - 20 else |flat| - 80;
            var limit := if hit < raw + 15 then hit else raw + 15;
            if raw > 0 && InWord(flat[raw - 1]) && (exists i :: raw <= i < limit && IsSpace(flat[i]))
            then && raw < start <= limit && IsSpace(flat[start - 1])
                 && forall i :: raw <= i < start - 1 ==> !IsSpace(flat[i])
            else start == raw
    ensures var last := if hit < 20 then 80 else if hit - 20 < |flat| - 80 then hit + 60 else |flat|;
            if last < |flat| && InWord(flat[last]) && (exists i :: last - 15 <= i < last && flat[i] == ' ')
            then last - 15 <= end < last && flat[end] == ' ' && forall i :: end < i < last ==> flat[i] != ' '
            else end == last
  {
  }

  predicate InWord(c: char) {
    48 <= c as int <= 57 || 65 <= c as int <= 90 || c as int == 95 || 97 <= c as int <= 122
  }

  /** Trimming drops white space at both ends, all of it and nothing else. */
  lemma TrimIs(s: string) returns (i: nat, j: nat)
    ensures i <= j <= |s| && Trim(s) == s[i..j]
    ensures forall k :: 0 <= k < i || j <= k < |s| ==> IsSpace(s[k])
    ensures i < j ==> !IsSpace(s[i]) && !IsSpace(s[j - 1])
  {
    i := TrimStartIs(s);
    j := TrimEndIs(s[i..]);
    assert s[i..][..j] == s[i..i + j];
    forall k | i + j <= k < |s| ensures IsSpace(s[k]) { assert s[i..][k - i] == s[k]; }
    j := i + j;
  }

  lemma {:induction false} TrimStartIs(s: string) returns (i: nat)
    ensures i <= |s| && TrimStart(s) == s[i..] && (i < |s| ==> !IsSpace(s[i]))
    ensures forall k :: 0 <= k < i ==> IsSpace(s[k])
  {
    if s != "" && IsSpace(s[0]) {
      i := TrimStartIs(s[1..]);
      forall k | 0 < k < i + 1 ensures IsSpace(s[k]) { assert s[1..][k - 1] == s[k]; }
      i := i + 1;
    } else {
      i := 0;
    }
  }

  lemma {:induction false} TrimEndIs(s: string) returns (j: nat)
    ensures j <= |s| && TrimEnd(s) == s[..j] && (j > 0 ==> !IsSpace(s[j - 1]))
    ensures forall k :: j <= k < |s| ==> IsSpace(s[k])
  {
    if s != "" && IsSpace(s[|s| - 1]) {
      j := TrimEndIs(s[..|s| - 1]);
    } else {
      j := |s|;
      assert s[..j] == s;
    }
  }

  /** White space is single blanks. */
  ghost predicate SingleBlanks(s: string) {
    && (forall i :: 0 <= i < |s| && IsSpace(s[i]) ==> s[i] == ' ')
    && forall i :: 0 <= i < |s| - 1 && IsSpace(s[i]) ==> !IsSpace(s[i + 1])
  }

  lemma {:induction false} CollapseIs(s: string)
    ensures SingleBlanks(Collapse(s)) && (s == "" <==> Collapse(s) == "")
    ensures s != "" ==> (IsSpace(s[0]) <==> IsSpace(Collapse(s)[0]))
  {
    if s != "" { CollapseIs(s[1..]); }
  }

  /** A character in front of a text joins its first word, begins a word, or is no word's. */
  lemma WordsCons(c: char, t: string)
    ensures IsSpace(c) ==> Words([c] + t) == Words(t)
    ensures !IsSpace(c) && (t == "" || IsSpace(t[0])) ==> Words([c] + t) == [[c]] + Words(t)
    ensures !IsSpace(c) && t != "" && !IsSpace(t[0]) ==>
              Words(t) != [] && Words([c] + t) == [[c] + Words(t)[0]] + Words(t)[1..]
  {
    var s := [c] + t;
    assert s[1..] == t;
    if !IsSpace(c) {
      var n := WordLength(t);
      assert WordLength(s) == 1 + n && s[..1 + n] == [c] + t[..n] && s[1 + n..] == t[n..];
      if t == "" || IsSpace(t[0]) { assert t[..0] == "" && t[0..] == t; }
    }
  }

  lemma {:induction false} CollapseKeepsWords(s: string)
    ensures Words(Collapse(s)) == Words(s)
  {
    if s != "" {
      var t := s[1..];
      assert s == [s[0]] + t;
      CollapseKeepsWords(t);
      CollapseIs(t);
      WordsCons(s[0], t);
      if !IsSpace(s[0]) {
        WordsCons(s[0], Collapse(t));
      } else if t == "" || !IsSpace(t[0]) {
        WordsCons(' ', Collapse(t));
      }
    }
  }

  lemma {:induction false} TrimStartKeepsWords(s: string)
    ensures Words(TrimStart(s)) == Words(s)
  {
    if s != "" && IsSpace(s[0]) { TrimStartKeepsWords(s[1..]); }
  }

  /** White space separates words. */
  lemma {:induction false} WordsSplit(a: string, c: char, b: string)
    requires IsSpace(c)
    ensures Words(a + [c] + b) == Words(a) + Words(b)
  {
    if a == "" {
      assert a + [c] + b == [c] + b;
      WordsCons(c, b);
    } else {
      var t := a[1..] + [c] + b;
      assert a + [c] + b == [a[0]] + t && a == [a[0]] + a[1..];
      WordsSplit(a[1..], c, b);
      WordsCons(a[0], a[1..]);
      WordsCons(a[0], t);
      assert t[0] == if a[1..] == "" then c else a[1..][0];
    }
  }

  /** What has none of it is one word. */
  lemma {:induction false} WordsOne(w: string)
    requires w != "" && forall i :: 0 <= i < |w| ==> !IsSpace(w[i])
    ensures Words(w) == [w]
  {
    assert w == [w[0]] + w[1..];
    WordsCons(w[0], w[1..]);
    if |w| > 1 {
      WordsOne(w[1..]);
    } else {
      assert w[1..] == "" && [w[0]] == w && Words("") == [];
    }
  }

  lemma {:induction false} TrimEndKeepsWords(s: string)
    ensures Words(TrimEnd(s)) == Words(s)
  {
    if s != "" && IsSpace(s[|s| - 1]) {
      var front, c := s[..|s| - 1], s[|s| - 1];
      TrimEndKeepsWords(front);
      WordsSplit(front, c, "");
      assert front + [c] + "" == s && Words(front) + [] == Words(front);
    }
  }

  /** The flat text: the same words, single blanks between them, none at the ends. */
  lemma FlatTextIs(text: string)
    ensures Words(FlattenText(text)) == Words(text) && SingleBlanks(FlattenText(text))
    ensures FlattenText(text) == "" || Solid(FlattenText(text))
  {
    var s := Collapse(text);
    CollapseKeepsWords(text);
    CollapseIs(text);
    TrimStartKeepsWords(s);
    TrimEndKeepsWords(TrimStart(s));
    TrimIsSolid(s);
    var i, j := TrimIs(s);
    assert forall k :: 0 <= k < j - i ==> s[i..j][k] == s[i + k];
  }

  lemma {:induction false} TermsConcat(a: seq<string>, b: seq<string>, lower: char -> char)
    ensures Terms(a + b, lower) == Terms(a, lower) + Terms(b, lower)
  {
    if a == [] {
      assert a + b == b;
    } else {
      assert (a + b)[1..] == a[1..] + b;
      TermsConcat(a[1..], b, lower);
    }
  }

  /** A raw term counts trimmed and in lower case, and not at all when it is blank. */
  lemma TermIs(raw: string, lower: char -> char)
    ensures Trim(raw) == "" ==> Terms([raw], lower) == []
    ensures Trim(raw) != "" ==>
              && |Terms([raw], lower)| == 1 && |Terms([raw], lower)[0]| == |Trim(raw)|
              && forall i :: 0 <= i < |Trim(raw)| ==> Terms([raw], lower)[0][i] == lower(Trim(raw)[i])
  {
    assert [raw][1..] == [] && Terms([], lower) == [];
  }

  /** The hit is where the first term that occurs does so first; without any, the beginning. */
  lemma {:induction false} HitIs(lowered: string, terms: seq<string>)
    ensures (forall t, i :: t in terms && 0 <= i ==> !OccursAt(lowered, t, i)) ==> Hit(lowered, terms) == 0
    ensures (exists t, i :: t in terms && 0 <= i && OccursAt(lowered, t, i)) ==>
              exists k :: 0 <= k < |terms| && HitsAt(lowered, terms, k, Hit(lowered, terms))
  {
    if terms != [] {
      var found := IndexOf(lowered, terms[0], 0);
      HitIs(lowered, terms[1..]);
      assert forall t :: t in terms[1..] ==> t in terms;
      if found.Some? {
        assert terms[0] in terms && OccursAt(lowered, terms[0], found.value);
        assert Hit(lowered, terms) == found.value && HitsAt(lowered, terms, 0, found.value);
      } else if t: string, i: nat :| t in terms && OccursAt(lowered, t, i) {
        assert terms == [terms[0]] + terms[1..];
        assert t in terms[1..];
        var k :| 0 <= k < |terms| - 1 && HitsAt(lowered, terms[1..], k, Hit(lowered, terms[1..]));
        assert forall j :: 0 <= j < |terms| - 1 ==> terms[1..][j] == terms[j + 1];
        assert HitsAt(lowered, terms, k + 1, Hit(lowered, terms));
      }
    }
  }

  ghost predicate HitsAt(lowered: string, terms: seq<string>, k: nat, hit: nat)
    requires k < |terms|
  {
    && OccursAt(lowered, terms[k], hit)
    && (forall i :: 0 <= i < hit ==> !OccursAt(lowered, terms[k], i))
    && forall j, i :: 0 <= j < k && 0 <= i ==> !OccursAt(lowered, terms[j], i)
  }
}
