/**
 * Inline references of a Markdown body: an explicit-stack walk of the syntax tree, the image
 * references and code ranges it meets, and the file-card lines that no code range covers.
 */
module InlineRefs {

  import opened StableSort
  import opened Wrappers

  datatype Range = Range(start: nat, end: nat)

  /** An `<img>` found in raw HTML, or a `!file[..](..)` line, by its place in the text. */
  datatype Match = Match(index: nat, length: nat, url: string, caption: string)

  datatype NodeKind =
    | Image(url: string, alt: string)
    | ImageReference(identifier: string, alt: string)
    | Definition(identifier: string, url: string)
    | Html(images: seq<Match>)
    | Code(fenced: bool)
    | InlineCode
    | Other

  /** A node of the Markdown tree; `position` is None where the parser recorded none. */
  datatype Node = Node(kind: NodeKind, position: Option<Range>, children: seq<Node>)

  datatype Ref = Ref(index: nat, url: string, filename: string, isFileCard: bool)

  // ---------- The walk ----------

  ghost function Preorder(node: Node): seq<Node> { [node] + PreorderAll(node.children) }

  ghost function PreorderAll(nodes: seq<Node>): seq<Node> {
    if nodes == [] then [] else Preorder(nodes[0]) + PreorderAll(nodes[1..])
  }

  ghost function Size(node: Node): nat { 1 + SizeAll(node.children) }

  ghost function SizeAll(nodes: seq<Node>): nat {
    if nodes == [] then 0 else Size(nodes[0]) + SizeAll(nodes[1..])
  }

  /** What is still to visit: the stack is popped from its end. */
  ghost function Todo(pending: seq<Node>): seq<Node> {
    if pending == [] then [] else Preorder(pending[|pending| - 1]) + Todo(pending[..|pending| - 1])
  }

  ghost function TodoSize(pending: seq<Node>): nat {
    if pending == [] then 0 else Size(pending[|pending| - 1]) + TodoSize(pending[..|pending| - 1])
  }

  /** Pushing children last to first leaves them to be visited first to last. */
  method PushChildren(pending: seq<Node>, children: seq<Node>) returns (pending': seq<Node>)
    ensures Todo(pending') == PreorderAll(children) + Todo(pending)
    ensures TodoSize(pending') == SizeAll(children) + TodoSize(pending)
  {
    pending' := pending;
    var i := |children|;
    assert children[i..] == [];
    while i > 0
      invariant 0 <= i <= |children|
      invariant Todo(pending') == PreorderAll(children[i..]) + Todo(pending)
      invariant TodoSize(pending') == SizeAll(children[i..]) + TodoSize(pending)
    {
      i := i - 1;
      PushOne(pending', children[i]);
      assert children[i..][0] == children[i] && children[i..][1..] == children[i + 1..];
      pending' := pending' + [children[i]];
    }
    assert children[0..] == children;
  }

  lemma PushOne(pending: seq<Node>, node: Node)
    ensures Todo(pending + [node]) == Preorder(node) + Todo(pending)
    ensures TodoSize(pending + [node]) == Size(node) + TodoSize(pending)
  {
    assert (pending + [node])[..|pending|] == pending;
  }

  /** The stack loop visits the tree in recursive preorder. */
  method Walk(tree: Node) returns (nodes: seq<Node>)
    ensures nodes == Preorder(tree)
  {
    nodes := [];
    var pending := [tree];
    PushOne([], tree);
    assert [] + [tree] == [tree];
    while |pending| > 0
      invariant nodes + Todo(pending) == Preorder(tree)
      decreases TodoSize(pending)
    {
      var node := pending[|pending| - 1];
      pending := pending[..|pending| - 1];
      nodes := nodes + [node];
      pending := PushChildren(pending, node.children);
    }
  }

  // ---------- Definitions: the first one wins ----------

  ghost predicate Defines(node: Node, identifier: string) {
    node.kind.Definition? && node.kind.identifier == identifier
  }

  ghost function FirstDefinition(nodes: seq<Node>, identifier: string): Option<string> {
    if nodes == [] then None
    else
      var earlier := FirstDefinition(nodes[..|nodes| - 1], identifier);
      if earlier.Some? || !Defines(nodes[|nodes| - 1], identifier) then earlier
      else Some(nodes[|nodes| - 1].kind.url)
  }

  ghost predicate MapsDefinitions(nodes: seq<Node>, definitions: map<string, string>) {
    forall id :: FirstDefinition(nodes, id) == if id in definitions then Some(definitions[id]) else None
  }

  method CollectDefinitions(nodes: seq<Node>) returns (definitions: map<string, string>)
    ensures MapsDefinitions(nodes, definitions)
  {
    definitions := map[];
    for i := 0 to |nodes|
      invariant MapsDefinitions(nodes[..i], definitions)
    {
      assert nodes[..i + 1][..i] == nodes[..i];
      match nodes[i].kind {
        case Definition(identifier, url) =>
          if identifier !in definitions { definitions := definitions[identifier := url]; }
        case _ =>
      }
    }
    assert nodes[..|nodes|] == nodes;
  }

  /** The definition used is one of the tree's, and none of its identifier stands before it. */
  lemma {:induction false} FirstDefinitionIsFirst(nodes: seq<Node>, identifier: string, k: nat)
    requires k < |nodes| && Defines(nodes[k], identifier)
    requires forall j :: 0 <= j < k ==> !Defines(nodes[j], identifier)
    ensures FirstDefinition(nodes, identifier) == Some(nodes[k].kind.url)
  {
    var front := nodes[..|nodes| - 1];
    if k < |front| {
      FirstDefinitionIsFirst(front, identifier, k);
    } else {
      NoDefinition(front, identifier);
    }
  }

  lemma {:induction false} NoDefinition(nodes: seq<Node>, identifier: string)
    requires forall j :: 0 <= j < |nodes| ==> !Defines(nodes[j], identifier)
    ensures FirstDefinition(nodes, identifier) == None
  {
    if nodes != [] { NoDefinition(nodes[..|nodes| - 1], identifier); }
  }

  // ---------- References and code ranges ----------

  function StartOf(node: Node): nat { if node.position.Some? then node.position.value.start else 0 }

  function HtmlRefs(index: nat, images: seq<Match>): seq<Ref> {
    if images == [] then []
    else
      var m := images[|images| - 1];
      HtmlRefs(index, images[..|images| - 1]) + if m.url != "" then [Ref(index + m.index, m.url, "", false)] else []
  }

  ghost function ImageRef(node: Node, url: Option<string>, alt: string, normalize: string -> string): seq<Ref> {
    if url.Some? && url.value != "" then [Ref(StartOf(node), normalize(url.value), alt, false)] else []
  }

  /** The references one node makes, given the whole tree's definitions. */
  ghost function RefsOf(nodes: seq<Node>, node: Node, normalize: string -> string): seq<Ref> {
    match node.kind
    case Image(url, alt) => ImageRef(node, Some(url), alt, normalize)
    case ImageReference(identifier, alt) => ImageRef(node, FirstDefinition(nodes, identifier), alt, normalize)
    case Html(images) => HtmlRefs(StartOf(node), images)
    case _ => []
  }

  /** Fenced blocks and code spans show their text literally; indented code does not. */
  predicate IsLiteralCode(node: Node) { node.kind.InlineCode? || (node.kind.Code? && node.kind.fenced) }

  function RangeOf(node: Node): Range {
    Range(StartOf(node), if node.position.Some? then node.position.value.end else StartOf(node))
  }

  ghost function AllRefs(nodes: seq<Node>, part: seq<Node>, normalize: string -> string): seq<Ref> {
    if part == [] then []
    else AllRefs(nodes, part[..|part| - 1], normalize) + RefsOf(nodes, part[|part| - 1], normalize)
  }

  ghost function CodeRanges(part: seq<Node>): seq<Range> {
    if part == [] then []
    else CodeRanges(part[..|part| - 1]) + if IsLiteralCode(part[|part| - 1]) then [RangeOf(part[|part| - 1])] else []
  }

  method CollectRefs(nodes: seq<Node>, definitions: map<string, string>, normalize: string -> string)
    returns (refs: seq<Ref>, codeRanges: seq<Range>)
    requires MapsDefinitions(nodes, definitions)
    ensures refs == AllRefs(nodes, nodes, normalize) && codeRanges == CodeRanges(nodes)
  {
    refs, codeRanges := [], [];
    for i := 0 to |nodes|
      invariant refs == AllRefs(nodes, nodes[..i], normalize) && codeRanges == CodeRanges(nodes[..i])
    {
      var node := nodes[i];
      assert nodes[..i + 1][..i] == nodes[..i];
      match node.kind {
        case Image(url, alt) =>
          if url != "" { refs := refs + [Ref(StartOf(node), normalize(url), alt, false)]; }
        case ImageReference(identifier, alt) =>
          assert FirstDefinition(nodes, identifier) ==
                 if identifier in definitions then Some(definitions[identifier]) else None;
          if identifier in definitions && definitions[identifier] != "" {
            refs := refs + [Ref(StartOf(node), normalize(definitions[identifier]), alt, false)];
          }
        case Html(images) =>
          var more := CollectHtml(StartOf(node), images);
          refs := refs + more;
        case Code(fenced) =>
          if fenced { codeRanges := codeRanges + [RangeOf(node)]; }
        case InlineCode =>
          codeRanges := codeRanges + [RangeOf(node)];
        case _ =>
      }
    }
    assert nodes[..|nodes|] == nodes;
  }

  method CollectHtml(index: nat, images: seq<Match>) returns (refs: seq<Ref>)
    ensures refs == HtmlRefs(index, images)
  {
    refs := [];
    for i := 0 to |images|
      invariant refs == HtmlRefs(index, images[..i])
    {
      assert images[..i + 1][..i] == images[..i];
      if images[i].url != "" { refs := refs + [Ref(index + images[i].index, images[i].url, "", false)]; }
    }
    assert images[..|images|] == images;
  }

  // ---------- File cards outside code ----------

  ghost predicate Overlaps(code: Range, m: Match) { code.start < m.index + m.length && m.index < code.end }

  ghost predicate InCode(ranges: seq<Range>, m: Match) { exists k :: 0 <= k < |ranges| && Overlaps(ranges[k], m) }

  /** Code leaves stand in document order. */
  ghost predicate InOrder(ranges: seq<Range>) {
    forall i, j :: 0 <= i < j < |ranges| ==> ranges[i].start <= ranges[j].start && ranges[i].end <= ranges[j].end
  }

  ghost predicate Increasing(matches: seq<Match>) {
    forall i, j :: 0 <= i < j < |matches| ==> matches[i].index < matches[j].index
  }

  /** The file cards that render: those no code range overlaps. */
  ghost function Cards(ranges: seq<Range>, matches: seq<Match>, unescape: string -> string): seq<Ref> {
    if matches == [] then []
    else
      var m := matches[|matches| - 1];
      Cards(ranges, matches[..|matches| - 1], unescape) +
        if InCode(ranges, m) || m.url == "" then [] else [Ref(m.index, m.url, unescape(m.caption), true)]
  }

  /** The two-pointer scan: `codeIndex` only moves forward. */
  method CollectCards(ranges: seq<Range>, matches: seq<Match>, unescape: string -> string) returns (refs: seq<Ref>)
    requires InOrder(ranges) && Increasing(matches)
    ensures refs == Cards(ranges, matches, unescape)
  {
    refs := [];
    var codeIndex := 0;
    for i := 0 to |matches|
      invariant refs == Cards(ranges, matches[..i], unescape)
      invariant 0 <= codeIndex <= |ranges|
      invariant forall k :: 0 <= k < codeIndex && i < |matches| ==> ranges[k].end <= matches[i].index
    {
      var m := matches[i];
      assert matches[..i + 1][..i] == matches[..i];
      while codeIndex < |ranges| && ranges[codeIndex].end <= m.index
        invariant 0 <= codeIndex <= |ranges|
        invariant forall k :: 0 <= k < codeIndex ==> ranges[k].end <= m.index
      {
        codeIndex := codeIndex + 1;
      }
      PointerDecides(ranges, codeIndex, m);
      if codeIndex < |ranges| && m.index + m.length > ranges[codeIndex].start {
      } else if m.url != "" {
        refs := refs + [Ref(m.index, m.url, unescape(m.caption), true)];
      }
      assert i + 1 < |matches| ==> m.index < matches[i + 1].index;
    }
    assert matches[..|matches|] == matches;
  }

  /** One comparison with the first range that ends behind the match decides the overlap. */
  lemma PointerDecides(ranges: seq<Range>, codeIndex: nat, m: Match)
    requires InOrder(ranges) && codeIndex <= |ranges|
    requires forall k :: 0 <= k < codeIndex ==> ranges[k].end <= m.index
    requires codeIndex < |ranges| ==> m.index < ranges[codeIndex].end
    ensures InCode(ranges, m) <==> codeIndex < |ranges| && m.index + m.length > ranges[codeIndex].start
  {
    if codeIndex < |ranges| && m.index + m.length > ranges[codeIndex].start {
      assert Overlaps(ranges[codeIndex], m);
    }
  }

  // ---------- extractInlineRefs ----------

  function Place(r: Ref): int { r.index }

  /** A fresh extraction: image references in preorder, then file cards, stably sorted by place. */
  ghost function Extracted(tree: Node, cards: seq<Match>, normalize: string -> string,
                           unescape: string -> string): seq<Ref> {
    var nodes := Preorder(tree);
    Sort(AllRefs(nodes, nodes, normalize) + Cards(CodeRanges(nodes), cards, unescape), Place)
  }

  /** The body of `extractInlineRefs` past the cache. */
  method ExtractInlineRefs(tree: Node, cards: seq<Match>, normalize: string -> string, unescape: string -> string)
    returns (refs: seq<Ref>)
    requires InOrder(CodeRanges(Preorder(tree))) && Increasing(cards)
    ensures refs == Extracted(tree, cards, normalize, unescape)
  {
    var nodes := Walk(tree);
    var definitions := CollectDefinitions(nodes);
    var codeRanges;
    refs, codeRanges := CollectRefs(nodes, definitions, normalize);
    var fileCards := CollectCards(codeRanges, cards, unescape);
    refs := Sort(refs + fileCards, Place);
  }

  // ---------- The references on the nodes' own fields ----------

  function Offset(node: Node): nat { match node.position case Some(range) => range.start case None => 0 }

  ghost predicate IsFirstDefinition(nodes: seq<Node>, k: nat, identifier: string) {
    && k < |nodes| && nodes[k].kind.Definition? && nodes[k].kind.identifier == identifier
    && forall j :: 0 <= j < k && nodes[j].kind.Definition? ==> nodes[j].kind.identifier != identifier
  }

  /** `r` is an image with a destination, a reference whose first definition has one, or an
      `<img>` of raw HTML that has one. */
  ghost predicate ComesFrom(nodes: seq<Node>, node: Node, r: Ref, normalize: string -> string) {
    && !r.isFileCard
    && match node.kind
       case Image(url, alt) => url != "" && r.index == Offset(node) && r.url == normalize(url) && r.filename == alt
       case ImageReference(identifier, alt) =>
         exists k: nat :: IsFirstDefinition(nodes, k, identifier) && nodes[k].kind.url != ""
                     && r.index == Offset(node) && r.url == normalize(nodes[k].kind.url) && r.filename == alt
       case Html(images) =>
         exists m :: m in images && m.url != ""
                     && r.index == Offset(node) + m.index && r.url == m.url && r.filename == ""
       case _ => false
  }

  /** The text of the node is shown as it is, and the match reaches into it. */
  ghost predicate ShownIn(node: Node, m: Match) {
    && (node.kind == InlineCode || node.kind == Code(true))
    && node.position.Some?
    && node.position.value.start < m.index + m.length && m.index < node.position.value.end
  }

  lemma FirstDefinitionIff(nodes: seq<Node>, identifier: string, k: nat)
    requires IsFirstDefinition(nodes, k, identifier)
    ensures FirstDefinition(nodes, identifier) == Some(nodes[k].kind.url)
  {
    forall j | 0 <= j < k ensures !Defines(nodes[j], identifier) {}
    FirstDefinitionIsFirst(nodes, identifier, k);
  }

  lemma {:induction false} FindDefinition(nodes: seq<Node>, identifier: string) returns (k: nat)
    requires FirstDefinition(nodes, identifier).Some?
    ensures IsFirstDefinition(nodes, k, identifier)
  {
    var front := nodes[..|nodes| - 1];
    if FirstDefinition(front, identifier).Some? {
      k := FindDefinition(front, identifier);
      assert forall j :: 0 <= j < |front| ==> front[j] == nodes[j];
    } else {
      k := |front|;
      forall j | 0 <= j < k && nodes[j].kind.Definition? ensures nodes[j].kind.identifier != identifier {
        if nodes[j].kind.identifier == identifier { NoneBefore(front, identifier, j); }
      }
    }
  }

  lemma {:induction false} NoneBefore(nodes: seq<Node>, identifier: string, j: nat)
    requires j < |nodes| && Defines(nodes[j], identifier)
    ensures FirstDefinition(nodes, identifier).Some?
  {
    if j < |nodes| - 1 { NoneBefore(nodes[..|nodes| - 1], identifier, j); }
  }

  lemma {:induction false} HtmlRefsMembers(index: nat, images: seq<Match>, r: Ref)
    ensures r in HtmlRefs(index, images) <==>
            exists m :: m in images && m.url != "" && r == Ref(index + m.index, m.url, "", false)
  {
    if images != [] {
      var front, last := images[..|images| - 1], images[|images| - 1];
      HtmlRefsMembers(index, front, r);
      assert images == front + [last];
    }
  }

  lemma RefsOfMembers(nodes: seq<Node>, node: Node, normalize: string -> string, r: Ref)
    ensures r in RefsOf(nodes, node, normalize) <==> ComesFrom(nodes, node, r, normalize)
  {
    match node.kind
    case ImageReference(identifier, alt) =>
      if FirstDefinition(nodes, identifier).Some? {
        var k := FindDefinition(nodes, identifier);
        FirstDefinitionIff(nodes, identifier, k);
      }
      if ComesFrom(nodes, node, r, normalize) {
        var k: nat :| IsFirstDefinition(nodes, k, identifier) && nodes[k].kind.url != ""
                 && r.index == Offset(node) && r.url == normalize(nodes[k].kind.url) && r.filename == alt;
        FirstDefinitionIff(nodes, identifier, k);
      }
    case Html(images) => HtmlRefsMembers(StartOf(node), images, r);
    case _ =>
  }

  lemma {:induction false} AllRefsMembers(nodes: seq<Node>, part: seq<Node>, normalize: string -> string, r: Ref)
    ensures r in AllRefs(nodes, part, normalize) <==>
            exists node :: node in part && ComesFrom(nodes, node, r, normalize)
  {
    if part != [] {
      var front, last := part[..|part| - 1], part[|part| - 1];
      AllRefsMembers(nodes, front, normalize, r);
      RefsOfMembers(nodes, last, normalize, r);
      assert part == front + [last];
    }
  }

  lemma ShownInIff(node: Node, m: Match)
    ensures ShownIn(node, m) <==> IsLiteralCode(node) && Overlaps(RangeOf(node), m)
  {
  }

  ghost predicate ShownInSome(part: seq<Node>, m: Match) { exists node :: node in part && ShownIn(node, m) }

  lemma ShownInPush(part: seq<Node>, node: Node, m: Match)
    ensures ShownInSome(part + [node], m) <==> ShownInSome(part, m) || ShownIn(node, m)
  {
    if ShownInSome(part, m) {
      var x :| x in part && ShownIn(x, m);
      assert x in part + [node];
    }
    assert node in part + [node];
  }

  lemma {:induction false} InCodeIff(part: seq<Node>, m: Match)
    ensures InCode(CodeRanges(part), m) <==> ShownInSome(part, m)
  {
    if part != [] {
      var front, last := part[..|part| - 1], part[|part| - 1];
      InCodeIff(front, m);
      assert part == front + [last];
      ShownInPush(front, last, m);
      ShownInIff(last, m);
      if IsLiteralCode(last) {
        InCodePush(CodeRanges(front), RangeOf(last), m);
      } else {
        assert CodeRanges(part) == CodeRanges(front);
      }
    }
  }

  lemma InCodePush(ranges: seq<Range>, range: Range, m: Match)
    ensures InCode(ranges + [range], m) <==> InCode(ranges, m) || Overlaps(range, m)
  {
    var all := ranges + [range];
    assert all[|ranges|] == range && forall k :: 0 <= k < |ranges| ==> all[k] == ranges[k];
  }

  lemma {:induction false} CardsMembers(ranges: seq<Range>, matches: seq<Match>, unescape: string -> string, r: Ref)
    ensures r in Cards(ranges, matches, unescape) <==>
            exists m :: m in matches && !InCode(ranges, m) && m.url != ""
                        && r == Ref(m.index, m.url, unescape(m.caption), true)
  {
    if matches != [] {
      var front, last := matches[..|matches| - 1], matches[|matches| - 1];
      CardsMembers(ranges, front, unescape, r);
      assert matches == front + [last];
    }
  }

  /** A file card for a match with a destination that reaches into no code shown as it is. */
  ghost predicate IsCard(nodes: seq<Node>, m: Match, r: Ref, unescape: string -> string) {
    && m.url != "" && r == Ref(m.index, m.url, unescape(m.caption), true)
    && forall node :: node in nodes ==> !ShownIn(node, m)
  }

  ghost predicate FromNodes(nodes: seq<Node>, r: Ref, normalize: string -> string) {
    exists node :: node in nodes && ComesFrom(nodes, node, r, normalize)
  }

  ghost predicate FromCards(nodes: seq<Node>, cards: seq<Match>, r: Ref, unescape: string -> string) {
    exists m :: m in cards && IsCard(nodes, m, r, unescape)
  }

  lemma CardsAre(nodes: seq<Node>, cards: seq<Match>, unescape: string -> string, r: Ref)
    ensures r in Cards(CodeRanges(nodes), cards, unescape) <==> FromCards(nodes, cards, r, unescape)
  {
    CardsMembers(CodeRanges(nodes), cards, unescape, r);
    forall m ensures InCode(CodeRanges(nodes), m) <==> ShownInSome(nodes, m) { InCodeIff(nodes, m); }
    if m: Match :| m in cards && IsCard(nodes, m, r, unescape) {
      assert !ShownInSome(nodes, m);
    }
  }

  lemma NodeRefsAre(nodes: seq<Node>, normalize: string -> string, r: Ref)
    ensures r in AllRefs(nodes, nodes, normalize) <==> FromNodes(nodes, r, normalize)
  {
    AllRefsMembers(nodes, nodes, normalize, r);
  }

  /** The references of a body, by ascending place: exactly those of its nodes, and the file
      cards outside code. */
  lemma ReferencesAre(tree: Node, cards: seq<Match>, normalize: string -> string, unescape: string -> string, r: Ref)
    ensures var refs := Extracted(tree, cards, normalize, unescape);
            forall i, j :: 0 <= i < j < |refs| ==> refs[i].index <= refs[j].index
    ensures r in Extracted(tree, cards, normalize, unescape) <==>
            FromNodes(Preorder(tree), r, normalize) || FromCards(Preorder(tree), cards, r, unescape)
  {
    var nodes := Preorder(tree);
    var fromNodes, fromCards := AllRefs(nodes, nodes, normalize), Cards(CodeRanges(nodes), cards, unescape);
    SortedByPlace(fromNodes + fromCards);
    NodeRefsAre(nodes, normalize, r);
    CardsAre(nodes, cards, unescape, r);
    SameMembers(fromNodes + fromCards, Sort(fromNodes + fromCards, Place), r);
  }

  lemma SortedByPlace(all: seq<Ref>)
    ensures multiset(Sort(all, Place)) == multiset(all)
    ensures var refs := Sort(all, Place); forall i, j :: 0 <= i < j < |refs| ==> refs[i].index <= refs[j].index
  {
    SortIsStable(all, Place, 0);
    var refs := Sort(all, Place);
    forall i, j | 0 <= i < j < |refs| ensures refs[i].index <= refs[j].index {
      assert Place(refs[i]) <= Place(refs[j]);
    }
  }

  lemma SameMembers(a: seq<Ref>, b: seq<Ref>, r: Ref)
    requires multiset(a) == multiset(b)
    ensures r in a <==> r in b
  {
    assert r in multiset(a) <==> r in multiset(b);
  }
}
