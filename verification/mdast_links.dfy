/** The span locator over a Markdown syntax tree (`get_links`, of which the
    repository holds three identical copies). The tree is the parser's
    output; each link node's source range is matched against the anchored
    pattern of its kind and the pattern's first group is the destination.
    The patterns follow CommonMark 0.30: inline links (section 6.3),
    autolinks (section 6.5) and link reference definitions (section 4.7). */
module MdastLinks {
  import opened Base
  import opened Splice

  /** `pos.start.offset..pos.end.offset` of a node. */
  datatype Position = Position(start: nat, end: nat)

  /** The node kinds that matter here; every other kind is `Other`. */
  datatype Node =
    | Link(position: Option<Position>, children: seq<Node>)
    | Definition(position: Option<Position>)
    | Heading(depth: nat, position: Option<Position>, children: seq<Node>)
    | Other(children: seq<Node>)

  /** `node.children()`, with no children for a definition. */
  function ChildrenOf(n: Node): seq<Node>
  {
    match n
    case Link(_, cs) => cs
    case Definition(_) => []
    case Heading(_, _, cs) => cs
    case Other(cs) => cs
  }

  /** `t[k]` is `a`, `t[k + 1]` is `b`, with `1 <= k` and `k + 2 <= limit`. */
  predicate PairAt(t: Text, a: char, b: char, limit: nat, k: nat)
    requires limit <= |t|
  {
    1 <= k && k + 2 <= limit && t[k] == a && t[k + 1] == b
  }

  /** A `](` that the inline pattern's label can end at. */
  predicate InlineOpenAt(t: Text, k: nat)
    requires |t| >= 1
  {
    PairAt(t, ']', '(', |t| - 1, k)
  }

  /** A `]:` that the definition pattern's label can end at. */
  predicate LabelEndAt(t: Text, k: nat)
  {
    PairAt(t, ']', ':', |t|, k)
  }

  /** The last such position: where a greedy `\[.*` must stop. */
  ghost predicate IsLastPair(t: Text, a: char, b: char, limit: nat, k: nat)
    requires limit <= |t|
  {
    PairAt(t, a, b, limit, k) && forall j :: k < j ==> !PairAt(t, a, b, limit, j)
  }

  ghost predicate IsLastInlineOpen(t: Text, k: nat)
    requires |t| >= 1
  {
    IsLastPair(t, ']', '(', |t| - 1, k)
  }

  ghost predicate IsLastLabelEnd(t: Text, k: nat)
  {
    IsLastPair(t, ']', ':', |t|, k)
  }

  /** Searches for the last pair from the right. */
  function LastPair(t: Text, a: char, b: char, limit: nat): (r: Option<nat>)
    requires limit <= |t|
    ensures r.Some? ==> IsLastPair(t, a, b, limit, r.value)
    ensures r.None? <==> forall k :: !PairAt(t, a, b, limit, k)
    decreases limit
  {
    if limit < 3 then None
    else if t[limit - 2] == a && t[limit - 1] == b then Some(limit - 2)
    else
      var r := LastPair(t, a, b, limit - 1);
      assert forall k :: PairAt(t, a, b, limit, k) && k != limit - 2 ==> PairAt(t, a, b, limit - 1, k);
      r
  }

  /** The group of `^\[.*\]\((?:\s*<)?(.*)(?:>\s*)?\)$` under leftmost-first
      matching: the greedy label stops at the last `](`; the optional `\s*<`
      is taken when whitespace and then `<` follow; the greedy group runs to
      just before the final `)`. */
  function InlineLinkCapture(t: Text): (r: Option<Span>)
    ensures r.Some? <==>
      |t| >= 2 && t[0] == '[' && t[|t| - 1] == ')' && exists k :: InlineOpenAt(t, k)
    ensures r.Some? ==> r.value.start <= r.value.end == |t| - 1
    ensures r.Some? ==> exists k: nat ::
      && |t| >= 1 && IsLastInlineOpen(t, k)
      && (|| r.value.start == k + 2
          || (k + 3 <= r.value.start && t[r.value.start - 1] == '<' &&
              forall i :: k + 2 <= i < r.value.start - 1 ==> IsWhitespace(t[i])))
  {
    if |t| < 2 || t[0] != '[' || t[|t| - 1] != ')' then None
    else match LastPair(t, ']', '(', |t| - 1)
      case None => None
      case Some(k) =>
        assert InlineOpenAt(t, k) && IsLastInlineOpen(t, k);
        var inner := t[k + 2..|t| - 1];
        var w := LeadingCount(inner, IsWhitespace);
        if w < |inner| && inner[w] == '<' then
          assert forall i :: k + 2 <= i < k + 2 + w ==> t[i] == inner[i - (k + 2)];
          assert t[k + 2 + w] == '<';
          Some(Span(k + 3 + w, |t| - 1))
        else Some(Span(k + 2, |t| - 1))
  }

  /** The group of `^<(.*)>$`: everything between the angle brackets. */
  function AutolinkCapture(t: Text): (r: Option<Span>)
    ensures r.Some? <==> |t| >= 2 && t[0] == '<' && t[|t| - 1] == '>'
    ensures r.Some? ==> r.value == Span(1, |t| - 1)
  {
    if |t| >= 2 && t[0] == '<' && t[|t| - 1] == '>' then Some(Span(1, |t| - 1)) else None
  }

  /** The group of `^\[.*\]:\s*(.*)$`: after the last `]:` and the whitespace
      that follows it, up to the end of the text. */
  function LinkLabelCapture(t: Text): (r: Option<Span>)
    ensures r.Some? <==> |t| >= 1 && t[0] == '[' && exists k :: LabelEndAt(t, k)
    ensures r.Some? ==> r.value.start <= r.value.end == |t|
    ensures r.Some? ==> r.value.start < |t| ==> !IsWhitespace(t[r.value.start])
    ensures r.Some? ==> exists k: nat ::
      && IsLastLabelEnd(t, k)
      && k + 2 <= r.value.start
      && forall i :: k + 2 <= i < r.value.start ==> IsWhitespace(t[i])
  {
    if |t| < 1 || t[0] != '[' then None
    else match LastPair(t, ']', ':', |t|)
      case None => None
      case Some(k) =>
        assert LabelEndAt(t, k) && IsLastLabelEnd(t, k);
        var w := LeadingCount(t[k + 2..], IsWhitespace);
        Some(Span(k + 2 + w, |t|))
  }

  /** The destination span of one link or definition node (`link_from_node`):
      an inline link is tried before an autolink; a node without position,
      a range outside the text or a text no pattern matches panics. */
  function NodeSpan(c: Text, m: Node): (r: Result<Span, Failure>)
    requires m.Link? || m.Definition?
    ensures r.Ok? ==>
      && m.position.Some? && SpanIn(r.value, |c|)
      && m.position.value.start <= r.value.start <= r.value.end <= m.position.value.end
    ensures r.Err? ==> r.error.Panic?
  {
    if m.position.None? then Err(Panic("Node doesn't have a position."))
    else
      var pos := m.position.value;
      if !(pos.start <= pos.end <= |c|) then Err(Panic("byte index out of range"))
      else
        var t := c[pos.start..pos.end];
        var cap := if m.Definition? then LinkLabelCapture(t)
                   else match InlineLinkCapture(t)
                     case Some(s) => Some(s)
                     case None => AutolinkCapture(t);
        match cap
        case None => Err(Panic("Parser Error: '" + t + "' is not a valid markdown link."))
        case Some(s) => Ok(Span(pos.start + s.start, pos.start + s.end))
  }

  /** What the span of a node is, by kind: an autolink's destination is
      everything between its angle brackets, an inline link's ends just
      before its closing parenthesis, a definition's runs to the end of the
      definition. */
  lemma {:induction false} NodeSpanShape(c: Text, m: Node)
    requires m.Link? || m.Definition?
    requires NodeSpan(c, m).Ok?
    ensures var p, s := m.position.value, NodeSpan(c, m).value;
      && p.start < p.end <= |c|
      && (m.Definition? ==> c[p.start] == '[' && s.end == p.end)
      && (m.Link? && c[p.start] == '<' ==> s == Span(p.start + 1, p.end - 1))
      && (m.Link? && c[p.start] != '<' ==> c[p.start] == '[' && s.end == p.end - 1 && c[s.end] == ')')
  {
    var p := m.position.value;
    assert c[p.start..p.end][0] == c[p.start];
  }

  /** A node whose text no pattern of its kind matches panics with the
      parser-error message. */
  lemma {:induction false} NodeSpanUnmatched(c: Text, m: Node)
    requires m.Link? || m.Definition?
    requires m.position.Some? && m.position.value.start <= m.position.value.end <= |c|
    requires var t := c[m.position.value.start..m.position.value.end];
      if m.Link? then InlineLinkCapture(t).None? && AutolinkCapture(t).None?
      else LinkLabelCapture(t).None?
    ensures NodeSpan(c, m) ==
      Err(Panic("Parser Error: '" + c[m.position.value.start..m.position.value.end] + "' is not a valid markdown link."))
  {
  }

  /** `get_links`: the node's own span (for a link or a definition), then the
      spans of its children in order; the first panic in that order wins. */
  function GetLinks(c: Text, n: Node): (r: Result<seq<Span>, Failure>)
    ensures r.Ok? ==> AllIn(r.value, |c|)
    ensures r.Err? ==> r.error.Panic?
    decreases n
  {
    match n
    case Link(_, cs) =>
      (match NodeSpan(c, n)
       case Err(f) => Err(f)
       case Ok(s) =>
         match GetLinksList(c, cs)
         case Err(f) => Err(f)
         case Ok(rest) => Ok([s] + rest))
    case Definition(_) =>
      (match NodeSpan(c, n)
       case Err(f) => Err(f)
       case Ok(s) => Ok([s]))
    case Heading(_, _, cs) => GetLinksList(c, cs)
    case Other(cs) => GetLinksList(c, cs)
  }

  /** The spans of a list of sibling nodes, in order. */
  function GetLinksList(c: Text, ns: seq<Node>): (r: Result<seq<Span>, Failure>)
    ensures r.Ok? ==> AllIn(r.value, |c|)
    ensures r.Err? ==> r.error.Panic?
    decreases ns
  {
    if ns == [] then Ok([])
    else
      match GetLinks(c, ns[0])
      case Err(f) => Err(f)
      case Ok(a) =>
        match GetLinksList(c, ns[1..])
        case Err(f) => Err(f)
        case Ok(b) => Ok(a + b)
  }

  /** Reference order of `get_links`: the link and definition nodes of the
      tree in pre-order (a node before its children, children left to right). */
  function LinkNodes(n: Node): (r: seq<Node>)
    ensures AllLinkNodes(r)
    decreases n
  {
    match n
    case Link(_, cs) => [n] + LinkNodesList(cs)
    case Definition(_) => [n]
    case Heading(_, _, cs) => LinkNodesList(cs)
    case Other(cs) => LinkNodesList(cs)
  }

  function LinkNodesList(ns: seq<Node>): (r: seq<Node>)
    ensures AllLinkNodes(r)
    decreases ns
  {
    if ns == [] then [] else LinkNodes(ns[0]) + LinkNodesList(ns[1..])
  }

  predicate AllLinkNodes(ms: seq<Node>)
  {
    forall i :: 0 <= i < |ms| ==> ms[i].Link? || ms[i].Definition?
  }

  /** A span in front of the spans that follow it, or the first failure. */
  function Cons(h: Result<Span, Failure>, r: Result<seq<Span>, Failure>): Result<seq<Span>, Failure>
  {
    match h
    case Err(f) => Err(f)
    case Ok(s) =>
      match r
      case Err(f) => Err(f)
      case Ok(rest) => Ok([s] + rest)
  }

  /** Two runs of spans one after the other, or the first failure. */
  function Concat(x: Result<seq<Span>, Failure>, y: Result<seq<Span>, Failure>): Result<seq<Span>, Failure>
  {
    match x
    case Err(f) => Err(f)
    case Ok(a) =>
      match y
      case Err(f) => Err(f)
      case Ok(b) => Ok(a + b)
  }

  /** The spans of a list of link nodes in order, stopping at the first
      node that panics. */
  function SpansOf(c: Text, ms: seq<Node>): Result<seq<Span>, Failure>
    requires AllLinkNodes(ms)
  {
    if ms == [] then Ok([]) else Cons(NodeSpan(c, ms[0]), SpansOf(c, ms[1..]))
  }

  /** One span per node, each the node's own; or the panic of the first
      node that panics, every node before it having a span. */
  lemma {:induction false} SpansOfMeaning(c: Text, ms: seq<Node>)
    requires AllLinkNodes(ms)
    ensures var r := SpansOf(c, ms);
      r.Ok? ==> |r.value| == |ms| && forall i :: 0 <= i < |ms| ==> NodeSpan(c, ms[i]) == Ok(r.value[i])
    ensures var r := SpansOf(c, ms);
      r.Err? ==> exists i ::
        && 0 <= i < |ms| && NodeSpan(c, ms[i]) == Err(r.error)
        && forall j :: 0 <= j < i ==> NodeSpan(c, ms[j]).Ok?
  {
    if ms != [] {
      var tail := ms[1..];
      SpansOfMeaning(c, tail);
      assert forall i :: 0 < i < |ms| ==> ms[i] == tail[i - 1];
      if NodeSpan(c, ms[0]).Ok? && SpansOf(c, tail).Err? {
        var f := SpansOf(c, tail).error;
        var i :| 0 <= i < |tail| && NodeSpan(c, tail[i]) == Err(f) &&
          forall j :: 0 <= j < i ==> NodeSpan(c, tail[j]).Ok?;
        assert NodeSpan(c, ms[i + 1]) == Err(f);
        assert forall j :: 0 <= j < i + 1 ==> NodeSpan(c, ms[j]).Ok?;
      }
    }
  }

  lemma {:induction false} ConsConcat(h: Result<Span, Failure>, x: Result<seq<Span>, Failure>, y: Result<seq<Span>, Failure>)
    ensures Cons(h, Concat(x, y)) == Concat(Cons(h, x), y)
  {
    if h.Ok? && x.Ok? && y.Ok? {
      assert [h.value] + (x.value + y.value) == ([h.value] + x.value) + y.value;
    }
  }

  /** The spans of two lists of link nodes, concatenated: the first failure
      of the first list, else the first failure of the second, else both
      lists of spans one after the other. */
  lemma {:induction false} SpansOfAppend(c: Text, a: seq<Node>, b: seq<Node>)
    requires AllLinkNodes(a) && AllLinkNodes(b)
    ensures AllLinkNodes(a + b)
    ensures SpansOf(c, a + b) == Concat(SpansOf(c, a), SpansOf(c, b))
    decreases |a|
  {
    if a == [] {
      assert a + b == b;
      if SpansOf(c, b).Ok? {
        assert [] + SpansOf(c, b).value == SpansOf(c, b).value;
      }
    } else {
      var ab := a + b;
      assert AllLinkNodes(ab);
      assert ab[0] == a[0] && ab[1..] == a[1..] + b;
      SpansOfAppend(c, a[1..], b);
      ConsConcat(NodeSpan(c, a[0]), SpansOf(c, a[1..]), SpansOf(c, b));
    }
  }

  /** `get_links` yields exactly one span per link or definition node, in
      pre-order, and fails with the panic of the first such node that fails. */
  lemma {:induction false} GetLinksIsPreorder(c: Text, n: Node)
    ensures GetLinks(c, n) == SpansOf(c, LinkNodes(n))
    decreases n
  {
    match n
    case Link(_, cs) =>
      GetLinksListIsPreorder(c, cs);
      SpansOfAppend(c, [n], LinkNodesList(cs));
    case Definition(_) =>
      assert [n][1..] == [];
      if NodeSpan(c, n).Ok? {
        assert [NodeSpan(c, n).value] + [] == [NodeSpan(c, n).value];
      }
    case Heading(_, _, cs) =>
      GetLinksListIsPreorder(c, cs);
    case Other(cs) =>
      GetLinksListIsPreorder(c, cs);
  }

  lemma {:induction false} GetLinksListIsPreorder(c: Text, ns: seq<Node>)
    ensures GetLinksList(c, ns) == SpansOf(c, LinkNodesList(ns))
    decreases ns
  {
    if ns != [] {
      GetLinksIsPreorder(c, ns[0]);
      GetLinksListIsPreorder(c, ns[1..]);
      SpansOfAppend(c, LinkNodes(ns[0]), LinkNodesList(ns[1..]));
    }
  }

  /** The document of the repository's own round-trip test, as the parser
      sees it: a paragraph holding an inline link, a space and an autolink,
      then a link reference definition. */
  const ExampleInline: Text := "[foo](bar.md)"
  const ExampleAutolink: Text := "<https://bbc.co.uk>"
  const ExampleDefinition: Text := "[bar]: ./foo.md"
  const ExampleText: Text := ExampleInline + " " + ExampleAutolink + "\n\n" + ExampleDefinition + "\n"

  const ExampleTree: Node :=
    Other([
      Other([
        Link(Some(Position(0, 13)), [Other([])]),
        Other([]),
        Link(Some(Position(14, 33)), [Other([])])]),
      Definition(Some(Position(35, 50)))])

  /** The inline link's destination is `bar.md`. */
  lemma {:induction false} ExampleInlineCapture()
    ensures InlineLinkCapture(ExampleInline) == Some(Span(6, 12))
  {
    var t := ExampleInline;
    assert LastPair(t, ']', '(', 6) == Some(4);
    assert LastPair(t, ']', '(', 8) == Some(4);
    assert LastPair(t, ']', '(', 10) == Some(4);
    assert LastPair(t, ']', '(', 12) == Some(4);
    assert LeadingCount(t[6..12], IsWhitespace) == 0;
  }

  /** The definition's destination is `./foo.md`, after the space. */
  lemma {:induction false} ExampleLabelCapture()
    ensures LinkLabelCapture(ExampleDefinition) == Some(Span(7, 15))
  {
    var t := ExampleDefinition;
    assert LastPair(t, ']', ':', 6) == Some(4);
    assert LastPair(t, ']', ':', 8) == Some(4);
    assert LastPair(t, ']', ':', 10) == Some(4);
    assert LastPair(t, ']', ':', 12) == Some(4);
    assert LastPair(t, ']', ':', 14) == Some(4);
    assert LastPair(t, ']', ':', 15) == Some(4);
    assert t[6..][0] == ' ' && t[6..][1] == '.';
    assert LeadingCount(t[6..], IsWhitespace) == 1;
  }

  /** An in-range link node whose text matches the inline pattern. */
  lemma {:induction false} InlineNodeSpan(c: Text, p: Position, cs: seq<Node>, s: Span)
    requires p.start <= p.end <= |c|
    requires InlineLinkCapture(c[p.start..p.end]) == Some(s)
    ensures NodeSpan(c, Link(Some(p), cs)) == Ok(Span(p.start + s.start, p.start + s.end))
  {
  }

  /** The inline link `[foo](bar.md)`. */
  lemma {:induction false} ExampleInlineSpan()
    ensures NodeSpan(ExampleText, ExampleTree.children[0].children[0]) == Ok(Span(6, 12))
  {
    assert ExampleText[0..13] == ExampleInline;
    ExampleInlineCapture();
    InlineNodeSpan(ExampleText, Position(0, 13), [Other([])], Span(6, 12));
  }

  /** The autolink `<https://bbc.co.uk>`. */
  lemma {:induction false} ExampleAutolinkSpan()
    ensures NodeSpan(ExampleText, ExampleTree.children[0].children[2]) == Ok(Span(15, 32))
  {
    assert ExampleText[14..33] == ExampleAutolink;
    assert InlineLinkCapture(ExampleAutolink) == None;
  }

  /** The definition `[bar]: ./foo.md`. */
  lemma {:induction false} ExampleDefinitionSpan()
    ensures NodeSpan(ExampleText, ExampleTree.children[1]) == Ok(Span(42, 50))
  {
    assert ExampleText[35..50] == ExampleDefinition;
    ExampleLabelCapture();
  }

  /** The document's link nodes in pre-order: both links, then the definition. */
  lemma {:induction false} ExampleLinkNodes()
    ensures LinkNodes(ExampleTree) ==
      [ExampleTree.children[0].children[0], ExampleTree.children[0].children[2], ExampleTree.children[1]]
  {
    var ns := ExampleTree.children[0].children;
    assert LinkNodesList([Other([])]) == [];
    assert LinkNodes(ns[0]) == [ns[0]];
    assert LinkNodes(ns[2]) == [ns[2]];
    assert LinkNodesList(ns[2..]) == [ns[2]];
    assert LinkNodesList(ns[1..]) == [ns[2]];
    assert LinkNodesList(ns) == [ns[0], ns[2]];
    assert LinkNodesList(ExampleTree.children[1..]) == [ExampleTree.children[1]];
  }

  lemma {:induction false} SpansOfThree(c: Text, ms: seq<Node>, s1: Span, s2: Span, s3: Span)
    requires |ms| == 3 && AllLinkNodes(ms)
    requires NodeSpan(c, ms[0]) == Ok(s1) && NodeSpan(c, ms[1]) == Ok(s2) && NodeSpan(c, ms[2]) == Ok(s3)
    ensures SpansOf(c, ms) == Ok([s1, s2, s3])
  {
    assert ms[3..] == [];
    assert ms[2..][0] == ms[2] && ms[2..][1..] == ms[3..];
    assert [s3] + [] == [s3];
    assert SpansOf(c, ms[2..]) == Ok([s3]);
    assert ms[1..][0] == ms[1] && ms[1..][1..] == ms[2..];
    assert [s2] + [s3] == [s2, s3];
    assert SpansOf(c, ms[1..]) == Ok([s2, s3]);
    assert [s1] + [s2, s3] == [s1, s2, s3];
  }

  /** The destinations found in that document: `bar.md`, `https://bbc.co.uk`
      and `./foo.md`. */
  lemma {:induction false} ExampleLinks()
    ensures GetLinks(ExampleText, ExampleTree) == Ok([Span(6, 12), Span(15, 32), Span(42, 50)])
  {
    GetLinksIsPreorder(ExampleText, ExampleTree);
    ExampleLinkNodes();
    ExampleInlineSpan();
    ExampleAutolinkSpan();
    ExampleDefinitionSpan();
    SpansOfThree(ExampleText, LinkNodes(ExampleTree), Span(6, 12), Span(15, 32), Span(42, 50));
  }

  /** The chapter of the mdBook preprocessors' tests: the example's paragraph
      alone. */
  const ChapterText: Text := ExampleInline + " " + ExampleAutolink + "\n"

  const ChapterTree: Node := Other([ExampleTree.children[0]])

  /** The chapter's link nodes: the inline link, then the autolink. */
  lemma {:induction false} ChapterLinkNodes()
    ensures LinkNodes(ChapterTree) == [ExampleTree.children[0].children[0], ExampleTree.children[0].children[2]]
  {
    var ns := ExampleTree.children[0].children;
    assert LinkNodesList([Other([])]) == [];
    assert LinkNodes(ns[0]) == [ns[0]];
    assert LinkNodes(ns[2]) == [ns[2]];
    assert LinkNodesList(ns[2..]) == [ns[2]];
    assert LinkNodesList(ns[1..]) == [ns[2]];
    assert LinkNodesList(ns) == [ns[0], ns[2]];
    var para := ExampleTree.children[0];
    assert LinkNodes(para) == [ns[0], ns[2]];
    assert ChapterTree.children == [para] && [para][1..] == [];
    assert LinkNodesList([para]) == LinkNodes(para) + LinkNodesList([]);
  }

  /** The chapter's two spans, each of its own node. */
  lemma {:induction false} ChapterNodeSpans()
    ensures NodeSpan(ChapterText, ExampleTree.children[0].children[0]) == Ok(Span(6, 12))
    ensures NodeSpan(ChapterText, ExampleTree.children[0].children[2]) == Ok(Span(15, 32))
  {
    var c := ChapterText;
    assert c[0..13] == ExampleInline;
    ExampleInlineCapture();
    InlineNodeSpan(c, Position(0, 13), [Other([])], Span(6, 12));
    assert c[14..33] == ExampleAutolink;
    assert InlineLinkCapture(ExampleAutolink) == None;
  }

  /** The destinations found in the chapter: `bar.md` and `https://bbc.co.uk`. */
  lemma {:induction false} ChapterLinks()
    ensures GetLinks(ChapterText, ChapterTree) == Ok([Span(6, 12), Span(15, 32)])
  {
    var c := ChapterText;
    GetLinksIsPreorder(c, ChapterTree);
    ChapterLinkNodes();
    ChapterNodeSpans();
    var ms := LinkNodes(ChapterTree);
    assert ms[1..] == [ms[1]] && [ms[1]][1..] == [];
    assert SpansOf(c, [ms[1]]) == Cons(Ok(Span(15, 32)), Ok([]));
    assert [Span(15, 32)] + [] == [Span(15, 32)];
    assert [Span(6, 12)] + [Span(15, 32)] == [Span(6, 12), Span(15, 32)];
  }
}
