/** The tree-sitter variant of the tools (mdutils): the destination spans
    come from two parser queries, the block tree's `link_destination` nodes
    and then the inline trees' `link_destination` and `uri_autolink` nodes;
    they are sorted by start before the rewrite loop runs over them. */
module TsLinks {
  import opened Base
  import opened Splice
  import opened MdastLinks
  import opened Rewrite
  import opened Rules

  /** The two node kinds the queries capture. */
  datatype CaptureKind = LinkDestination | UriAutolink

  /** One captured node: its kind and its character range. */
  datatype Capture = Capture(kind: CaptureKind, range: Span)

  /** What the parser guarantees of a capture: a proper range, and an
      autolink node that holds at least its two angle brackets. */
  predicate Proper(k: Capture)
  {
    && k.range.start <= k.range.end
    && (k.kind == UriAutolink ==> k.range.start + 2 <= k.range.end)
  }

  predicate AllProper(ks: seq<Capture>)
  {
    forall i :: 0 <= i < |ks| ==> Proper(ks[i])
  }

  /** A proper capture over the text, with the brackets of an autolink in
      place: what the parser hands over for a document. */
  predicate InText(c: Text, k: Capture)
  {
    && Proper(k)
    && k.range.end <= |c|
    && (k.kind == UriAutolink ==> c[k.range.start] == '<' && c[k.range.end - 1] == '>')
  }

  /** The destination of one capture: an autolink loses its `<` and `>`,
      a link destination is kept whole. */
  function CaptureSpan(k: Capture): (r: Span)
    requires Proper(k)
    ensures k.range.start <= r.start <= r.end <= k.range.end
    ensures k.kind == LinkDestination ==> r == k.range
    ensures k.kind == UriAutolink ==> r.end - r.start + 2 == k.range.end - k.range.start
  {
    match k.kind
    case UriAutolink => Span(k.range.start + 1, k.range.end - 1)
    case LinkDestination => k.range
  }

  /** The destinations of a run of captures, in capture order. */
  function CaptureSpans(ks: seq<Capture>): (r: seq<Span>)
    requires AllProper(ks)
    ensures |r| == |ks|
    ensures forall i :: 0 <= i < |ks| ==> r[i] == CaptureSpan(ks[i])
    decreases |ks|
  {
    if ks == [] then [] else [CaptureSpan(ks[0])] + CaptureSpans(ks[1..])
  }

  /** `get_links` of mdutils: every block capture, then every inline
      capture, so the result is not in document order. */
  function TsGetLinks(block: seq<Capture>, inline: seq<Capture>): (r: seq<Span>)
    requires AllProper(block) && AllProper(inline)
    ensures |r| == |block| + |inline|
    ensures forall i :: 0 <= i < |block| ==> r[i] == CaptureSpan(block[i])
    ensures forall i :: 0 <= i < |inline| ==> r[|block| + i] == CaptureSpan(inline[i])
  {
    assert forall i :: 0 <= i < |block| + |inline| ==>
      (block + inline)[i] == if i < |block| then block[i] else inline[i - |block|];
    CaptureSpans(block + inline)
  }

  /** A capture's destination agrees with the markdown-rs locator: the span
      of an autolink node is what the anchored pattern `^<(.*)>$` captures
      of the node's text, and every destination lies inside its node. */
  lemma {:induction false} AutolinkAgrees(c: Text, k: Capture)
    requires InText(c, k) && k.kind == UriAutolink
    ensures var r, t := CaptureSpan(k), c[k.range.start..k.range.end];
      AutolinkCapture(t) == Some(Span(r.start - k.range.start, r.end - k.range.start))
  {
  }

  predicate AllInText(c: Text, ks: seq<Capture>)
  {
    forall i :: 0 <= i < |ks| ==> InText(c, ks[i])
  }

  /** Destinations of captures in the text lie in the text. */
  lemma {:induction false} TsLinksIn(c: Text, block: seq<Capture>, inline: seq<Capture>)
    requires AllInText(c, block) && AllInText(c, inline)
    ensures AllProper(block) && AllProper(inline)
    ensures AllIn(TsGetLinks(block, inline), |c|)
  {
  }

  /** `links.sort_by_key(|range| range.start)`: a stable sort by start,
      written as an insertion sort; `x` goes before the first span that
      does not start before it. */
  function InsertByStart(x: Span, s: seq<Span>): seq<Span>
    decreases |s|
  {
    if s == [] || x.start <= s[0].start then [x] + s
    else [s[0]] + InsertByStart(x, s[1..])
  }

  function SortByStart(s: seq<Span>): seq<Span>
    decreases |s|
  {
    if s == [] then [] else InsertByStart(s[0], SortByStart(s[1..]))
  }

  predicate SortedByStart(s: seq<Span>)
  {
    forall i, j :: 0 <= i < j < |s| ==> s[i].start <= s[j].start
  }

  /** The spans of `s` that start at `v`, in order. */
  function StartingAt(s: seq<Span>, v: nat): seq<Span>
    decreases |s|
  {
    if s == [] then []
    else if s[0].start == v then [s[0]] + StartingAt(s[1..], v)
    else StartingAt(s[1..], v)
  }

  /** Insertion puts the new span before every span with its start. */
  lemma {:induction false} InsertStable(x: Span, s: seq<Span>, v: nat)
    ensures StartingAt(InsertByStart(x, s), v) ==
      if x.start == v then [x] + StartingAt(s, v) else StartingAt(s, v)
    decreases |s|
  {
    if s == [] || x.start <= s[0].start {
      assert ([x] + s)[1..] == s;
    } else {
      InsertStable(x, s[1..], v);
      assert ([s[0]] + InsertByStart(x, s[1..]))[1..] == InsertByStart(x, s[1..]);
    }
  }

  /** The sort is stable: spans with the same start keep their order. */
  lemma {:induction false} SortStable(s: seq<Span>, v: nat)
    ensures StartingAt(SortByStart(s), v) == StartingAt(s, v)
    decreases |s|
  {
    if s != [] {
      SortStable(s[1..], v);
      InsertStable(s[0], SortByStart(s[1..]), v);
    }
  }

  /** Insertion keeps the spans and adds the new one. */
  lemma {:induction false} InsertPermutes(x: Span, s: seq<Span>)
    ensures multiset(InsertByStart(x, s)) == multiset(s) + multiset{x}
    decreases |s|
  {
    if s != [] && x.start > s[0].start {
      InsertPermutes(x, s[1..]);
      assert s == [s[0]] + s[1..];
    }
  }

  /** Insertion into a sorted sequence keeps it sorted. */
  lemma {:induction false} InsertSorted(x: Span, s: seq<Span>)
    requires SortedByStart(s)
    ensures SortedByStart(InsertByStart(x, s))
    decreases |s|
  {
    if s != [] && x.start > s[0].start {
      var t := InsertByStart(x, s[1..]);
      InsertSorted(x, s[1..]);
      InsertPermutes(x, s[1..]);
      forall k | 0 <= k < |t|
        ensures s[0].start <= t[k].start
      {
        assert t[k] in multiset(t);
        assert t[k] == x || t[k] in s[1..];
      }
    }
  }

  /** The sort yields a sorted permutation of its input. */
  lemma {:induction false} SortSpec(s: seq<Span>)
    ensures SortedByStart(SortByStart(s))
    ensures multiset(SortByStart(s)) == multiset(s)
    decreases |s|
  {
    if s != [] {
      SortSpec(s[1..]);
      InsertSorted(s[0], SortByStart(s[1..]));
      InsertPermutes(s[0], SortByStart(s[1..]));
      assert s == [s[0]] + s[1..];
    }
  }

  /** Two spans that do not overlap. */
  predicate Apart(x: Span, y: Span)
  {
    x.end <= y.start || y.end <= x.start
  }

  predicate ApartFromAll(x: Span, s: seq<Span>)
  {
    forall y :: y in s ==> Apart(x, y)
  }

  /** No two spans of the sequence overlap. */
  predicate NonOverlapping(s: seq<Span>)
    decreases |s|
  {
    s == [] || (ApartFromAll(s[0], s[1..]) && NonOverlapping(s[1..]))
  }

  /** Insertion of a span apart from all others keeps them non-overlapping. */
  lemma {:induction false} InsertNonOverlapping(x: Span, s: seq<Span>)
    requires ApartFromAll(x, s) && NonOverlapping(s)
    ensures NonOverlapping(InsertByStart(x, s))
    decreases |s|
  {
    if s != [] && x.start > s[0].start {
      var t := InsertByStart(x, s[1..]);
      InsertNonOverlapping(x, s[1..]);
      InsertPermutes(x, s[1..]);
      assert s[0] in s;
      forall y | y in t
        ensures Apart(s[0], y)
      {
        assert y in multiset(t);
        assert y == x || y in s[1..];
      }
    }
  }

  /** Sorting keeps non-overlapping spans non-overlapping. */
  lemma {:induction false} SortNonOverlapping(s: seq<Span>)
    requires NonOverlapping(s)
    ensures NonOverlapping(SortByStart(s))
    decreases |s|
  {
    if s != [] {
      var t := SortByStart(s[1..]);
      SortNonOverlapping(s[1..]);
      SortSpec(s[1..]);
      forall y | y in t
        ensures Apart(s[0], y)
      {
        assert y in multiset(t);
      }
      InsertNonOverlapping(s[0], t);
    }
  }

  predicate AllNonEmpty(s: seq<Span>)
  {
    forall i :: 0 <= i < |s| ==> s[i].start < s[i].end
  }

  /** Sorted, non-overlapping, non-empty spans are ascending: each ends
      before the next starts. */
  lemma {:induction false} SortedApartAscending(s: seq<Span>)
    requires SortedByStart(s) && NonOverlapping(s) && AllNonEmpty(s)
    ensures Ascending(s)
    decreases |s|
  {
    if s != [] {
      var rest := s[1..];
      assert SortedByStart(rest) && AllNonEmpty(rest) by {
        assert forall i :: 0 <= i < |rest| ==> rest[i] == s[i + 1];
      }
      SortedApartAscending(rest);
      forall i, j | 0 <= i < j < |s|
        ensures s[i].end <= s[j].start
      {
        if i == 0 {
          assert s[j] == rest[j - 1] && s[j] in rest;
        } else {
          assert s[i] == rest[i - 1] && s[j] == rest[j - 1];
        }
      }
    }
  }

  /** Sorting a non-overlapping set of non-empty spans makes them ascending. */
  lemma {:induction false} SortAscending(s: seq<Span>)
    requires NonOverlapping(s) && AllNonEmpty(s)
    ensures Ascending(SortByStart(s))
  {
    var t := SortByStart(s);
    SortSpec(s);
    SortNonOverlapping(s);
    forall i | 0 <= i < |t|
      ensures t[i].start < t[i].end
    {
      assert t[i] in multiset(s);
      var j :| 0 <= j < |s| && s[j] == t[i];
    }
    SortedApartAscending(t);
  }

  /** A permutation of spans in the text is in the text. */
  lemma {:induction false} PermutedIn(s: seq<Span>, t: seq<Span>, n: nat)
    requires multiset(s) == multiset(t) && AllIn(s, n)
    ensures AllIn(t, n)
  {
    forall i | 0 <= i < |t|
      ensures SpanIn(t[i], n)
    {
      assert t[i] in multiset(s);
      var j :| 0 <= j < |s| && s[j] == t[i];
    }
  }

  /** Whether every destination is declined does not depend on the order in
      which the spans are visited. */
  lemma {:induction false} PermutedDeclined(c: Text, s: seq<Span>, t: seq<Span>, decide: Decider)
    requires multiset(s) == multiset(t) && AllIn(s, |c|) && AllIn(t, |c|)
    ensures AllDeclined(c, s, decide) <==> AllDeclined(c, t, decide)
  {
    if AllDeclined(c, s, decide) {
      forall i | 0 <= i < |t|
        ensures decide(LinkText(c, t[i])) == Ok(None)
      {
        assert t[i] in multiset(s);
        var j :| 0 <= j < |s| && s[j] == t[i];
      }
    }
    if AllDeclined(c, t, decide) {
      forall i | 0 <= i < |s|
        ensures decide(LinkText(c, s[i])) == Ok(None)
      {
        assert s[i] in multiset(t);
        var j :| 0 <= j < |t| && t[j] == s[i];
      }
    }
  }

  /** The spans `replace_links` of mdutils visits: the captures' destinations
      sorted by start. */
  function TsSortedLinks(c: Text, block: seq<Capture>, inline: seq<Capture>): (r: seq<Span>)
    requires AllInText(c, block) && AllInText(c, inline)
    ensures AllIn(r, |c|)
  {
    TsLinksIn(c, block, inline);
    SortSpec(TsGetLinks(block, inline));
    PermutedIn(TsGetLinks(block, inline), SortByStart(TsGetLinks(block, inline)), |c|);
    SortByStart(TsGetLinks(block, inline))
  }

  /** `replace_links` of mdutils: the rewrite over the sorted spans. */
  function TsReplaced(c: Text, block: seq<Capture>, inline: seq<Capture>, decide: Decider): Result<Cow, Failure>
    requires AllInText(c, block) && AllInText(c, inline)
  {
    Rewritten(c, TsSortedLinks(c, block, inline), decide)
  }

  /** `replace_links` of mdutils: collect the spans, sort them in place by
      start, then run the loop. */
  method TsReplaceLinks(c: Text, block: seq<Capture>, inline: seq<Capture>, decide: Decider)
    returns (r: Result<Cow, Failure>)
    requires AllInText(c, block) && AllInText(c, inline)
    ensures r == TsReplaced(c, block, inline, decide)
  {
    var links := TsGetLinks(block, inline);
    links := SortByStart(links);
    assert links == TsSortedLinks(c, block, inline);
    r := SpliceDecisions(c, links, decide);
  }

  /** The text comes back unchanged exactly when every destination the
      parser found is declined, in whatever order the queries listed them. */
  lemma {:induction false} TsBorrowedIff(c: Text, block: seq<Capture>, inline: seq<Capture>, decide: Decider)
    requires AllInText(c, block) && AllInText(c, inline)
    ensures AllIn(TsGetLinks(block, inline), |c|)
    ensures AllIn(TsGetLinks(block, inline), |c|) &&
      (TsReplaced(c, block, inline, decide) == Ok(Borrowed) <==>
        AllDeclined(c, TsGetLinks(block, inline), decide))
  {
    var links := TsGetLinks(block, inline);
    var sorted := TsSortedLinks(c, block, inline);
    TsLinksIn(c, block, inline);
    SortSpec(links);
    BorrowedIffAllDeclined(c, sorted, decide);
    PermutedDeclined(c, links, sorted, decide);
  }

  /** When the destinations neither overlap nor are empty, the sort makes
      them ascending: without decision errors the result is the text with
      exactly the accepted edits applied, and any error is a decision's own. */
  lemma {:induction false} TsRewriteAccepted(c: Text, block: seq<Capture>, inline: seq<Capture>, decide: Decider)
    requires AllInText(c, block) && AllInText(c, inline)
    requires NonOverlapping(TsGetLinks(block, inline)) && AllNonEmpty(TsGetLinks(block, inline))
    ensures var sorted := TsSortedLinks(c, block, inline);
      && (AllDecided(c, sorted, decide) ==>
          var edits := Accepted(c, sorted, decide);
          Run(c, sorted, decide) == Ok(edits) &&
          TsReplaced(c, block, inline, decide) == Ok(if edits == [] then Borrowed else Owned(Spliced(c, edits))))
      && (TsReplaced(c, block, inline, decide).Err? ==>
          exists i :: 0 <= i < |sorted| &&
            decide(LinkText(c, sorted[i])) == Err(TsReplaced(c, block, inline, decide).error))
  {
    var sorted := TsSortedLinks(c, block, inline);
    SortAscending(TsGetLinks(block, inline));
    if AllDecided(c, sorted, decide) {
      AscendingRewrite(c, sorted, decide);
    }
    AscendingErrorIsDecision(c, sorted, decide);
  }

  /** `regexreplace_links` of mdutils: the rule table as the decision. */
  method TsRegexReplaceLinks(c: Text, block: seq<Capture>, inline: seq<Capture>, rules: seq<Rule>, replace: Replacer)
    returns (r: Result<Cow, Failure>)
    requires AllInText(c, block) && AllInText(c, inline)
    ensures r == TsReplaced(c, block, inline, RuleDecision(rules, replace))
    ensures r.Err? ==> r == Err(Panic(SliceOrder))
  {
    r := TsReplaceLinks(c, block, inline, RuleDecision(rules, replace));
    RuleSpliceOnlyPanics(c, TsSortedLinks(c, block, inline), rules, replace);
  }

  /** The `unwrap` of `regexreplace_links` cannot panic when the destinations
      neither overlap nor are empty: the rule decision never errs. */
  lemma {:induction false} TsRegexNeverFails(c: Text, block: seq<Capture>, inline: seq<Capture>, rules: seq<Rule>, replace: Replacer)
    requires AllInText(c, block) && AllInText(c, inline)
    requires NonOverlapping(TsGetLinks(block, inline)) && AllNonEmpty(TsGetLinks(block, inline))
    ensures TsReplaced(c, block, inline, RuleDecision(rules, replace)).Ok?
  {
    TsRewriteAccepted(c, block, inline, RuleDecision(rules, replace));
  }

  /** The captures of the test document: the definition's destination in the
      block tree, the inline link's destination and the autolink in the
      inline tree. */
  const ExampleBlock: seq<Capture> := [Capture(LinkDestination, Span(42, 50))]
  const ExampleInlineCaptures: seq<Capture> :=
    [Capture(LinkDestination, Span(6, 12)), Capture(UriAutolink, Span(14, 33))]

  /** The captures' destinations, block first, and their sorted order. */
  lemma {:induction false} ExampleTsLinks()
    ensures AllInText(ExampleText, ExampleBlock) && AllInText(ExampleText, ExampleInlineCaptures)
    ensures TsGetLinks(ExampleBlock, ExampleInlineCaptures) == [Span(42, 50), Span(6, 12), Span(15, 32)]
    ensures TsSortedLinks(ExampleText, ExampleBlock, ExampleInlineCaptures) == [Span(6, 12), Span(15, 32), Span(42, 50)]
  {
    assert ExampleText[14..33] == ExampleAutolink;
    var links := TsGetLinks(ExampleBlock, ExampleInlineCaptures);
    assert links == [Span(42, 50), Span(6, 12), Span(15, 32)];
    assert links[1..][1..][1..] == [];
    assert SortByStart(links[1..][1..]) == [Span(15, 32)];
    assert SortByStart(links[1..]) == [Span(6, 12), Span(15, 32)];
    assert InsertByStart(Span(42, 50), [Span(15, 32)]) == [Span(15, 32), Span(42, 50)];
  }

  /** The test of `regexreplace_links` of mdutils: the catch-all rule
      replaces the three destinations once they are sorted. */
  lemma {:induction false} ExampleTsCatchAll(replace: Replacer)
    requires replace(CatchAll, "bar.md") == Some(HugoUrl)
    requires replace(CatchAll, "https://bbc.co.uk") == Some(HugoUrl)
    requires replace(CatchAll, "./foo.md") == Some(HugoUrl)
    ensures AllInText(ExampleText, ExampleBlock) && AllInText(ExampleText, ExampleInlineCaptures)
    ensures TsReplaced(ExampleText, ExampleBlock, ExampleInlineCaptures, RuleDecision([CatchAll], replace)) ==
      Ok(Owned(ExampleExpected))
  {
    ExampleTsLinks();
    ExampleDestinations();
    CatchAllDecision(replace, "bar.md");
    CatchAllDecision(replace, "https://bbc.co.uk");
    CatchAllDecision(replace, "./foo.md");
    ExampleExpectedSplice();
    RewriteThree(ExampleText, Span(6, 12), Span(15, 32), Span(42, 50), RuleDecision([CatchAll], replace), HugoUrl);
  }
}
