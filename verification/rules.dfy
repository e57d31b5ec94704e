/** Rewriting destinations with a table of `(Regex, replacement)` rules:
    `regexreplace_links` of mdutil-lib, whose decision tries the rules in
    order and takes the first one that rewrites, and `replace_links` of
    mdbook-regexreplace, which runs the same first-match search inline in a
    nested loop that stops at the first rule that rewrites. */
module Rules {
  import opened Base
  import opened Splice
  import opened MdastLinks
  import opened Rewrite

  /** One `(Regex, &str)` pair: the pattern and its replacement template. */
  datatype Rule = Rule(pattern: Text, replacement: Text)

  /** `Regex::replace(text, replacement)` of the regex crate, which is not
      part of this model: `Some(t)` stands for `Cow::Owned(t)` (the pattern
      matched and `t` is the text with its leftmost match replaced), `None`
      for `Cow::Borrowed` (no match). */
  type Replacer = (Rule, Text) -> Option<Text>

  /** The first rule, in table order, that rewrites `s`, and what it makes
      of `s`; `None` when no rule matches. */
  function FirstReplacement(rules: seq<Rule>, s: Text, replace: Replacer): (r: Option<Text>)
    ensures r.None? <==> forall i :: 0 <= i < |rules| ==> replace(rules[i], s).None?
    decreases |rules|
  {
    if rules == [] then None
    else
      match replace(rules[0], s)
      case Some(t) => Some(t)
      case None => FirstReplacement(rules[1..], s, replace)
  }

  /** The rule that rewrites, when every rule before it does not, decides
      the result. */
  lemma {:induction false} FirstReplacementAt(rules: seq<Rule>, s: Text, replace: Replacer, i: nat)
    requires i < |rules| && replace(rules[i], s).Some?
    requires forall j :: 0 <= j < i ==> replace(rules[j], s).None?
    ensures FirstReplacement(rules, s, replace) == replace(rules[i], s)
    decreases i
  {
    if i > 0 {
      assert forall j :: 0 <= j < i - 1 ==> rules[1..][j] == rules[j + 1];
      FirstReplacementAt(rules[1..], s, replace, i - 1);
    }
  }

  /** The rule loop: the rules in order until one rewrites the text. */
  method FirstRewrite(rules: seq<Rule>, s: Text, replace: Replacer) returns (found: Option<Text>)
    ensures found == FirstReplacement(rules, s, replace)
  {
    var j := 0;
    while j < |rules|
      invariant 0 <= j <= |rules|
      invariant forall k :: 0 <= k < j ==> replace(rules[k], s).None?
    {
      var rewritten := replace(rules[j], s);
      if rewritten.Some? {
        FirstReplacementAt(rules, s, replace, j);
        return rewritten;
      }
      j := j + 1;
    }
    return None;
  }

  /** The decision closure of `regexreplace_links`: never an error. */
  function RuleDecision(rules: seq<Rule>, replace: Replacer): Decider
  {
    s => Ok(FirstReplacement(rules, s, replace))
  }

  /** `regexreplace_links` of mdutil-lib. Its `unwrap` cannot fail: the
      decision never errs, so every error left is a panic. */
  method RegexReplaceLinks(c: Text, ast: Node, rules: seq<Rule>, replace: Replacer) returns (r: Result<Cow, Failure>)
    ensures r == Replaced(c, ast, RuleDecision(rules, replace))
    ensures r.Err? ==> r.error.Panic?
  {
    r := ReplaceLinks(c, ast, RuleDecision(rules, replace));
    RuleRewriteOnlyPanics(c, ast, rules, replace);
  }

  /** With a rule table the rewrite can only fail by panicking: while
      locating a span, or on a slice. */
  lemma {:induction false} RuleRewriteOnlyPanics(c: Text, ast: Node, rules: seq<Rule>, replace: Replacer)
    ensures Replaced(c, ast, RuleDecision(rules, replace)).Err? ==>
      Replaced(c, ast, RuleDecision(rules, replace)).error.Panic?
  {
    var links := GetLinks(c, ast);
    if links.Ok? {
      RuleSpliceOnlyPanics(c, links.value, rules, replace);
    }
  }

  /** Over any spans, a rule table's rewrite fails only by the slice panic. */
  lemma {:induction false} RuleSpliceOnlyPanics(c: Text, spans: seq<Span>, rules: seq<Rule>, replace: Replacer)
    requires AllIn(spans, |c|)
    ensures Rewritten(c, spans, RuleDecision(rules, replace)).Err? ==>
      Rewritten(c, spans, RuleDecision(rules, replace)) == Err(Panic(SliceOrder))
  {
    var decide := RuleDecision(rules, replace);
    if Run(c, spans, decide).Err? {
      RunErrorSource(c, spans, decide);
    }
  }

  /** `replace_links` of mdbook-regexreplace: for each span the rules are
      tried in order on the trimmed destination and the rule loop stops at
      the first rewrite, which is spliced in. */
  method ReplaceLinksWithRules(c: Text, ast: Node, rules: seq<Rule>, replace: Replacer) returns (r: Result<Cow, Failure>)
    ensures r == Replaced(c, ast, RuleDecision(rules, replace))
  {
    var links := GetLinks(c, ast);
    if links.Err? {
      return Err(links.error);
    }
    RuleDecisionMeaning(rules, replace);
    r := SpliceRules(c, links.value, rules, replace, RuleDecision(rules, replace));
  }

  /** The decision answers with the first rewrite of the table. */
  lemma {:induction false} RuleDecisionMeaning(rules: seq<Rule>, replace: Replacer)
    ensures forall s :: RuleDecision(rules, replace)(s) == Ok(FirstReplacement(rules, s, replace))
  {
  }

  /** The span loop of mdbook-regexreplace's `replace_links`, with the rule
      loop inside it. */
  method SpliceRules(c: Text, spans: seq<Span>, rules: seq<Rule>, replace: Replacer, ghost decide: Decider)
    returns (r: Result<Cow, Failure>)
    requires AllIn(spans, |c|)
    requires forall s :: decide(s) == Ok(FirstReplacement(rules, s, replace))
    ensures r == Rewritten(c, spans, decide)
  {
    var state: Option<(Text, nat)> := None;
    ghost var edits: seq<Edit> := [];
    var i := 0;
    while i < |spans|
      invariant 0 <= i <= |spans|
      invariant Run(c, spans[..i], decide) == Ok(edits)
      invariant state.None? <==> edits == []
      invariant (if state.Some? then state.value else ("", 0)) == Progress(c, edits)
    {
      var link := spans[i];
      var linkStr := Trim(c[link.start..link.end]);
      var found := FirstRewrite(rules, linkStr, replace);
      assert decide(LinkText(c, link)) == Ok(found);
      if found.Some? {
        var newLink := found.value;
        var (newContent, cursor) := if state.Some? then state.value else ("", 0);
        if cursor > link.start {
          FaultStep(c, spans, decide, i, edits);
          RunIsRewritten(c, spans, decide);
          return Err(Panic(SliceOrder));
        }
        AcceptStep(c, spans, decide, i, edits, newLink);
        state := Some((newContent + c[cursor..link.start] + newLink, link.end));
        edits := edits + [Edit(link, newLink)];
      } else {
        DeclineStep(c, spans, decide, i, edits);
      }
      i := i + 1;
    }
    assert spans[..i] == spans;
    if state.Some? {
      var (newContent, idx) := state.value;
      SplicedFinish(c, edits, idx);
      r := Ok(Owned(newContent + c[idx..]));
    } else {
      r := Ok(Borrowed);
    }
  }

  /** A faulting run is the rewrite's error. */
  lemma {:induction false} RunIsRewritten(c: Text, spans: seq<Span>, decide: Decider)
    requires AllIn(spans, |c|) && Run(c, spans, decide).Err?
    ensures Rewritten(c, spans, decide) == Err(Run(c, spans, decide).error)
  {
  }

  /** The replacement of the repository's tests. */
  const HugoUrl: Text := "https://hugom.uk"

  /** The catch-all rule `(Regex::new(".*"), "https://hugom.uk")`. */
  const CatchAll: Rule := Rule(".*", HugoUrl)

  /** The expected output of the tests on `ExampleText`. */
  const ExampleExpected: Text := "[foo](" + HugoUrl + ") <" + HugoUrl + ">\n\n[bar]: " + HugoUrl + "\n"

  /** The catch-all rule accepts a destination it rewrites with that text. */
  lemma {:induction false} CatchAllDecision(replace: Replacer, s: Text)
    requires replace(CatchAll, s) == Some(HugoUrl)
    ensures RuleDecision([CatchAll], replace)(s) == Ok(Some(HugoUrl))
  {
    assert [CatchAll][1..] == [];
  }

  /** The example's three destinations, as the decision sees them. */
  lemma {:induction false} ExampleDestinations()
    ensures LinkText(ExampleText, Span(6, 12)) == "bar.md"
    ensures LinkText(ExampleText, Span(15, 32)) == "https://bbc.co.uk"
    ensures LinkText(ExampleText, Span(42, 50)) == "./foo.md"
  {
    var c := ExampleText;
    assert c[6..12] == ExampleInline[6..12] == "bar.md";
    assert c[15..32] == ExampleAutolink[1..18] == "https://bbc.co.uk";
    assert c[42..50] == ExampleDefinition[7..] == "./foo.md";
  }

  /** The text the rewrite keeps between the example's destinations. */
  lemma {:induction false} ExampleKeptText()
    ensures |ExampleText| == 51
    ensures ExampleText[..6] == "[foo](" && ExampleText[12..15] == ") <"
    ensures ExampleText[32..42] == ">\n\n[bar]: " && ExampleText[50..] == "\n"
  {
    var c := ExampleText;
    assert |ExampleInline| == 13 && |ExampleAutolink| == 19 && |ExampleDefinition| == 15;
    assert c[..6] == ExampleInline[..6] == "[foo](";
    assert c[12..15] == ExampleInline[12..] + " " + ExampleAutolink[..1];
    assert ExampleInline[12..] == ")" && ExampleAutolink[..1] == "<";
    assert c[32..42] == ExampleAutolink[18..] + "\n\n" + ExampleDefinition[..7];
    assert ExampleAutolink[18..] == ">" && ExampleDefinition[..7] == "[bar]: ";
  }

  /** The expected output is the input with its three destinations replaced. */
  lemma {:induction false} ExampleExpectedSplice()
    ensures |ExampleText| == 51
    ensures ExampleExpected == ExampleText[..6] + HugoUrl + ExampleText[12..15] + HugoUrl +
      ExampleText[32..42] + HugoUrl + ExampleText[50..]
  {
    ExampleKeptText();
  }

  /** The test of both `regexreplace_links` of mdutil-lib and `replace_links`
      of mdbook-regexreplace: `.*` matches every destination, so the catch-all
      rule replaces all three, and only them. */
  lemma {:induction false} ExampleCatchAll(replace: Replacer)
    requires replace(CatchAll, "bar.md") == Some(HugoUrl)
    requires replace(CatchAll, "https://bbc.co.uk") == Some(HugoUrl)
    requires replace(CatchAll, "./foo.md") == Some(HugoUrl)
    ensures Replaced(ExampleText, ExampleTree, RuleDecision([CatchAll], replace)) == Ok(Owned(ExampleExpected))
  {
    ExampleLinks();
    ExampleDestinations();
    CatchAllDecision(replace, "bar.md");
    CatchAllDecision(replace, "https://bbc.co.uk");
    CatchAllDecision(replace, "./foo.md");
    ExampleExpectedSplice();
    RewriteThree(ExampleText, Span(6, 12), Span(15, 32), Span(42, 50), RuleDecision([CatchAll], replace), HugoUrl);
  }
}
