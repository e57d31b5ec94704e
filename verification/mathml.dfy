/** mdbook-mathml: an mdBook preprocessor that replaces every LaTeX formula
    of a chapter by MathML. The Markdown parser (pulldown-cmark) and the
    converter (latex2mathml) are not part of this model: the parser's events
    with their character ranges are an input, the converter a parameter. */
module MathMl {
  import opened Base
  import opened Splice
  import opened Preprocess

  /** The kind of a parser event, as far as `replace_latex` tells kinds apart. */
  datatype EventKind = InlineMath | DisplayMath | OtherEvent

  /** An event of `into_offset_iter` with the character range of its source. */
  datatype Event = Event(kind: EventKind, range: Span)

  /** `DisplayStyle` of latex2mathml. */
  datatype Style = Inline | Block

  /** `latex_to_mathml`: the MathML of a formula, or the converter's error. */
  type Converter = (Text, Style) -> Result<Text, Text>

  /** Inline maths is converted inline, display maths as a block, and every
      other event is skipped. */
  function StyleOf(k: EventKind): Option<Style>
  {
    match k
    case InlineMath => Some(Inline)
    case DisplayMath => Some(Block)
    case OtherEvent => None
  }

  predicate IsMath(e: Event)
  {
    StyleOf(e.kind).Some?
  }

  /** What the parser guarantees of the formulas' ranges: they lie between
      `k` and `m`, in ascending order and without overlap. */
  predicate MathChained(events: seq<Event>, k: nat, m: nat)
    decreases |events|
  {
    if events == [] then k <= m
    else if IsMath(events[0]) then
      && k <= events[0].range.start <= events[0].range.end <= m
      && MathChained(events[1..], events[0].range.end, m)
    else MathChained(events[1..], k, m)
  }

  /** Every formula's range lies inside a text of length `n`. */
  predicate MathIn(events: seq<Event>, n: nat)
  {
    forall i :: 0 <= i < |events| && IsMath(events[i]) ==> SpanIn(events[i].range, n)
  }

  lemma {:induction false} MathChainedIn(events: seq<Event>, k: nat, m: nat)
    requires MathChained(events, k, m)
    ensures MathIn(events, m)
    decreases |events|
  {
    if events != [] {
      var rest := events[1..];
      if IsMath(events[0]) {
        MathChainedIn(rest, events[0].range.end, m);
      } else {
        MathChainedIn(rest, k, m);
      }
      assert forall i :: 1 <= i < |events| ==> events[i] == rest[i - 1];
    }
  }

  /** The formula of a range: its text without the `$` around it. */
  function Snippet(c: Text, s: Span): Text
    requires SpanIn(s, |c|)
  {
    TrimEndMatches(TrimStartMatches(c[s.start..s.end], '$'), '$')
  }

  /** The snippet is a part of the range's text, everything around it is
      `$`, and it neither starts nor ends with `$`. */
  lemma {:induction false} SnippetShape(c: Text, s: Span)
    requires SpanIn(s, |c|)
    ensures var t, r := c[s.start..s.end], Snippet(c, s);
      var lo := |t| - |TrimStartMatches(t, '$')|;
      && 0 <= lo && lo + |r| <= |t| && r == t[lo..lo + |r|]
      && (forall i :: 0 <= i < lo ==> t[i] == '$')
      && (forall i :: lo + |r| <= i < |t| ==> t[i] == '$')
      && (r != [] ==> r[0] != '$' && r[|r| - 1] != '$')
  {
    var t := c[s.start..s.end];
    var u := TrimStartMatches(t, '$');
    var r := TrimEndMatches(u, '$');
    TrimStartMatchesShape(t, '$');
    TrimEndMatchesShape(u, '$');
    var lo := |t| - |u|;
    assert u == t[lo..];
    assert r == u[..|r|] == t[lo..lo + |r|];
    assert forall i :: lo + |r| <= i < |t| ==> t[i] == u[i - lo];
    if r != [] {
      assert r[0] == u[0];
    }
  }

  lemma {:induction false} MathInRest(events: seq<Event>, n: nat)
    requires MathIn(events, n) && events != []
    ensures MathIn(events[1..], n)
  {
    assert forall i :: 1 <= i < |events| ==> events[1..][i - 1] == events[i];
  }

  /** The MathML of one formula. */
  function Converted(c: Text, e: Event, convert: Converter): Result<Text, Text>
    requires IsMath(e) && SpanIn(e.range, |c|)
  {
    convert(Snippet(c, e.range), StyleOf(e.kind).value)
  }

  /** The first loop of `replace_latex` over the remaining events: each
      formula's range with its MathML, after those already recorded; the
      first conversion error aborts. */
  function Collect(c: Text, events: seq<Event>, convert: Converter, acc: seq<Edit>): (r: Result<seq<Edit>, Failure>)
    requires MathIn(events, |c|)
    ensures r.Err? ==> r.error.Error?
    decreases |events|
  {
    if events == [] then Ok(acc)
    else
      var e := events[0];
      MathInRest(events, |c|);
      if !IsMath(e) then Collect(c, events[1..], convert, acc)
      else
        match Converted(c, e, convert)
        case Err(message) => Err(Error(message))
        case Ok(mathml) => Collect(c, events[1..], convert, acc + [Edit(e.range, mathml)])
  }

  /** The formulas among the events, in order, each inside a text of
      length `n`. */
  function MathEvents(events: seq<Event>, n: nat): (r: seq<Event>)
    requires MathIn(events, n)
    ensures forall i :: 0 <= i < |r| ==> IsMath(r[i]) && SpanIn(r[i].range, n)
    decreases |events|
  {
    if events == [] then []
    else
      MathInRest(events, n);
      if IsMath(events[0]) then [events[0]] + MathEvents(events[1..], n)
      else MathEvents(events[1..], n)
  }

  /** Every formula of `ms` lies inside `c` and converts. */
  predicate AllConvert(c: Text, ms: seq<Event>, convert: Converter)
  {
    forall i :: 0 <= i < |ms| ==> IsMath(ms[i]) && SpanIn(ms[i].range, |c|) && Converted(c, ms[i], convert).Ok?
  }

  lemma {:induction false} AllConvertCons(c: Text, e: Event, ms: seq<Event>, convert: Converter)
    ensures AllConvert(c, [e] + ms, convert) <==>
      IsMath(e) && SpanIn(e.range, |c|) && Converted(c, e, convert).Ok? && AllConvert(c, ms, convert)
  {
    var xs := [e] + ms;
    if AllConvert(c, xs, convert) {
      assert xs[0] == e;
      forall i | 0 <= i < |ms|
        ensures IsMath(ms[i]) && SpanIn(ms[i].range, |c|) && Converted(c, ms[i], convert).Ok?
      {
        assert ms[i] == xs[i + 1];
      }
    } else if IsMath(e) && SpanIn(e.range, |c|) && Converted(c, e, convert).Ok? && AllConvert(c, ms, convert) {
      forall i | 0 <= i < |xs|
        ensures IsMath(xs[i]) && SpanIn(xs[i].range, |c|) && Converted(c, xs[i], convert).Ok?
      {
        if i > 0 {
          assert xs[i] == ms[i - 1];
        }
      }
    }
  }

  /** The edits of formulas that all convert: each one's range with its
      MathML. */
  function EditsOf(c: Text, ms: seq<Event>, convert: Converter): seq<Edit>
    requires AllConvert(c, ms, convert)
    decreases |ms|
  {
    if ms == [] then []
    else
      assert ms == [ms[0]] + ms[1..];
      AllConvertCons(c, ms[0], ms[1..], convert);
      [Edit(ms[0].range, Converted(c, ms[0], convert).value)] + EditsOf(c, ms[1..], convert)
  }

  /** One edit per formula, in order: the formula's range and its MathML. */
  lemma {:induction false} EditsOfMeaning(c: Text, ms: seq<Event>, convert: Converter)
    requires AllConvert(c, ms, convert)
    ensures var r := EditsOf(c, ms, convert);
      && |r| == |ms|
      && forall i :: 0 <= i < |ms| ==> r[i] == Edit(ms[i].range, Converted(c, ms[i], convert).value)
    decreases |ms|
  {
    if ms != [] {
      assert ms == [ms[0]] + ms[1..];
      AllConvertCons(c, ms[0], ms[1..], convert);
      EditsOfMeaning(c, ms[1..], convert);
      var r := EditsOf(c, ms, convert);
      assert forall i :: 1 <= i < |ms| ==> r[i] == EditsOf(c, ms[1..], convert)[i - 1] && ms[i] == ms[1..][i - 1];
    }
  }

  /** The loop succeeds exactly when every formula converts. */
  lemma {:induction false} CollectOk(c: Text, events: seq<Event>, convert: Converter, acc: seq<Edit>)
    requires MathIn(events, |c|)
    ensures Collect(c, events, convert, acc).Ok? <==> AllConvert(c, MathEvents(events, |c|), convert)
    decreases |events|
  {
    if events != [] {
      var e := events[0];
      var rest := events[1..];
      MathInRest(events, |c|);
      var ms' := MathEvents(rest, |c|);
      if IsMath(e) {
        assert MathEvents(events, |c|) == [e] + ms';
        AllConvertCons(c, e, ms', convert);
        var m := Converted(c, e, convert);
        if m.Ok? {
          CollectOk(c, rest, convert, acc + [Edit(e.range, m.value)]);
        }
      } else {
        CollectOk(c, rest, convert, acc);
      }
    }
  }

  /** A successful loop records one edit per formula, in order: the
      formula's range and its MathML. */
  lemma {:induction false} CollectEdits(c: Text, events: seq<Event>, convert: Converter, acc: seq<Edit>)
    requires MathIn(events, |c|) && AllConvert(c, MathEvents(events, |c|), convert)
    ensures Collect(c, events, convert, acc) == Ok(acc + EditsOf(c, MathEvents(events, |c|), convert))
    decreases |events|
  {
    CollectOk(c, events, convert, acc);
    if events != [] {
      var e := events[0];
      var rest := events[1..];
      MathInRest(events, |c|);
      var ms' := MathEvents(rest, |c|);
      if IsMath(e) {
        assert MathEvents(events, |c|) == [e] + ms';
        AllConvertCons(c, e, ms', convert);
        var edit := Edit(e.range, Converted(c, e, convert).value);
        CollectEdits(c, rest, convert, acc + [edit]);
        assert MathEvents(events, |c|)[1..] == ms';
        assert acc + [edit] + EditsOf(c, ms', convert) == acc + ([edit] + EditsOf(c, ms', convert));
      } else {
        CollectEdits(c, rest, convert, acc);
      }
    } else {
      assert acc + [] == acc;
    }
  }

  /** The loop succeeds exactly when every formula converts; it then records
      one edit per formula, in order: the formula's range and its MathML. */
  lemma {:induction false} CollectMeaning(c: Text, events: seq<Event>, convert: Converter, acc: seq<Edit>)
    requires MathIn(events, |c|)
    ensures var ms, r := MathEvents(events, |c|), Collect(c, events, convert, acc);
      && (r.Ok? <==> AllConvert(c, ms, convert))
      && (r.Ok? ==> r.value == acc + EditsOf(c, ms, convert))
  {
    CollectOk(c, events, convert, acc);
    if Collect(c, events, convert, acc).Ok? {
      CollectEdits(c, events, convert, acc);
    }
  }

  /** How many formulas at the front of `ms` convert. */
  function Converting(c: Text, ms: seq<Event>, convert: Converter): (k: nat)
    ensures k <= |ms|
  {
    if ms != [] && IsMath(ms[0]) && SpanIn(ms[0].range, |c|) && Converted(c, ms[0], convert).Ok?
    then 1 + Converting(c, ms[1..], convert)
    else 0
  }

  /** The formulas before the first one that does not convert all convert,
      and all formulas convert exactly when there is no such first one. */
  lemma {:induction false} ConvertingMeaning(c: Text, ms: seq<Event>, convert: Converter)
    ensures var k := Converting(c, ms, convert);
      && AllConvert(c, ms[..k], convert)
      && (AllConvert(c, ms, convert) <==> k == |ms|)
    decreases |ms|
  {
    var k := Converting(c, ms, convert);
    if k > 0 {
      ConvertingMeaning(c, ms[1..], convert);
      assert ms[..k] == [ms[0]] + ms[1..][..k - 1];
      AllConvertCons(c, ms[0], ms[1..][..k - 1], convert);
      assert ms == [ms[0]] + ms[1..];
      AllConvertCons(c, ms[0], ms[1..], convert);
    } else {
      assert ms[..0] == [];
      if ms != [] {
        assert ms == [ms[0]] + ms[1..];
        AllConvertCons(c, ms[0], ms[1..], convert);
      }
    }
  }

  /** A failing loop fails with the error of the first formula that does not
      convert. */
  lemma {:induction false} CollectError(c: Text, events: seq<Event>, convert: Converter, acc: seq<Edit>)
    requires MathIn(events, |c|) && Collect(c, events, convert, acc).Err?
    ensures var ms := MathEvents(events, |c|);
      var k := Converting(c, ms, convert);
      && k < |ms| && Converted(c, ms[k], convert).Err?
      && Collect(c, events, convert, acc) == Err(Error(Converted(c, ms[k], convert).error))
    decreases |events|
  {
    var e := events[0];
    var rest := events[1..];
    MathInRest(events, |c|);
    var ms, ms' := MathEvents(events, |c|), MathEvents(rest, |c|);
    if IsMath(e) {
      assert ms == [e] + ms' && ms[0] == e && ms[1..] == ms';
      var m := Converted(c, e, convert);
      if m.Ok? {
        CollectError(c, rest, convert, acc + [Edit(e.range, m.value)]);
        assert ms[Converting(c, ms, convert)] == ms'[Converting(c, ms', convert)];
      }
    } else {
      CollectError(c, rest, convert, acc);
    }
  }

  /** The recorded ranges keep the parser's order: a chain of edits. */
  lemma {:induction false} CollectChained(c: Text, events: seq<Event>, convert: Converter, acc: seq<Edit>, k0: nat, k: nat)
    requires MathChained(events, k, |c|) && Chained(acc, k0, k)
    requires MathIn(events, |c|)
    requires Collect(c, events, convert, acc).Ok?
    ensures Chained(Collect(c, events, convert, acc).value, k0, |c|)
    decreases |events|
  {
    if events == [] {
      ChainedWiden(acc, k0, k, |c|);
    } else {
      var e := events[0];
      var rest := events[1..];
      MathInRest(events, |c|);
      if IsMath(e) {
        var m := Converted(c, e, convert).value;
        ChainedAppend(acc, Edit(e.range, m), k0, k);
        CollectChained(c, rest, convert, acc + [Edit(e.range, m)], k0, e.range.end);
      } else {
        CollectChained(c, rest, convert, acc, k0, k);
      }
    }
  }

  /** `replace_latex`: `Borrowed` when the chapter has no formula, else the
      text with every formula replaced by its MathML. */
  function ReplacedLatex(c: Text, events: seq<Event>, convert: Converter): Result<Cow, Failure>
    requires MathChained(events, 0, |c|)
  {
    MathChainedIn(events, 0, |c|);
    match Collect(c, events, convert, [])
    case Err(f) => Err(f)
    case Ok(reps) =>
      if reps == [] then Ok(Borrowed)
      else
        CollectChained(c, events, convert, [], 0, 0);
        Ok(Owned(Spliced(c, reps)))
  }

  /** `replace_latex`: records the formulas in a first loop, then rebuilds
      the text from the last formula to the first, so that every recorded
      range still refers to the original text. */
  method ReplaceLatex(c: Text, events: seq<Event>, convert: Converter) returns (r: Result<Cow, Failure>)
    requires MathChained(events, 0, |c|)
    ensures r == ReplacedLatex(c, events, convert)
  {
    MathChainedIn(events, 0, |c|);
    var replacements := CollectLatex(c, events, convert);
    if replacements.Err? {
      return Err(replacements.error);
    }
    if replacements.value == [] {
      return Ok(Borrowed);
    }
    CollectChained(c, events, convert, [], 0, 0);
    var outputMd := SpliceBackwards(c, replacements.value);
    r := Ok(Owned(outputMd));
  }

  /** The first loop of `replace_latex`: every formula's range with its
      MathML, in the parser's order; `?` returns the first conversion error. */
  method CollectLatex(c: Text, events: seq<Event>, convert: Converter) returns (r: Result<seq<Edit>, Failure>)
    requires MathIn(events, |c|)
    ensures r == Collect(c, events, convert, [])
  {
    var replacements: seq<Edit> := [];
    var i := 0;
    while i < |events|
      invariant 0 <= i <= |events|
      invariant MathIn(events[i..], |c|)
      invariant Collect(c, events[i..], convert, replacements) == Collect(c, events, convert, [])
    {
      var e := events[i];
      assert events[i..][0] == e && events[i..][1..] == events[i + 1..];
      MathInRest(events[i..], |c|);
      var style := StyleOf(e.kind);
      if style.Some? {
        var snippet := Snippet(c, e.range);
        var mathml := convert(snippet, style.value);
        if mathml.Err? {
          return Err(Error(mathml.error));
        }
        replacements := replacements + [Edit(e.range, mathml.value)];
      }
      i := i + 1;
    }
    r := Ok(replacements);
  }

  /** The second loop of `replace_latex`: `replace_range` of each recorded
      range, from the last to the first. */
  method SpliceBackwards(c: Text, replacements: seq<Edit>) returns (outputMd: Text)
    requires Ordered(replacements, |c|)
    ensures outputMd == Spliced(c, replacements)
  {
    outputMd := c;
    assert c[0..|c|] == c;
    var j := |replacements|;
    while j > 0
      invariant 0 <= j <= |replacements|
      invariant Ordered(replacements[j..], |c|)
      invariant outputMd == Spliced(c, replacements[j..])
    {
      var e := replacements[j - 1];
      ChainedSuffix(replacements, j, 0, |c|);
      if j > 1 {
        ChainedSuffix(replacements, j - 1, 0, |c|);
        assert replacements[j - 2..][1..] == replacements[j - 1..];
      }
      ChainedIn(replacements, 0, |c|);
      SplicedPrepend(c, e, replacements[j..]);
      assert [e] + replacements[j..] == replacements[j - 1..];
      outputMd := outputMd[..e.span.start] + e.text + outputMd[e.span.end..];
      j := j - 1;
    }
    assert replacements[0..] == replacements;
  }

  /** No formula, no change: the text comes back `Borrowed` exactly when the
      parser found no formula, unless a conversion fails. */
  lemma {:induction false} BorrowedIffNoMath(c: Text, events: seq<Event>, convert: Converter)
    requires MathChained(events, 0, |c|)
    ensures MathIn(events, |c|)
    ensures ReplacedLatex(c, events, convert).Ok? ==>
      (ReplacedLatex(c, events, convert) == Ok(Borrowed) <==> MathEvents(events, |c|) == [])
  {
    MathChainedIn(events, 0, |c|);
    CollectMeaning(c, events, convert, []);
  }

  /** A conversion error aborts the whole call, with the error of the first
      formula that does not convert; every formula before it converts. */
  lemma {:induction false} ConversionErrorAborts(c: Text, events: seq<Event>, convert: Converter)
    requires MathChained(events, 0, |c|)
    ensures MathIn(events, |c|)
    ensures var ms, r := MathEvents(events, |c|), ReplacedLatex(c, events, convert);
      var k := Converting(c, ms, convert);
      && (r.Err? <==> !AllConvert(c, ms, convert))
      && AllConvert(c, ms[..k], convert)
      && (r.Err? ==> k < |ms| && Converted(c, ms[k], convert).Err?
                     && r == Err(Error(Converted(c, ms[k], convert).error)))
  {
    MathChainedIn(events, 0, |c|);
    CollectMeaning(c, events, convert, []);
    ConvertingMeaning(c, MathEvents(events, |c|), convert);
    if Collect(c, events, convert, []).Err? {
      CollectError(c, events, convert, []);
    }
  }

  /** The chapter closure of mdbook-mathml's `run`: `replace_latex` on the
      content, unwrapped. */
  function MathChapter(parse: Text -> seq<Event>, convert: Converter, item: BookItem): (r: Result<BookItem, Failure>)
    requires forall t :: MathChained(parse(t), 0, |t|)
    ensures r.Ok? ==> ContentOnly(item, r.value)
    ensures r.Err? ==> r.error.Panic?
    ensures !item.Chapter? ==> r == Ok(item)
    ensures item.Chapter? ==>
      var rewrite := ReplacedLatex(item.content, parse(item.content), convert);
      && (rewrite.Ok? ==> r == Ok(item.(content := rewrite.value.Value(item.content))))
      && (rewrite.Err? ==> r.Err? && r.error.Panic?)
  {
    match item
    case Chapter(_, content, _, _) => UpdateContent(item, ReplacedLatex(content, parse(content), convert))
    case _ => Ok(item)
  }

  /** `Preprocessor::run` of mdbook-mathml on a book's sections. */
  function MathRun(parse: Text -> seq<Event>, convert: Converter, book: seq<BookItem>): Result<seq<BookItem>, Failure>
    requires forall t :: MathChained(parse(t), 0, |t|)
  {
    ForEachList(book, item => MathChapter(parse, convert, item))
  }

  /** The run keeps the book's structure and changes only chapter contents,
      and a failing run is a panic. */
  lemma {:induction false} MathRunShape(parse: Text -> seq<Event>, convert: Converter, book: seq<BookItem>)
    requires forall t :: MathChained(parse(t), 0, |t|)
    ensures MathRun(parse, convert, book).Ok? ==> SameShapeList(book, MathRun(parse, convert, book).value)
    ensures MathRun(parse, convert, book).Err? ==> MathRun(parse, convert, book).error.Panic?
  {
    ForEachListPanics(book, item => MathChapter(parse, convert, item));
    if MathRun(parse, convert, book).Ok? {
      ForEachListShape(book, item => MathChapter(parse, convert, item));
    }
  }

  /** A formula replaced in a chapter: every formula is in bounds and
      converts, and the chapter has one. */
  lemma {:induction false} ReplacedLatexMeaning(c: Text, events: seq<Event>, convert: Converter)
    requires MathChained(events, 0, |c|)
    ensures MathIn(events, |c|)
    ensures var ms := MathEvents(events, |c|);
      AllConvert(c, ms, convert) && ms != [] ==>
        && Ordered(EditsOf(c, ms, convert), |c|)
        && ReplacedLatex(c, events, convert) == Ok(Owned(Spliced(c, EditsOf(c, ms, convert))))
  {
    MathChainedIn(events, 0, |c|);
    CollectMeaning(c, events, convert, []);
    var ms := MathEvents(events, |c|);
    if AllConvert(c, ms, convert) && ms != [] {
      EditsOfMeaning(c, ms, convert);
      CollectChained(c, events, convert, [], 0, 0);
      assert [] + EditsOf(c, ms, convert) == EditsOf(c, ms, convert);
    }
  }
}
