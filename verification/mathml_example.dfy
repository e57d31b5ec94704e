/** The example of mdbook-mathml's test: a chapter with an inline formula
    and two display formulas. */
module MathMlExample {
  import opened Base
  import opened Splice
  import opened MathMl

  const MathHead: Text := "\n# Hello\n\n"
  const InlineFormula: Text := "$a = b$"
  const MathGap: Text := "\n\n"
  const DisplayFormula: Text := "$$b = c$$"
  const BlockFormula: Text := "$$\nc = d\n$$"
  const MathTail: Text := "a\n        "

  /** The test's chapter. */
  const MathInput: Text := MathHead + InlineFormula + MathGap + DisplayFormula + MathGap + BlockFormula + MathTail

  /** Some of the events the parser reports for the chapter: the heading, the
      three formulas and the text after the last one. */
  const MathEventsExample: seq<Event> := [
    Event(OtherEvent, Span(1, 9)), Event(InlineMath, Span(10, 17)), Event(DisplayMath, Span(19, 28)),
    Event(DisplayMath, Span(30, 41)), Event(OtherEvent, Span(41, 42))]

  const MathAB: Text := "<math xmlns=\"http://www.w3.org/1998/Math/MathML\" display=\"inline\"><mi>a</mi><mo>=</mo><mi>b</mi></math>"
  const MathBC: Text := "<math xmlns=\"http://www.w3.org/1998/Math/MathML\" display=\"block\"><mi>b</mi><mo>=</mo><mi>c</mi></math>"
  const MathCD: Text := "<math xmlns=\"http://www.w3.org/1998/Math/MathML\" display=\"block\"><mi>c</mi><mo>=</mo><mi>d</mi></math>"

  /** The test's expected output. */
  const MathExpected: Text := MathHead + MathAB + MathGap + MathBC + MathGap + MathCD + MathTail

  lemma {:induction false} MathInputParts()
    ensures |MathInput| == 51
    ensures MathInput[..10] == MathHead && MathInput[10..17] == InlineFormula
    ensures MathInput[17..19] == MathGap && MathInput[19..28] == DisplayFormula
    ensures MathInput[28..30] == MathGap && MathInput[30..41] == BlockFormula
    ensures MathInput[41..] == MathTail
  {
    assert |MathHead| == 10 && |InlineFormula| == 7 && |MathGap| == 2 && |DisplayFormula| == 9;
    assert |BlockFormula| == 11 && |MathTail| == 10;
  }

  lemma {:induction false} InlineSnippet()
    ensures TrimEndMatches(TrimStartMatches(InlineFormula, '$'), '$') == "a = b"
  {
    var f := InlineFormula;
    assert TrimStartMatches(f[1..], '$') == f[1..];
    var u := f[1..];
    assert TrimEndMatches(u[..|u| - 1], '$') == u[..|u| - 1];
  }

  lemma {:induction false} DisplaySnippet()
    ensures TrimEndMatches(TrimStartMatches(DisplayFormula, '$'), '$') == "b = c"
  {
    var f := DisplayFormula;
    assert TrimStartMatches(f[2..], '$') == f[2..];
    assert TrimStartMatches(f[1..], '$') == TrimStartMatches(f[1..][1..], '$') && f[1..][1..] == f[2..];
    var u := f[2..];
    assert TrimEndMatches(u[..|u| - 2], '$') == u[..|u| - 2];
    assert TrimEndMatches(u[..|u| - 1], '$') == TrimEndMatches(u[..|u| - 1][..|u| - 2], '$');
    assert u[..|u| - 1][..|u| - 2] == u[..|u| - 2];
  }

  lemma {:induction false} BlockSnippet()
    ensures TrimEndMatches(TrimStartMatches(BlockFormula, '$'), '$') == "\nc = d\n"
  {
    var f := BlockFormula;
    assert TrimStartMatches(f[2..], '$') == f[2..];
    assert TrimStartMatches(f[1..], '$') == TrimStartMatches(f[1..][1..], '$') && f[1..][1..] == f[2..];
    var u := f[2..];
    assert TrimEndMatches(u[..|u| - 2], '$') == u[..|u| - 2];
    assert TrimEndMatches(u[..|u| - 1], '$') == TrimEndMatches(u[..|u| - 1][..|u| - 2], '$');
    assert u[..|u| - 1][..|u| - 2] == u[..|u| - 2];
  }

  /** The parser's formulas are in order and inside the chapter. */
  lemma {:induction false} ExampleEventsChained()
    ensures MathChained(MathEventsExample, 0, |MathInput|)
  {
    MathInputParts();
    var es := MathEventsExample;
    assert MathChained(es[4..], 41, 51);
    assert es[3..][1..] == es[4..];
    assert MathChained(es[3..], 28, 51);
    assert es[2..][1..] == es[3..];
    assert MathChained(es[2..], 17, 51);
    assert es[1..][1..] == es[2..];
    assert MathChained(es[1..], 0, 51);
    assert es[1..] == es[1..];
  }

  /** The formulas of the example, in order. */
  lemma {:induction false} ExampleMathEvents()
    ensures MathIn(MathEventsExample, |MathInput|)
    ensures MathEvents(MathEventsExample, |MathInput|) == MathEventsExample[1..4]
  {
    ExampleEventsChained();
    MathChainedIn(MathEventsExample, 0, |MathInput|);
    MathInputParts();
    var es := MathEventsExample;
    assert MathEvents(es[4..], 51) == [] by {
      assert es[4..][1..] == [];
    }
    assert es[3..][1..] == es[4..] && es[2..][1..] == es[3..] && es[1..][1..] == es[2..];
    assert MathEvents(es[3..], 51) == [es[3]];
    assert MathEvents(es[2..], 51) == [es[2], es[3]];
    assert MathEvents(es[1..], 51) == [es[1], es[2], es[3]];
  }

  lemma {:induction false} InlineConverted(convert: Converter)
    requires convert("a = b", Inline) == Ok(MathAB)
    ensures |MathInput| == 51
    ensures Converted(MathInput, Event(InlineMath, Span(10, 17)), convert) == Ok(MathAB)
  {
    MathInputParts();
    InlineSnippet();
  }

  lemma {:induction false} DisplayConverted(convert: Converter)
    requires convert("b = c", Block) == Ok(MathBC)
    ensures |MathInput| == 51
    ensures Converted(MathInput, Event(DisplayMath, Span(19, 28)), convert) == Ok(MathBC)
  {
    MathInputParts();
    DisplaySnippet();
  }

  lemma {:induction false} BlockConverted(convert: Converter)
    requires convert("\nc = d\n", Block) == Ok(MathCD)
    ensures |MathInput| == 51
    ensures Converted(MathInput, Event(DisplayMath, Span(30, 41)), convert) == Ok(MathCD)
  {
    MathInputParts();
    BlockSnippet();
  }

  /** The edits the first loop records for the example. */
  lemma {:induction false} ExampleEdits(convert: Converter)
    requires convert("a = b", Inline) == Ok(MathAB)
    requires convert("b = c", Block) == Ok(MathBC)
    requires convert("\nc = d\n", Block) == Ok(MathCD)
    ensures MathIn(MathEventsExample, |MathInput|)
    ensures var ms := MathEvents(MathEventsExample, |MathInput|);
      && AllConvert(MathInput, ms, convert)
      && EditsOf(MathInput, ms, convert) == [Edit(Span(10, 17), MathAB), Edit(Span(19, 28), MathBC), Edit(Span(30, 41), MathCD)]
  {
    var c := MathInput;
    ExampleMathEvents();
    InlineConverted(convert);
    DisplayConverted(convert);
    BlockConverted(convert);
    var e1, e2, e3 := Event(InlineMath, Span(10, 17)), Event(DisplayMath, Span(19, 28)), Event(DisplayMath, Span(30, 41));
    assert MathEvents(MathEventsExample, |c|) == [e1, e2, e3];
    ThreeEdits(c, e1, e2, e3, convert);
  }

  /** The repository's test: the three formulas become MathML, converted
      inline, as a block and as a block, and nothing else changes. */
  lemma {:induction false} MathTest(convert: Converter)
    requires convert("a = b", Inline) == Ok(MathAB)
    requires convert("b = c", Block) == Ok(MathBC)
    requires convert("\nc = d\n", Block) == Ok(MathCD)
    ensures MathChained(MathEventsExample, 0, |MathInput|)
    ensures ReplacedLatex(MathInput, MathEventsExample, convert) == Ok(Owned(MathExpected))
  {
    var c, es := MathInput, MathEventsExample;
    ExampleEventsChained();
    ExampleEdits(convert);
    ReplacedLatexMeaning(c, es, convert);
    MathInputParts();
    var a, b, d := Edit(Span(10, 17), MathAB), Edit(Span(19, 28), MathBC), Edit(Span(30, 41), MathCD);
    SplicedThree(c, a, b, d);
  }

  /** Three formulas that convert give three edits, in order. */
  lemma {:induction false} ThreeEdits(c: Text, e1: Event, e2: Event, e3: Event, convert: Converter)
    requires IsMath(e1) && SpanIn(e1.range, |c|) && Converted(c, e1, convert).Ok?
    requires IsMath(e2) && SpanIn(e2.range, |c|) && Converted(c, e2, convert).Ok?
    requires IsMath(e3) && SpanIn(e3.range, |c|) && Converted(c, e3, convert).Ok?
    ensures AllConvert(c, [e1, e2, e3], convert)
    ensures EditsOf(c, [e1, e2, e3], convert) == [
      Edit(e1.range, Converted(c, e1, convert).value), Edit(e2.range, Converted(c, e2, convert).value),
      Edit(e3.range, Converted(c, e3, convert).value)]
  {
    assert [e3] == [e3] + [];
    AllConvertCons(c, e3, [], convert);
    AllConvertCons(c, e2, [e3], convert);
    assert [e1, e2, e3] == [e1] + [e2, e3] && [e2, e3] == [e2] + [e3];
    AllConvertCons(c, e1, [e2, e3], convert);
    assert [e3][1..] == [] && [e2, e3][1..] == [e3] && [e1, e2, e3][1..] == [e2, e3];
    var d1, d2, d3 := Converted(c, e1, convert).value, Converted(c, e2, convert).value, Converted(c, e3, convert).value;
    assert EditsOf(c, [e3], convert) == [Edit(e3.range, d3)] + EditsOf(c, [], convert);
    assert EditsOf(c, [e2, e3], convert) == [Edit(e2.range, d2)] + EditsOf(c, [e3], convert);
    assert EditsOf(c, [e1, e2, e3], convert) == [Edit(e1.range, d1)] + EditsOf(c, [e2, e3], convert);
  }
}
