/** The destination rewriting loop shared by the tools (`replace_links`):
    every destination span, in the order given, is trimmed and handed to the
    caller's decision; an accepted destination replaces the whole span, the
    text between accepted spans is copied through a cursor, and a text with
    no accepted destination is handed back unchanged (`Cow::Borrowed`). */
module Rewrite {
  import opened Base
  import opened Splice
  import opened MdastLinks

  /** The caller's `replacement` callback: `Ok(None)` keeps the destination,
      `Ok(Some(t))` replaces it by `t`, `Err` aborts the whole rewrite. */
  type Decider = Text -> Result<Option<Text>, Failure>

  /** `content[link].trim()`: what the decision sees of a span. */
  function LinkText(c: Text, s: Span): Text
    requires SpanIn(s, |c|)
  {
    Trim(c[s.start..s.end])
  }

  /** The panic of `content[cursor..link.start]` when the cursor lies past
      the start of the next accepted span. */
  const SliceOrder: Text := "slice index starts after its end"

  /** The edits accepted over `spans`, processed in order, or the first fault:
      a decision's error, or the slice panic when an accepted span starts
      before the cursor (it overlaps or precedes an earlier accepted span). */
  function Run(c: Text, spans: seq<Span>, decide: Decider): (r: Result<seq<Edit>, Failure>)
    requires AllIn(spans, |c|)
    ensures r.Ok? ==> Cursor(r.value, 0) <= |c| && Chained(r.value, 0, Cursor(r.value, 0))
    ensures r.Ok? ==> Ordered(r.value, |c|)
    decreases |spans|
  {
    if spans == [] then Ok([])
    else
      var s := spans[|spans| - 1];
      match Run(c, spans[..|spans| - 1], decide)
      case Err(f) => Err(f)
      case Ok(acc) =>
        match decide(LinkText(c, s))
        case Err(f) => Err(f)
        case Ok(None) => Ok(acc)
        case Ok(Some(t)) =>
          if Cursor(acc, 0) > s.start then Err(Panic(SliceOrder))
          else
            ChainedAppend(acc, Edit(s, t), 0, Cursor(acc, 0));
            ChainedWiden(acc + [Edit(s, t)], 0, s.end, |c|);
            Ok(acc + [Edit(s, t)])
  }

  /** The rewritten text: an error, the caller's own text when nothing was
      accepted, or a new text with every accepted edit applied. */
  function Rewritten(c: Text, spans: seq<Span>, decide: Decider): Result<Cow, Failure>
    requires AllIn(spans, |c|)
  {
    match Run(c, spans, decide)
    case Err(f) => Err(f)
    case Ok(edits) => if edits == [] then Ok(Borrowed) else Ok(Owned(Spliced(c, edits)))
  }

  /** The loop of `replace_links`, with the `(new_content, cursor)` state. */
  method SpliceDecisions(c: Text, spans: seq<Span>, decide: Decider) returns (r: Result<Cow, Failure>)
    requires AllIn(spans, |c|)
    ensures r == Rewritten(c, spans, decide)
  {
    var state: Option<(Text, nat)> := None;
    ghost var edits: seq<Edit> := [];
    var i := 0;
    while i < |spans|
      invariant 0 <= i <= |spans|
      invariant Run(c, spans[..i], decide) == Ok(edits)
      invariant state.None? <==> edits == []
      invariant (if state.Some? then state.value else ("", 0)) == Progress(c, edits)
    {
      var link := spans[i];
      var decision := decide(Trim(c[link.start..link.end]));
      if decision.Err? {
        FaultStep(c, spans, decide, i, edits);
        return Err(decision.error);
      }
      if decision.value.Some? {
        var newLink := decision.value.value;
        var (newContent, cursor) := if state.Some? then state.value else ("", 0);
        if cursor > link.start {
          FaultStep(c, spans, decide, i, edits);
          return Err(Panic(SliceOrder));
        }
        AcceptStep(c, spans, decide, i, edits, newLink);
        state := Some((newContent + c[cursor..link.start] + newLink, link.end));
        edits := edits + [Edit(link, newLink)];
      } else {
        DeclineStep(c, spans, decide, i, edits);
      }
      i := i + 1;
    }
    assert spans[..i] == spans;
    if state.Some? {
      var (newContent, idx) := state.value;
      SplicedFinish(c, edits, idx);
      r := Ok(Owned(newContent + c[idx..]));
    } else {
      r := Ok(Borrowed);
    }
  }

  /** The loop state after the accepted edits: the spliced text up to the
      cursor, and the cursor. */
  ghost function Progress(c: Text, edits: seq<Edit>): (Text, nat)
    requires Cursor(edits, 0) <= |c| && Chained(edits, 0, Cursor(edits, 0))
  {
    (SplicedBetween(c, edits, 0, Cursor(edits, 0)), Cursor(edits, 0))
  }

  /** An accepted span at or after the cursor: `Run` appends its edit, and
      the state grows by the copied gap and the new destination. */
  lemma {:induction false} AcceptStep(c: Text, spans: seq<Span>, decide: Decider, i: nat, edits: seq<Edit>, t: Text)
    requires AllIn(spans, |c|) && i < |spans| && Run(c, spans[..i], decide) == Ok(edits)
    requires decide(LinkText(c, spans[i])) == Ok(Some(t))
    requires Cursor(edits, 0) <= spans[i].start
    ensures Run(c, spans[..i + 1], decide) == Ok(edits + [Edit(spans[i], t)])
    ensures Progress(c, edits + [Edit(spans[i], t)]) ==
      (Progress(c, edits).0 + c[Cursor(edits, 0)..spans[i].start] + t, spans[i].end)
  {
    RunStep(c, spans, decide, i);
    SplicedAppend(c, edits, Edit(spans[i], t), 0, Cursor(edits, 0));
  }

  /** A declined span leaves the edits as they are. */
  lemma {:induction false} DeclineStep(c: Text, spans: seq<Span>, decide: Decider, i: nat, edits: seq<Edit>)
    requires AllIn(spans, |c|) && i < |spans| && Run(c, spans[..i], decide) == Ok(edits)
    requires decide(LinkText(c, spans[i])) == Ok(None)
    ensures Run(c, spans[..i + 1], decide) == Ok(edits)
  {
    RunStep(c, spans, decide, i);
  }

  /** A decision error, or an accepted span before the cursor, is the fault
      of the whole run. */
  lemma {:induction false} FaultStep(c: Text, spans: seq<Span>, decide: Decider, i: nat, edits: seq<Edit>)
    requires AllIn(spans, |c|) && i < |spans| && Run(c, spans[..i], decide) == Ok(edits)
    requires || decide(LinkText(c, spans[i])).Err?
             || (decide(LinkText(c, spans[i])).Ok? && decide(LinkText(c, spans[i])).value.Some? &&
                 Cursor(edits, 0) > spans[i].start)
    ensures decide(LinkText(c, spans[i])).Err? ==> Run(c, spans, decide) == Err(decide(LinkText(c, spans[i])).error)
    ensures decide(LinkText(c, spans[i])).Ok? ==> Run(c, spans, decide) == Err(Panic(SliceOrder))
  {
    RunStep(c, spans, decide, i);
    RunKeepsFault(c, spans, decide, i + 1);
  }

  /** Processing one more span, as `Run` defines it, on a prefix. */
  lemma {:induction false} RunStep(c: Text, spans: seq<Span>, decide: Decider, i: nat)
    requires AllIn(spans, |c|) && i < |spans|
    ensures Run(c, spans[..i + 1], decide) ==
      match Run(c, spans[..i], decide)
      case Err(f) => Err(f)
      case Ok(acc) =>
        match decide(LinkText(c, spans[i]))
        case Err(f) => Err(f)
        case Ok(None) => Ok(acc)
        case Ok(Some(t)) =>
          if Cursor(acc, 0) > spans[i].start then Err(Panic(SliceOrder))
          else Ok(acc + [Edit(spans[i], t)])
  {
    assert spans[..i + 1][..i] == spans[..i];
  }

  /** Once a prefix of the spans faults, processing the rest changes nothing. */
  lemma {:induction false} RunKeepsFault(c: Text, spans: seq<Span>, decide: Decider, k: nat)
    requires AllIn(spans, |c|) && k <= |spans|
    requires Run(c, spans[..k], decide).Err?
    ensures Run(c, spans, decide) == Run(c, spans[..k], decide)
    decreases |spans| - k
  {
    if k < |spans| {
      assert spans[..|spans| - 1][..k] == spans[..k];
      RunKeepsFault(c, spans[..|spans| - 1], decide, k);
    } else {
      assert spans[..k] == spans;
    }
  }

  /** Every decision over the spans declines its destination. */
  predicate AllDeclined(c: Text, spans: seq<Span>, decide: Decider)
    requires AllIn(spans, |c|)
  {
    forall i :: 0 <= i < |spans| ==> decide(LinkText(c, spans[i])) == Ok(None)
  }

  /** When every destination is declined, nothing is accepted and nothing
      faults. */
  lemma {:induction false} AllDeclinedRunsEmpty(c: Text, spans: seq<Span>, decide: Decider)
    requires AllIn(spans, |c|) && AllDeclined(c, spans, decide)
    ensures Run(c, spans, decide) == Ok([])
    decreases |spans|
  {
    if spans != [] {
      var front := spans[..|spans| - 1];
      assert forall i :: 0 <= i < |front| ==> front[i] == spans[i];
      assert AllDeclined(c, front, decide);
      AllDeclinedRunsEmpty(c, front, decide);
    }
  }

  /** When nothing is accepted and nothing faults, every destination was
      declined. */
  lemma {:induction false} RunsEmptyAllDeclined(c: Text, spans: seq<Span>, decide: Decider)
    requires AllIn(spans, |c|) && Run(c, spans, decide) == Ok([])
    ensures AllDeclined(c, spans, decide)
    decreases |spans|
  {
    if spans != [] {
      var front := spans[..|spans| - 1];
      RunEmptyStep(c, spans, decide);
      RunsEmptyAllDeclined(c, front, decide);
      AllDeclinedSnoc(c, spans, decide);
    }
  }

  /** Declining every span but the last, and the last, is declining all. */
  lemma {:induction false} AllDeclinedSnoc(c: Text, spans: seq<Span>, decide: Decider)
    requires AllIn(spans, |c|) && spans != []
    requires AllIn(spans[..|spans| - 1], |c|) && AllDeclined(c, spans[..|spans| - 1], decide)
    requires decide(LinkText(c, spans[|spans| - 1])) == Ok(None)
    ensures AllDeclined(c, spans, decide)
  {
    var front := spans[..|spans| - 1];
    forall i | 0 <= i < |spans|
      ensures decide(LinkText(c, spans[i])) == Ok(None)
    {
      if i < |front| {
        assert spans[i] == front[i];
        assert decide(LinkText(c, front[i])) == Ok(None);
      }
    }
  }

  /** A run that accepts nothing and does not fault declined its last span
      and accepted nothing before it. */
  lemma {:induction false} RunEmptyStep(c: Text, spans: seq<Span>, decide: Decider)
    requires AllIn(spans, |c|) && spans != [] && Run(c, spans, decide) == Ok([])
    ensures AllIn(spans[..|spans| - 1], |c|)
    ensures Run(c, spans[..|spans| - 1], decide) == Ok([])
    ensures decide(LinkText(c, spans[|spans| - 1])) == Ok(None)
  {
  }

  /** The text is handed back unchanged exactly when every destination is
      declined. */
  lemma {:induction false} BorrowedIffAllDeclined(c: Text, spans: seq<Span>, decide: Decider)
    requires AllIn(spans, |c|)
    ensures Rewritten(c, spans, decide) == Ok(Borrowed) <==> AllDeclined(c, spans, decide)
  {
    if AllDeclined(c, spans, decide) {
      AllDeclinedRunsEmpty(c, spans, decide);
    }
    if Rewritten(c, spans, decide) == Ok(Borrowed) {
      RunsEmptyAllDeclined(c, spans, decide);
    }
  }

  /** No accepted span starts before an earlier span ends. */
  predicate Ascending(spans: seq<Span>)
  {
    forall i, j :: 0 <= i < j < |spans| ==> spans[i].end <= spans[j].start
  }

  /** Every decision over the spans is `Ok`. */
  predicate AllDecided(c: Text, spans: seq<Span>, decide: Decider)
    requires AllIn(spans, |c|)
  {
    forall i :: 0 <= i < |spans| ==> decide(LinkText(c, spans[i])).Ok?
  }

  /** The edit is one of the spans with the text its decision accepted. */
  ghost predicate AcceptedFrom(c: Text, spans: seq<Span>, decide: Decider, e: Edit)
    requires AllIn(spans, |c|)
  {
    exists j :: 0 <= j < |spans| && e.span == spans[j] && decide(LinkText(c, spans[j])) == Ok(Some(e.text))
  }

  /** Reference definition of the accepted edits: the spans whose decision
      is `Ok(Some(t))`, each with its `t`, in order. */
  function Accepted(c: Text, spans: seq<Span>, decide: Decider): seq<Edit>
    requires AllIn(spans, |c|)
    decreases |spans|
  {
    if spans == [] then []
    else
      var front := spans[..|spans| - 1];
      var s := spans[|spans| - 1];
      var acc := Accepted(c, front, decide);
      match decide(LinkText(c, s))
      case Ok(Some(t)) => acc + [Edit(s, t)]
      case _ => acc
  }

  /** Each accepted edit is one of the spans with the text its decision
      gave, and there are no more edits than spans. */
  lemma {:induction false} AcceptedFromSpans(c: Text, spans: seq<Span>, decide: Decider)
    requires AllIn(spans, |c|)
    ensures |Accepted(c, spans, decide)| <= |spans|
    ensures forall k :: 0 <= k < |Accepted(c, spans, decide)| ==>
      AcceptedFrom(c, spans, decide, Accepted(c, spans, decide)[k])
    decreases |spans|
  {
    if spans != [] {
      var front := spans[..|spans| - 1];
      var acc := Accepted(c, front, decide);
      AcceptedFromSpans(c, front, decide);
      forall k | 0 <= k < |acc|
        ensures AcceptedFrom(c, spans, decide, acc[k])
      {
        var j :| 0 <= j < |front| && acc[k].span == front[j] && decide(LinkText(c, front[j])) == Ok(Some(acc[k].text));
        assert front[j] == spans[j];
      }
    }
  }

  /** When every span ends by `k`, so does the last accepted edit. */
  lemma {:induction false} AcceptedCursor(c: Text, spans: seq<Span>, decide: Decider, k: nat)
    requires AllIn(spans, |c|)
    requires forall i :: 0 <= i < |spans| ==> spans[i].end <= k
    ensures Cursor(Accepted(c, spans, decide), 0) <= k
    decreases |spans|
  {
    if spans != [] {
      var front := spans[..|spans| - 1];
      assert forall i :: 0 <= i < |front| ==> front[i] == spans[i];
      AcceptedCursor(c, front, decide, k);
    }
  }

  /** With ascending spans and no decision error, the loop cannot panic: the
      result is the caller's text when nothing is accepted and otherwise the
      text with exactly the accepted edits applied. */
  lemma {:induction false} AscendingRewrite(c: Text, spans: seq<Span>, decide: Decider)
    requires AllIn(spans, |c|) && Ascending(spans) && AllDecided(c, spans, decide)
    ensures Run(c, spans, decide) == Ok(Accepted(c, spans, decide))
    ensures Rewritten(c, spans, decide) ==
      var edits := Accepted(c, spans, decide);
      Ok(if edits == [] then Borrowed else Owned(Spliced(c, edits)))
    decreases |spans|
  {
    if spans != [] {
      var front := spans[..|spans| - 1];
      var s := spans[|spans| - 1];
      assert forall i :: 0 <= i < |front| ==> front[i] == spans[i];
      AscendingRewrite(c, front, decide);
      AcceptedCursor(c, front, decide, s.start);
    }
  }

  /** With ascending spans, the first decision error aborts the rewrite with
      that error. */
  lemma {:induction false} FirstErrorAborts(c: Text, spans: seq<Span>, decide: Decider, i: nat)
    requires AllIn(spans, |c|) && Ascending(spans) && i < |spans|
    requires AllDecided(c, spans[..i], decide)
    requires decide(LinkText(c, spans[i])).Err?
    ensures Rewritten(c, spans, decide) == Err(decide(LinkText(c, spans[i])).error)
  {
    var p := spans[..i];
    assert forall k :: 0 <= k < |p| ==> p[k] == spans[k];
    AscendingRewrite(c, p, decide);
    RunStep(c, spans, decide, i);
    RunKeepsFault(c, spans, decide, i + 1);
  }

  /** The first span whose decision errs, when some decision errs. */
  lemma {:induction false} FirstUndecided(c: Text, spans: seq<Span>, decide: Decider) returns (i: nat)
    requires AllIn(spans, |c|) && !AllDecided(c, spans, decide)
    ensures i < |spans| && AllDecided(c, spans[..i], decide)
    ensures decide(LinkText(c, spans[i])).Err?
    decreases |spans|
  {
    if decide(LinkText(c, spans[0])).Err? {
      i := 0;
    } else {
      var rest := spans[1..];
      assert forall k :: 0 <= k < |rest| ==> rest[k] == spans[k + 1];
      var j := FirstUndecided(c, rest, decide);
      i := j + 1;
      assert forall k :: 0 < k < i ==> spans[..i][k] == rest[..j][k - 1];
    }
  }

  /** With ascending spans the rewrite never panics on a slice: every error
      it returns is the error of some decision. */
  lemma {:induction false} AscendingErrorIsDecision(c: Text, spans: seq<Span>, decide: Decider)
    requires AllIn(spans, |c|) && Ascending(spans)
    ensures Rewritten(c, spans, decide).Err? ==>
      exists i :: 0 <= i < |spans| && decide(LinkText(c, spans[i])) == Err(Rewritten(c, spans, decide).error)
  {
    if AllDecided(c, spans, decide) {
      AscendingRewrite(c, spans, decide);
    } else {
      var i := FirstUndecided(c, spans, decide);
      FirstErrorAborts(c, spans, decide, i);
    }
  }

  /** Every fault of the loop is a decision's own error or the slice panic. */
  lemma {:induction false} RunErrorSource(c: Text, spans: seq<Span>, decide: Decider)
    requires AllIn(spans, |c|) && Run(c, spans, decide).Err?
    ensures var f := Run(c, spans, decide).error;
      || f == Panic(SliceOrder)
      || exists i :: 0 <= i < |spans| && decide(LinkText(c, spans[i])) == Err(f)
    decreases |spans|
  {
    var front := spans[..|spans| - 1];
    var f := Run(c, spans, decide).error;
    if Run(c, front, decide).Err? {
      RunErrorSource(c, front, decide);
      if f != Panic(SliceOrder) {
        var i :| 0 <= i < |front| && decide(LinkText(c, front[i])) == Err(f);
        assert front[i] == spans[i];
      }
    }
  }

  /** When every decision accepts with the same text, every span is an edit
      with that text. */
  lemma {:induction false} AcceptedAll(c: Text, spans: seq<Span>, decide: Decider, t: Text)
    requires AllIn(spans, |c|)
    requires forall i :: 0 <= i < |spans| ==> decide(LinkText(c, spans[i])) == Ok(Some(t))
    ensures AllDecided(c, spans, decide)
    ensures |Accepted(c, spans, decide)| == |spans|
    ensures forall i :: 0 <= i < |spans| ==> Accepted(c, spans, decide)[i] == Edit(spans[i], t)
    decreases |spans|
  {
    if spans != [] {
      var front := spans[..|spans| - 1];
      var last := spans[|spans| - 1];
      assert AllIn(front, |c|) && forall i :: 0 <= i < |front| ==> decide(LinkText(c, front[i])) == Ok(Some(t)) by {
        assert forall i :: 0 <= i < |front| ==> front[i] == spans[i];
      }
      AcceptedAll(c, front, decide, t);
      var acc := Accepted(c, front, decide);
      assert decide(LinkText(c, last)) == Ok(Some(t));
      var r := acc + [Edit(last, t)];
      assert Accepted(c, spans, decide) == r;
      forall i | 0 <= i < |spans|
        ensures r[i] == Edit(spans[i], t)
      {
        if i < |front| {
          assert front[i] == spans[i];
        }
      }
    }
  }

  /** `replace_links` of the markdown-rs tools: the spans of the tree, then
      the rewrite over them; a panic while locating the spans aborts first. */
  function Replaced(c: Text, ast: Node, decide: Decider): Result<Cow, Failure>
  {
    match GetLinks(c, ast)
    case Err(f) => Err(f)
    case Ok(spans) => Rewritten(c, spans, decide)
  }

  /** `replace_links` of mdutil-lib: locate the spans, then run the loop. */
  method ReplaceLinks(c: Text, ast: Node, decide: Decider) returns (r: Result<Cow, Failure>)
    ensures r == Replaced(c, ast, decide)
  {
    var links := GetLinks(c, ast);
    if links.Err? {
      return Err(links.error);
    }
    r := SpliceDecisions(c, links.value, decide);
  }

  /** The text comes back unchanged exactly when the spans are found and
      every trimmed destination is declined. */
  lemma {:induction false} ReplacedBorrowedIff(c: Text, ast: Node, decide: Decider)
    ensures Replaced(c, ast, decide) == Ok(Borrowed) <==>
      GetLinks(c, ast).Ok? && AllDeclined(c, GetLinks(c, ast).value, decide)
  {
    if GetLinks(c, ast).Ok? {
      BorrowedIffAllDeclined(c, GetLinks(c, ast).value, decide);
    }
  }

  /** Three ascending spans that are all accepted with the same text. */
  lemma {:induction false} RewriteThree(c: Text, a: Span, b: Span, d: Span, decide: Decider, t: Text)
    requires a.start <= a.end <= b.start <= b.end <= d.start <= d.end <= |c|
    requires decide(LinkText(c, a)) == Ok(Some(t)) && decide(LinkText(c, b)) == Ok(Some(t))
    requires decide(LinkText(c, d)) == Ok(Some(t))
    ensures AllIn([a, b, d], |c|)
    ensures Rewritten(c, [a, b, d], decide) == Ok(Owned(
      c[..a.start] + t + c[a.end..b.start] + t + c[b.end..d.start] + t + c[d.end..]))
  {
    var spans := [a, b, d];
    AcceptedAll(c, spans, decide, t);
    AscendingRewrite(c, spans, decide);
    var e1, e2, e3 := Edit(a, t), Edit(b, t), Edit(d, t);
    assert Accepted(c, spans, decide) == [e1, e2, e3];
    SplicedThree(c, e1, e2, e3);
  }

  /** Two ascending spans, both replaced by the same text. */
  lemma {:induction false} RewriteTwo(c: Text, a: Span, b: Span, decide: Decider, t: Text)
    requires a.start <= a.end <= b.start <= b.end <= |c|
    requires decide(LinkText(c, a)) == Ok(Some(t)) && decide(LinkText(c, b)) == Ok(Some(t))
    ensures AllIn([a, b], |c|)
    ensures Rewritten(c, [a, b], decide) == Ok(Owned(c[..a.start] + t + c[a.end..b.start] + t + c[b.end..]))
  {
    var spans := [a, b];
    AcceptedAll(c, spans, decide, t);
    AscendingRewrite(c, spans, decide);
    var e1, e2 := Edit(a, t), Edit(b, t);
    assert Accepted(c, spans, decide) == [e1, e2];
    SplicedTwo(c, e1, e2);
  }
}
