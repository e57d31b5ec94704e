/** Character ranges of a text and the reference meaning of "replace these ranges
    by these texts". Both rewriting loops of the tools (the forward cursor loop
    of `replace_links` and the back-to-front loop of `replace_latex`) are
    proved against `Spliced`. */
module Splice {
  import opened Base

  /** A half-open character range `start..end`, Rust's `Range<usize>`. */
  datatype Span = Span(start: nat, end: nat)

  /** One accepted replacement: the range and the text that takes its place. */
  datatype Edit = Edit(span: Span, text: Text)

  predicate SpanIn(s: Span, n: nat)
  {
    s.start <= s.end <= n
  }

  /** Every span lies inside a text of length `n`. */
  predicate AllIn(spans: seq<Span>, n: nat)
  {
    forall i :: 0 <= i < |spans| ==> SpanIn(spans[i], n)
  }

  /** The edits lie between `k` and `m`, in ascending order and without
      overlap: each one starts after the previous one (or `k`) and the last
      one ends by `m`. */
  predicate Chained(edits: seq<Edit>, k: nat, m: nat)
    decreases |edits|
  {
    if edits == [] then k <= m
    else
      && k <= edits[0].span.start <= edits[0].span.end <= m
      && Chained(edits[1..], edits[0].span.end, m)
  }

  /** The edits fit a text of length `n`, in ascending order, without overlap. */
  predicate Ordered(edits: seq<Edit>, n: nat)
  {
    Chained(edits, 0, n)
  }

  /** Where a left-to-right copy that started at `k` stands after the edits:
      the end of the last one, or `k` itself. */
  function Cursor(edits: seq<Edit>, k: nat): nat
  {
    if edits == [] then k else edits[|edits| - 1].span.end
  }

  /** Every edit of a chain lies between its bounds. */
  lemma {:induction false} ChainedIn(edits: seq<Edit>, k: nat, m: nat)
    requires Chained(edits, k, m)
    ensures k <= m
    ensures forall i :: 0 <= i < |edits| ==> k <= edits[i].span.start <= edits[i].span.end <= m
    decreases |edits|
  {
    if edits != [] {
      var rest := edits[1..];
      ChainedIn(rest, edits[0].span.end, m);
      assert forall i :: 1 <= i < |edits| ==> edits[i] == rest[i - 1];
    }
  }

  /** A chain can be cut short at its cursor: nothing lies beyond it. */
  lemma {:induction false} ChainedToCursor(edits: seq<Edit>, k: nat, m: nat)
    requires Chained(edits, k, m)
    ensures Cursor(edits, k) <= m && Chained(edits, k, Cursor(edits, k))
    decreases |edits|
  {
    if edits != [] {
      var rest := edits[1..];
      ChainedToCursor(rest, edits[0].span.end, m);
      assert Cursor(rest, edits[0].span.end) == Cursor(edits, k);
    }
  }

  /** A chain stays a chain when its upper bound grows. */
  lemma {:induction false} ChainedWiden(edits: seq<Edit>, k: nat, j: nat, m: nat)
    requires Chained(edits, k, j) && j <= m
    ensures Chained(edits, k, m)
    decreases |edits|
  {
    if edits != [] {
      ChainedWiden(edits[1..], edits[0].span.end, j, m);
    }
  }

  /** An edit at or after the cursor of a chain extends it. */
  lemma {:induction false} ChainedAppend(edits: seq<Edit>, e: Edit, k: nat, j: nat)
    requires Chained(edits, k, j) && j <= e.span.start <= e.span.end
    ensures Chained(edits + [e], k, e.span.end)
    decreases |edits|
  {
    if edits == [] {
      assert edits + [e] == [e] && [e][1..] == [];
    } else {
      assert (edits + [e])[0] == edits[0] && (edits + [e])[1..] == edits[1..] + [e];
      ChainedAppend(edits[1..], e, edits[0].span.end, j);
    }
  }

  /** The characters `k..m` of `c` with every edit's range replaced by its text. */
  function SplicedBetween(c: Text, edits: seq<Edit>, k: nat, m: nat): Text
    requires m <= |c| && Chained(edits, k, m)
    decreases |edits|
  {
    if edits == [] then c[k..m]
    else
      var e := edits[0];
      c[k..e.span.start] + e.text + SplicedBetween(c, edits[1..], e.span.end, m)
  }

  /** The text `c` with every edit's range replaced by the edit's text; the
      text between the ranges and around them is kept as it is. */
  function Spliced(c: Text, edits: seq<Edit>): Text
    requires Ordered(edits, |c|)
  {
    SplicedBetween(c, edits, 0, |c|)
  }

  /** Replacing one range in place, as `replace_latex` does on its output. */
  function SpliceOne(c: Text, e: Edit): Text
    requires SpanIn(e.span, |c|)
  {
    c[..e.span.start] + e.text + c[e.span.end..]
  }

  /** Starting the copy earlier only adds the characters before the first edit. */
  lemma {:induction false} SplicedSkip(c: Text, edits: seq<Edit>, k: nat, j: nat, m: nat)
    requires m <= |c| && k <= j && Chained(edits, j, m)
    ensures Chained(edits, k, m)
    ensures SplicedBetween(c, edits, k, m) == c[k..j] + SplicedBetween(c, edits, j, m)
  {
    if edits == [] {
      assert c[k..m] == c[k..j] + c[j..m];
    } else {
      var e := edits[0];
      var rest := SplicedBetween(c, edits[1..], e.span.end, m);
      assert c[k..e.span.start] == c[k..j] + c[j..e.span.start];
      assert SplicedBetween(c, edits, k, m) == c[k..e.span.start] + e.text + rest;
      assert SplicedBetween(c, edits, j, m) == c[j..e.span.start] + e.text + rest;
    }
  }

  /** Two chains that meet at `j` form one chain, and splicing it is splicing
      each part. */
  lemma {:induction false} SplicedJoin(c: Text, a: seq<Edit>, b: seq<Edit>, k: nat, j: nat, m: nat)
    requires m <= |c| && Chained(a, k, j) && Chained(b, j, m)
    ensures Chained(a + b, k, m)
    ensures SplicedBetween(c, a + b, k, m) == SplicedBetween(c, a, k, j) + SplicedBetween(c, b, j, m)
    decreases |a|
  {
    if a == [] {
      assert a + b == b;
      SplicedSkip(c, b, k, j, m);
    } else {
      SplicedJoin(c, a[1..], b, a[0].span.end, j, m);
      JoinStep(c, a, b, k, j, m);
    }
  }

  /** The inductive step of `SplicedJoin`: the first edit of `a` leads the
      joined chain. */
  lemma {:induction false} JoinStep(c: Text, a: seq<Edit>, b: seq<Edit>, k: nat, j: nat, m: nat)
    requires m <= |c| && a != [] && Chained(a, k, j) && Chained(b, j, m)
    requires Chained(a[1..] + b, a[0].span.end, m)
    requires SplicedBetween(c, a[1..] + b, a[0].span.end, m)
      == SplicedBetween(c, a[1..], a[0].span.end, j) + SplicedBetween(c, b, j, m)
    ensures Chained(a + b, k, m)
    ensures SplicedBetween(c, a + b, k, m) == SplicedBetween(c, a, k, j) + SplicedBetween(c, b, j, m)
  {
    var e := a[0];
    assert (a + b)[0] == e && (a + b)[1..] == a[1..] + b;
    var head := c[k..e.span.start] + e.text;
    var x := SplicedBetween(c, a[1..], e.span.end, j);
    var y := SplicedBetween(c, b, j, m);
    assert SplicedBetween(c, a + b, k, m) == head + (x + y);
    assert SplicedBetween(c, a, k, j) == head + x;
  }

  /** An edit that starts at or after the cursor can follow a chain, and the
      copy up to its end grows by the gap and its text. */
  lemma {:induction false} SplicedAppend(c: Text, edits: seq<Edit>, e: Edit, k: nat, j: nat)
    requires e.span.end <= |c| && Chained(edits, k, j) && j <= e.span.start <= e.span.end
    ensures Chained(edits + [e], k, e.span.end)
    ensures SplicedBetween(c, edits + [e], k, e.span.end)
      == SplicedBetween(c, edits, k, j) + c[j..e.span.start] + e.text
  {
    assert [e][1..] == [];
    SplicedJoin(c, edits, [e], k, j, e.span.end);
  }

  /** Splicing up to the cursor and copying the rest is splicing the whole. */
  lemma {:induction false} SplicedFinish(c: Text, edits: seq<Edit>, j: nat)
    requires j <= |c| && Chained(edits, 0, j)
    ensures Ordered(edits, |c|)
    ensures Spliced(c, edits) == SplicedBetween(c, edits, 0, j) + c[j..]
  {
    assert edits + [] == edits;
    SplicedJoin(c, edits, [], 0, j, |c|);
  }

  /** Everything before the first edited range is copied unchanged, and the
      text after the last edited range ends the result. */
  lemma {:induction false} SplicedKeepsOutside(c: Text, edits: seq<Edit>)
    requires Ordered(edits, |c|) && edits != []
    ensures edits[0].span.start <= |Spliced(c, edits)|
    ensures Spliced(c, edits)[..edits[0].span.start] == c[..edits[0].span.start]
    ensures var k := Cursor(edits, 0);
      k <= |c| && |c| - k <= |Spliced(c, edits)| &&
      Spliced(c, edits)[|Spliced(c, edits)| - (|c| - k)..] == c[k..]
  {
    var s0 := edits[0].span.start;
    SplicedSkip(c, edits, 0, s0, |c|);
    assert (c[..s0] + SplicedBetween(c, edits, s0, |c|))[..s0] == c[..s0];
    var k := Cursor(edits, 0);
    ChainedToCursor(edits, 0, |c|);
    SplicedFinish(c, edits, k);
  }

  /** The edit puts back the characters its range already holds. */
  predicate KeepsText(c: Text, e: Edit)
  {
    SpanIn(e.span, |c|) && e.text == c[e.span.start..e.span.end]
  }

  /** Replacing every range by the text already there changes nothing. */
  lemma {:induction false} SplicedBetweenIdentity(c: Text, edits: seq<Edit>, k: nat, m: nat)
    requires m <= |c| && Chained(edits, k, m)
    requires forall i :: 0 <= i < |edits| ==> KeepsText(c, edits[i])
    ensures SplicedBetween(c, edits, k, m) == c[k..m]
    decreases |edits|
  {
    if edits != [] {
      var e := edits[0];
      var rest := edits[1..];
      assert forall i :: 0 <= i < |rest| ==> rest[i] == edits[i + 1];
      SplicedBetweenIdentity(c, rest, e.span.end, m);
      ChainedIn(rest, e.span.end, m);
      assert c[k..e.span.start] + c[e.span.start..e.span.end] + c[e.span.end..m] == c[k..m];
    }
  }

  lemma {:induction false} SplicedIdentity(c: Text, edits: seq<Edit>)
    requires Ordered(edits, |c|)
    requires forall i :: 0 <= i < |edits| ==> KeepsText(c, edits[i])
    ensures Spliced(c, edits) == c
  {
    SplicedBetweenIdentity(c, edits, 0, |c|);
  }

  /** The backward step of `replace_latex`: replacing a range that lies
      before all the already applied ones, in the already rewritten text,
      gives the same text as applying all the edits to the original. */
  lemma {:induction false} SplicedPrepend(c: Text, e: Edit, edits: seq<Edit>)
    requires e.span.start <= e.span.end && Chained(edits, e.span.end, |c|)
    ensures Ordered([e] + edits, |c|)
    ensures SpanIn(e.span, |Spliced(c, edits)|)
    ensures SpliceOne(Spliced(c, edits), e) == Spliced(c, [e] + edits)
  {
    var all := [e] + edits;
    assert all[0] == e && all[1..] == edits;
    SplicedSkip(c, edits, 0, e.span.end, |c|);
    var x := Spliced(c, edits);
    var tail := SplicedBetween(c, edits, e.span.end, |c|);
    assert x == c[..e.span.end] + tail;
    assert x[..e.span.start] == c[..e.span.start];
    assert x[e.span.end..] == tail;
  }

  /** Three edits spelled out: the text around and between them is kept. */
  lemma {:induction false} SplicedThree(c: Text, a: Edit, b: Edit, d: Edit)
    requires a.span.start <= a.span.end <= b.span.start <= b.span.end <= d.span.start <= d.span.end <= |c|
    ensures Ordered([a, b, d], |c|)
    ensures Spliced(c, [a, b, d]) ==
      c[..a.span.start] + a.text + c[a.span.end..b.span.start] + b.text +
      c[b.span.end..d.span.start] + d.text + c[d.span.end..]
  {
    assert [a, b, d][1..] == [b, d] && [b, d][1..] == [d] && [d][1..] == [];
    assert Chained([d], b.span.end, |c|);
    assert Chained([b, d], a.span.end, |c|);
    assert SplicedBetween(c, [], d.span.end, |c|) == c[d.span.end..];
    var z := SplicedBetween(c, [d], b.span.end, |c|);
    assert z == c[b.span.end..d.span.start] + d.text + c[d.span.end..];
    var y := SplicedBetween(c, [b, d], a.span.end, |c|);
    assert y == c[a.span.end..b.span.start] + b.text + z;
  }

  lemma {:induction false} SplicedTwo(c: Text, a: Edit, b: Edit)
    requires a.span.start <= a.span.end <= b.span.start <= b.span.end <= |c|
    ensures Ordered([a, b], |c|)
    ensures Spliced(c, [a, b]) == c[..a.span.start] + a.text + c[a.span.end..b.span.start] + b.text + c[b.span.end..]
  {
    assert [a, b][1..] == [b] && [b][1..] == [];
    assert Chained([b], a.span.end, |c|);
    assert SplicedBetween(c, [], b.span.end, |c|) == c[b.span.end..];
    var y := SplicedBetween(c, [b], a.span.end, |c|);
    assert y == c[a.span.end..b.span.start] + b.text + c[b.span.end..];
  }

  /** The edits after the first `i` of a chain form a chain from the end of
      edit `i - 1`. */
  lemma {:induction false} ChainedSuffix(edits: seq<Edit>, i: nat, k: nat, m: nat)
    requires Chained(edits, k, m) && 0 < i <= |edits|
    ensures Chained(edits[i..], edits[i - 1].span.end, m)
    decreases i
  {
    if i > 1 {
      ChainedSuffix(edits[1..], i - 1, edits[0].span.end, m);
      assert edits[1..][i - 1..] == edits[i..] && edits[1..][i - 2] == edits[i - 1];
    }
  }
}
