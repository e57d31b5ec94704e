/** Title lookup (`get_title` of mdutil-lib): the first top-level heading of
    depth 1 among a node's direct children, without its `#` marks and the
    whitespace around the words. */
module Headings {
  import opened Base
  import opened MdastLinks

  /** A child that `get_title` takes: a depth-1 heading with a position. */
  predicate IsTitleHeading(n: Node)
  {
    n.Heading? && n.depth == 1 && n.position.Some?
  }

  /** The title text of a heading's source: every leading `#` dropped, then
      the whitespace at both ends. */
  function TitleOf(t: Text): Text
  {
    Trim(TrimStartMatches(t, '#'))
  }

  /** `get_title` over a list of children: the first title heading decides;
      slicing its range out of the text panics when the range is not in
      the text. */
  function TitleIn(c: Text, cs: seq<Node>): (r: Result<Option<Text>, Failure>)
    ensures r.Err? ==> r.error.Panic?
    decreases |cs|
  {
    if cs == [] then Ok(None)
    else if IsTitleHeading(cs[0]) then
      var p := cs[0].position.value;
      if p.start <= p.end <= |c| then Ok(Some(TitleOf(c[p.start..p.end])))
      else Err(Panic("byte index out of range"))
    else TitleIn(c, cs[1..])
  }

  /** `get_title(node, content)`: only the node's own children are looked at. */
  function GetTitle(n: Node, c: Text): Result<Option<Text>, Failure>
  {
    TitleIn(c, ChildrenOf(n))
  }

  /** There is no title exactly when no direct child is a title heading. */
  lemma {:induction false} NoTitleIff(c: Text, cs: seq<Node>)
    ensures TitleIn(c, cs) == Ok(None) <==> forall i :: 0 <= i < |cs| ==> !IsTitleHeading(cs[i])
    decreases |cs|
  {
    if cs != [] && !IsTitleHeading(cs[0]) {
      NoTitleIff(c, cs[1..]);
      assert forall i :: 1 <= i < |cs| ==> cs[i] == cs[1..][i - 1];
    }
  }

  /** The first title heading among the children decides the title, however
      many others follow it. */
  lemma {:induction false} FirstTitleWins(c: Text, cs: seq<Node>, i: nat)
    requires i < |cs| && IsTitleHeading(cs[i])
    requires forall j :: 0 <= j < i ==> !IsTitleHeading(cs[j])
    ensures var p := cs[i].position.value;
      TitleIn(c, cs) ==
        if p.start <= p.end <= |c| then Ok(Some(TitleOf(c[p.start..p.end])))
        else Err(Panic("byte index out of range"))
    decreases i
  {
    if i > 0 {
      assert forall j :: 0 <= j < i - 1 ==> cs[1..][j] == cs[j + 1];
      FirstTitleWins(c, cs[1..], i - 1);
    }
  }

  /** The title is a piece of the heading's source: before it come the `#`
      marks and then whitespace, after it only whitespace, and it neither
      starts nor ends with whitespace. */
  lemma {:induction false} TitleShape(t: Text)
    ensures var u := TrimStartMatches(t, '#');
      var h := |t| - |u|;
      var lo := h + |u| - |TrimStart(u)|;
      var r := TitleOf(t);
      && lo + |r| <= |t| && r == t[lo..lo + |r|]
      && (forall i :: 0 <= i < h ==> t[i] == '#')
      && (h < |t| ==> t[h] != '#')
      && (forall i :: h <= i < lo ==> IsWhitespace(t[i]))
      && (forall i :: lo + |r| <= i < |t| ==> IsWhitespace(t[i]))
      && (r != [] ==> !IsWhitespace(r[0]) && !IsWhitespace(r[|r| - 1]))
  {
    var u := TrimStartMatches(t, '#');
    TrimStartMatchesShape(t, '#');
    TrimShape(u);
    var h := |t| - |u|;
    var lo' := |u| - |TrimStart(u)|;
    var lo := h + lo';
    var r := TitleOf(t);
    assert u == t[h..];
    assert r == u[lo'..lo' + |r|];
    SuffixSlice(t, h, lo', |r|);
    forall i | h <= i < lo
      ensures IsWhitespace(t[i])
    {
      assert t[i] == u[i - h];
    }
    forall i | lo + |r| <= i < |t|
      ensures IsWhitespace(t[i])
    {
      assert t[i] == u[i - h];
    }
  }

  /** Positions in a suffix of `t` are positions in `t`, shifted by `h`. */
  lemma {:induction false} SuffixSlice(t: Text, h: nat, a: nat, n: nat)
    requires h <= |t| && a + n <= |t| - h
    ensures t[h..][a..a + n] == t[h + a..h + a + n]
    ensures forall i :: 0 <= i < |t| - h ==> t[h..][i] == t[h + i]
  {
  }

  /** A heading nested below a child is never the title: when no direct
      child is a title heading there is no title, whatever the descendants
      hold. */
  lemma {:induction false} NestedHeadingIgnored(n: Node, c: Text)
    requires forall i :: 0 <= i < |ChildrenOf(n)| ==> !IsTitleHeading(ChildrenOf(n)[i])
    ensures GetTitle(n, c) == Ok(None)
  {
    NoTitleIff(c, ChildrenOf(n));
  }

  /** A level-1 heading one level down. */
  const NestedExample: Node := Other([Other([Heading(1, Some(Position(0, 5)), [])])])

  lemma {:induction false} NestedExampleIgnored(c: Text)
    ensures GetTitle(NestedExample, c) == Ok(None)
  {
    NestedHeadingIgnored(NestedExample, c);
  }

  /** `# Hello  ` as the second child, after a non-heading: the title is
      `Hello`. */
  lemma {:induction false} SimpleTitle()
    ensures GetTitle(Other([Other([]), Heading(1, Some(Position(0, 9)), [])]), "# Hello  ") == Ok(Some("Hello"))
  {
    var t: Text := "# Hello  ";
    var u: Text := " Hello  ";
    var v: Text := "Hello  ";
    var w: Text := "Hello";
    assert t[0] == '#' && t[1..] == u && u[0] != '#';
    assert TrimStartMatches(t, '#') == u;
    assert IsWhitespace(u[0]) && u[1..] == v && !IsWhitespace(v[0]);
    assert TrimStart(u) == v;
    assert IsWhitespace(v[6]) && v[..6] == w + " " && IsWhitespace((w + " ")[5]) && (w + " ")[..5] == w;
    assert !IsWhitespace(w[4]);
    assert TrimEnd(v) == w;
    var cs := [Other([]), Heading(1, Some(Position(0, 9)), [])];
    assert !IsTitleHeading(cs[0]) && cs[1..][0] == cs[1];
    assert t[0..9] == t;
  }
}
