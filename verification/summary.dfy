/** mdsummary: the `SUMMARY.md` of an mdBook, built from a directory tree.
    Every directory becomes a node titled by its index file (`README.md` or
    `index.md`) or by its own name; every Markdown file other than
    `SUMMARY.md` becomes a leaf titled by its first heading or its stem; the
    tree is rendered as a nested Markdown list. The directory tree is given
    as a value, with symbolic links already resolved. */
module Summary {
  import opened Base
  import opened MdastLinks
  import opened Headings

  /** A directory entry: a directory with its entries in the order
      `read_dir` lists them, or a file with its content and the syntax tree
      the Markdown parser makes of it (the parser is not part of this
      model). */
  datatype Entry =
    | Dir(name: Text, entries: seq<Entry>)
    | File(name: Text, content: Text, ast: Node)

  /** `Node` of mdsummary. */
  datatype SNode = SNode(title: Text, path: Option<Text>, subNodes: SubNodes)

  /** `Option<Vec<Node>>`: no child list yet, or the children in order. */
  datatype SubNodes = NoSubNodes | SubNodes(nodes: seq<SNode>)

  /** `dir.join(name)`, as `to_string_lossy` prints it. */
  function JoinPath(dir: Text, name: Text): Text
  {
    dir + "/" + name
  }

  /** The last `.` of a file name that does not start it. */
  function ExtensionDot(name: Text): (r: Option<nat>)
    ensures r.Some? ==> 0 < r.value < |name| && name[r.value] == '.'
    ensures r.Some? ==> forall i :: r.value < i < |name| ==> name[i] != '.'
    ensures r.None? ==> forall i :: 0 < i < |name| ==> name[i] != '.'
  {
    match LastIndexOf(name, '.')
    case Some(k) => if k > 0 then Some(k) else None
    case None => None
  }

  /** `Path::extension` of a file name. */
  function Extension(name: Text): Option<Text>
  {
    match ExtensionDot(name)
    case Some(k) => Some(name[k + 1..])
    case None => None
  }

  /** `Path::file_stem` of a file name: the name without its extension. */
  function FileStem(name: Text): (r: Text)
    ensures Extension(name).Some? ==> name == r + "." + Extension(name).value
    ensures Extension(name).None? ==> r == name
  {
    match ExtensionDot(name)
    case Some(k) =>
      assert name == name[..k] + "." + name[k + 1..];
      name[..k]
    case None => name
  }

  /** `title_from_md_file`: the file's title heading, else its stem. */
  function TitleFromFile(name: Text, content: Text, ast: Node): (r: Result<Text, Failure>)
    ensures r.Err? ==> r.error.Panic?
  {
    match GetTitle(ast, content)
    case Err(f) => Err(f)
    case Ok(Some(t)) => Ok(t)
    case Ok(None) => Ok(FileStem(name))
  }

  /** A file without a top-level level-1 heading is titled by its stem. */
  lemma {:induction false} TitleFromStem(name: Text, content: Text, ast: Node)
    requires forall i :: 0 <= i < |ChildrenOf(ast)| ==> !IsTitleHeading(ChildrenOf(ast)[i])
    ensures TitleFromFile(name, content, ast) == Ok(FileStem(name))
  {
    NoTitleIff(content, ChildrenOf(ast));
  }

  /** Otherwise the first such heading gives the title: its text without
      the `#` marks and the surrounding whitespace. */
  lemma {:induction false} TitleFromHeading(name: Text, content: Text, ast: Node, i: nat)
    requires i < |ChildrenOf(ast)| && IsTitleHeading(ChildrenOf(ast)[i])
    requires forall j :: 0 <= j < i ==> !IsTitleHeading(ChildrenOf(ast)[j])
    requires var p := ChildrenOf(ast)[i].position.value; p.start <= p.end <= |content|
    ensures var p := ChildrenOf(ast)[i].position.value;
      TitleFromFile(name, content, ast) == Ok(TitleOf(content[p.start..p.end]))
  {
    FirstTitleWins(content, ChildrenOf(ast), i);
  }

  /** An index file name. */
  predicate IsIndex(name: Text)
  {
    name == "README.md" || name == "index.md"
  }

  /** What `from_entry` makes a leaf of: a `.md` file other than the summary. */
  predicate IsLeafFile(name: Text)
  {
    Extension(name) == Some("md") && name != "SUMMARY.md"
  }

  /** `from_dir`'s variables: the title, the index path and the children. */
  datatype DirState = DirState(title: Text, index: Option<Text>, subNodes: SubNodes)

  /** `sub_nodes.get_or_insert_with(Vec::default).push(node)`. */
  function AddChild(subNodes: SubNodes, n: SNode): (r: SubNodes)
    ensures r.SubNodes? && |r.nodes| > 0 && r.nodes[|r.nodes| - 1] == n
    ensures r.nodes[..|r.nodes| - 1] == (if subNodes.SubNodes? then subNodes.nodes else [])
  {
    match subNodes
    case NoSubNodes => SubNodes([n])
    case SubNodes(ns) => SubNodes(ns + [n])
  }

  const TwoIndexes: Text := "Two indexes present"
  const IsADirectory: Text := "Is a directory (os error 21)"

  /** `Node::from_entry`: a directory always yields a node, a leaf file
      yields a leaf, anything else nothing. */
  function EntryNode(parent: Text, e: Entry): Result<Option<SNode>, Failure>
    decreases e, 0
  {
    match e
    case Dir(name, es) =>
      (match DirNode(JoinPath(parent, name), name, es)
       case Err(f) => Err(f)
       case Ok(n) => Ok(Some(n)))
    case File(name, content, ast) =>
      if IsLeafFile(name) then
        match TitleFromFile(name, content, ast)
        case Err(f) => Err(f)
        case Ok(title) => Ok(Some(SNode(title, Some(JoinPath(parent, name)), NoSubNodes)))
      else Ok(None)
  }

  /** One pass of `from_dir`'s loop. An index entry sets the title and the
      index path, unless an index was already seen; reading a directory
      named like an index fails. Any other entry may add a child. */
  function DirStep(path: Text, st: DirState, e: Entry): Result<DirState, Failure>
    decreases e, 1
  {
    if IsIndex(e.name) then
      if st.index.Some? then Err(Error(TwoIndexes))
      else
        match e
        case Dir(_, _) => Err(Error(IsADirectory))
        case File(name, content, ast) =>
          match TitleFromFile(name, content, ast)
          case Err(f) => Err(f)
          case Ok(title) => Ok(DirState(title, Some(JoinPath(path, name)), st.subNodes))
    else
      match EntryNode(path, e)
      case Err(f) => Err(f)
      case Ok(None) => Ok(st)
      case Ok(Some(n)) => Ok(st.(subNodes := AddChild(st.subNodes, n)))
  }

  /** `from_dir`'s loop over the remaining entries. */
  function DirFold(path: Text, es: seq<Entry>, st: DirState): Result<DirState, Failure>
    decreases es, 0
  {
    if es == [] then Ok(st)
    else
      match DirStep(path, st, es[0])
      case Err(f) => Err(f)
      case Ok(st') => DirFold(path, es[1..], st')
  }

  /** `Node::from_dir`. */
  function DirNode(path: Text, defaultTitle: Text, es: seq<Entry>): Result<SNode, Failure>
    decreases es, 1
  {
    match DirFold(path, es, DirState(defaultTitle, None, NoSubNodes))
    case Err(f) => Err(f)
    case Ok(st) => Ok(SNode(st.title, st.index, st.subNodes))
  }

  /** `Node::from_dir`: the loop with its three variables. */
  method FromDir(path: Text, defaultTitle: Text, es: seq<Entry>) returns (r: Result<SNode, Failure>)
    ensures r == DirNode(path, defaultTitle, es)
    decreases es, 1
  {
    var title := defaultTitle;
    var indexPath: Option<Text> := None;
    var subNodes: SubNodes := NoSubNodes;
    var i := 0;
    while i < |es|
      invariant 0 <= i <= |es|
      invariant DirFold(path, es, DirState(defaultTitle, None, NoSubNodes)) ==
                DirFold(path, es[i..], DirState(title, indexPath, subNodes))
    {
      var entry := es[i];
      assert es[i..][0] == entry && es[i..][1..] == es[i + 1..];
      if IsIndex(entry.name) {
        if indexPath.Some? {
          return Err(Error(TwoIndexes));
        }
        if entry.Dir? {
          return Err(Error(IsADirectory));
        }
        var indexTitle := TitleFromFile(entry.name, entry.content, entry.ast);
        if indexTitle.Err? {
          return Err(indexTitle.error);
        }
        title := indexTitle.value;
        indexPath := Some(JoinPath(path, entry.name));
      } else {
        var node := FromEntry(path, entry);
        if node.Err? {
          return Err(node.error);
        }
        if node.value.Some? {
          subNodes := AddChild(subNodes, node.value.value);
        }
      }
      i := i + 1;
    }
    r := Ok(SNode(title, indexPath, subNodes));
  }

  /** `Node::from_entry`. */
  method FromEntry(parent: Text, e: Entry) returns (r: Result<Option<SNode>, Failure>)
    ensures r == EntryNode(parent, e)
    decreases e, 0
  {
    match e {
      case Dir(name, es) =>
        var node := FromDir(JoinPath(parent, name), name, es);
        if node.Err? {
          return Err(node.error);
        }
        r := Ok(Some(node.value));
      case File(name, content, ast) =>
        if IsLeafFile(name) {
          var title := TitleFromFile(name, content, ast);
          if title.Err? {
            return Err(title.error);
          }
          r := Ok(Some(SNode(title.value, Some(JoinPath(parent, name)), NoSubNodes)));
        } else {
          r := Ok(None);
        }
    }
  }

  /** Some entry of the list is an index. */
  predicate HasIndex(es: seq<Entry>)
  {
    exists i :: 0 <= i < |es| && IsIndex(es[i].name)
  }

  /** Once an index is seen, the loop succeeds only if no other index
      follows, and the title and the index path stay. */
  lemma {:induction false} FoldAfterIndex(path: Text, es: seq<Entry>, st: DirState)
    requires DirFold(path, es, st).Ok? && st.index.Some?
    ensures !HasIndex(es)
    ensures DirFold(path, es, st).value.index == st.index
    ensures DirFold(path, es, st).value.title == st.title
    decreases |es|
  {
    if es != [] {
      var st' := DirStep(path, st, es[0]).value;
      FoldAfterIndex(path, es[1..], st');
      assert forall i :: 1 <= i < |es| ==> es[i] == es[1..][i - 1];
    }
  }

  /** A successful loop met at most one index. */
  lemma {:induction false} FoldOneIndex(path: Text, es: seq<Entry>, st: DirState)
    requires DirFold(path, es, st).Ok?
    ensures forall i, j :: 0 <= i < j < |es| && IsIndex(es[i].name) ==> !IsIndex(es[j].name)
    decreases |es|
  {
    if es != [] {
      var st' := DirStep(path, st, es[0]).value;
      var rest := es[1..];
      FoldOneIndex(path, rest, st');
      assert forall i :: 1 <= i < |es| ==> es[i] == rest[i - 1];
      if IsIndex(es[0].name) {
        FoldAfterIndex(path, rest, st');
      }
    }
  }

  /** Without an index the title and the missing path stay. */
  lemma {:induction false} FoldNoIndex(path: Text, es: seq<Entry>, st: DirState)
    requires DirFold(path, es, st).Ok? && st.index.None? && !HasIndex(es)
    ensures DirFold(path, es, st).value.index.None?
    ensures DirFold(path, es, st).value.title == st.title
    decreases |es|
  {
    if es != [] {
      assert !IsIndex(es[0].name);
      assert !HasIndex(es[1..]) by {
        assert forall i :: 0 <= i < |es| - 1 ==> es[1..][i] == es[i + 1];
      }
      FoldNoIndex(path, es[1..], DirStep(path, st, es[0]).value);
    }
  }

  /** With an index, the path and the title are the index file's. */
  lemma {:induction false} FoldFoundIndex(path: Text, es: seq<Entry>, st: DirState)
    requires DirFold(path, es, st).Ok? && st.index.None? && HasIndex(es)
    ensures var r := DirFold(path, es, st).value;
      exists i ::
        && 0 <= i < |es| && IsIndex(es[i].name) && es[i].File?
        && r.index == Some(JoinPath(path, es[i].name))
        && TitleFromFile(es[i].name, es[i].content, es[i].ast) == Ok(r.title)
    decreases |es|
  {
    var st' := DirStep(path, st, es[0]).value;
    var rest := es[1..];
    var r := DirFold(path, es, st).value;
    if IsIndex(es[0].name) {
      FoldAfterIndex(path, rest, st');
      assert 0 < |es| && IsIndex(es[0].name) && es[0].File?;
    } else {
      var i :| 0 <= i < |es| && IsIndex(es[i].name);
      assert HasIndex(rest) by {
        assert IsIndex(rest[i - 1].name);
      }
      FoldFoundIndex(path, rest, st');
      var j :| 0 <= j < |rest| && IsIndex(rest[j].name) && rest[j].File?
        && r.index == Some(JoinPath(path, rest[j].name))
        && TitleFromFile(rest[j].name, rest[j].content, rest[j].ast) == Ok(r.title);
      assert es[j + 1] == rest[j];
    }
  }

  /** A directory node: at most one index; its path is the index's path and
      its title the index's title, or there is no path and the title is the
      directory's own name. */
  lemma {:induction false} DirNodeIndex(path: Text, name: Text, es: seq<Entry>)
    requires DirNode(path, name, es).Ok?
    ensures forall i, j :: 0 <= i < j < |es| && IsIndex(es[i].name) ==> !IsIndex(es[j].name)
    ensures var n := DirNode(path, name, es).value;
      && (!HasIndex(es) ==> n.path.None? && n.title == name)
      && (HasIndex(es) ==> exists i ::
            && 0 <= i < |es| && IsIndex(es[i].name) && es[i].File?
            && n.path == Some(JoinPath(path, es[i].name))
            && TitleFromFile(es[i].name, es[i].content, es[i].ast) == Ok(n.title))
  {
    var st := DirState(name, None, NoSubNodes);
    FoldOneIndex(path, es, st);
    if HasIndex(es) {
      FoldFoundIndex(path, es, st);
    } else {
      FoldNoIndex(path, es, st);
    }
  }

  /** `sub_nodes` stays `None` as long as no entry yields a child. */
  lemma {:induction false} FoldNoChildren(path: Text, es: seq<Entry>, st: DirState)
    requires DirFold(path, es, st).Ok? && st.subNodes.NoSubNodes?
    requires forall i :: 0 <= i < |es| && !IsIndex(es[i].name) ==> EntryNode(path, es[i]) == Ok(None)
    ensures DirFold(path, es, st).value.subNodes.NoSubNodes?
    decreases |es|
  {
    if es != [] {
      assert forall i :: 1 <= i < |es| ==> es[i] == es[1..][i - 1];
      FoldNoChildren(path, es[1..], DirStep(path, st, es[0]).value);
    }
  }

  /** Once a child is added, `sub_nodes` is `Some` and keeps every child. */
  lemma {:induction false} FoldKeepsChildren(path: Text, es: seq<Entry>, st: DirState)
    requires DirFold(path, es, st).Ok? && st.subNodes.SubNodes?
    ensures DirFold(path, es, st).value.subNodes.SubNodes?
    ensures st.subNodes.nodes <= DirFold(path, es, st).value.subNodes.nodes
    decreases |es|
  {
    if es != [] {
      var st' := DirStep(path, st, es[0]).value;
      FoldKeepsChildren(path, es[1..], st');
    }
  }

  /** The nodes that the non-index entries of a directory yield, in entry
      order. */
  function ChildNodes(path: Text, es: seq<Entry>): seq<SNode>
    decreases |es|
  {
    if es == [] then []
    else
      var rest := ChildNodes(path, es[1..]);
      if IsIndex(es[0].name) then rest
      else
        match EntryNode(path, es[0])
        case Ok(Some(n)) => [n] + rest
        case _ => rest
  }

  /** The child list after appending `ns`: unchanged when `ns` is empty. */
  function Extended(subNodes: SubNodes, ns: seq<SNode>): SubNodes
  {
    if ns == [] then subNodes
    else SubNodes((if subNodes.SubNodes? then subNodes.nodes else []) + ns)
  }

  /** `from_dir`'s loop appends exactly the children of the non-index
      entries, in entry order. */
  lemma {:induction false} FoldChildren(path: Text, es: seq<Entry>, st: DirState)
    requires DirFold(path, es, st).Ok?
    ensures DirFold(path, es, st).value.subNodes == Extended(st.subNodes, ChildNodes(path, es))
    decreases |es|
  {
    if es != [] {
      var st' := DirStep(path, st, es[0]).value;
      FoldChildren(path, es[1..], st');
      if !IsIndex(es[0].name) && EntryNode(path, es[0]).value.Some? {
        var n := EntryNode(path, es[0]).value.value;
        var prior := if st.subNodes.SubNodes? then st.subNodes.nodes else [];
        assert prior + [n] + ChildNodes(path, es[1..]) == prior + ([n] + ChildNodes(path, es[1..]));
      }
    }
  }

  /** A directory node's children are those of its non-index entries, in
      entry order, and there is no child list when there are none. */
  lemma {:induction false} DirNodeChildren(path: Text, defaultTitle: Text, es: seq<Entry>)
    requires DirNode(path, defaultTitle, es).Ok?
    ensures var ns := ChildNodes(path, es);
      DirNode(path, defaultTitle, es).value.subNodes == if ns == [] then NoSubNodes else SubNodes(ns)
  {
    FoldChildren(path, es, DirState(defaultTitle, None, NoSubNodes));
  }

  /** The nodes that the entries of the root yield, in entry order. */
  function EntryNodes(root: Text, es: seq<Entry>): seq<SNode>
    decreases |es|
  {
    if es == [] then []
    else
      match EntryNode(root, es[0])
      case Ok(Some(n)) => [n] + EntryNodes(root, es[1..])
      case _ => EntryNodes(root, es[1..])
  }

  /** `Summary::from_dir`'s loop: the nodes of the remaining entries of the
      root, in order, after those already collected. */
  function SummaryFold(root: Text, es: seq<Entry>, nodes: seq<SNode>): Result<seq<SNode>, Failure>
    decreases |es|
  {
    if es == [] then Ok(nodes)
    else
      match EntryNode(root, es[0])
      case Err(f) => Err(f)
      case Ok(None) => SummaryFold(root, es[1..], nodes)
      case Ok(Some(n)) => SummaryFold(root, es[1..], nodes + [n])
  }

  /** `Summary::from_dir`. */
  function SummaryNodes(root: Text, es: seq<Entry>): Result<seq<SNode>, Failure>
  {
    SummaryFold(root, es, [])
  }

  /** `Summary::from_dir`. */
  method SummaryFromDir(root: Text, es: seq<Entry>) returns (r: Result<seq<SNode>, Failure>)
    ensures r == SummaryNodes(root, es)
  {
    var nodes: seq<SNode> := [];
    var i := 0;
    while i < |es|
      invariant 0 <= i <= |es|
      invariant SummaryFold(root, es[i..], nodes) == SummaryNodes(root, es)
    {
      assert es[i..][0] == es[i] && es[i..][1..] == es[i + 1..];
      var node := FromEntry(root, es[i]);
      if node.Err? {
        return Err(node.error);
      }
      if node.value.Some? {
        nodes := nodes + [node.value.value];
      }
      i := i + 1;
    }
    r := Ok(nodes);
  }

  /** The collected nodes come first, in order, and each entry adds at most
      one node. */
  lemma {:induction false} SummaryFoldKeeps(root: Text, es: seq<Entry>, nodes: seq<SNode>)
    requires SummaryFold(root, es, nodes).Ok?
    ensures nodes <= SummaryFold(root, es, nodes).value
    ensures |SummaryFold(root, es, nodes).value| <= |nodes| + |es|
    decreases |es|
  {
    if es != [] {
      var n := EntryNode(root, es[0]).value;
      SummaryFoldKeeps(root, es[1..], if n.Some? then nodes + [n.value] else nodes);
    }
  }

  /** The loop appends exactly the nodes of the entries, in entry order. */
  lemma {:induction false} SummaryFoldOrder(root: Text, es: seq<Entry>, nodes: seq<SNode>)
    requires SummaryFold(root, es, nodes).Ok?
    ensures SummaryFold(root, es, nodes).value == nodes + EntryNodes(root, es)
    decreases |es|
  {
    if es != [] {
      var n := EntryNode(root, es[0]).value;
      SummaryFoldOrder(root, es[1..], if n.Some? then nodes + [n.value] else nodes);
      if n.Some? {
        assert nodes + [n.value] + EntryNodes(root, es[1..]) == nodes + ([n.value] + EntryNodes(root, es[1..]));
      }
    }
  }

  /** The summary's top-level nodes are those of the root's entries, in
      entry order. */
  lemma {:induction false} SummaryNodesOrder(root: Text, es: seq<Entry>)
    requires SummaryNodes(root, es).Ok?
    ensures SummaryNodes(root, es).value == EntryNodes(root, es)
  {
    SummaryFoldOrder(root, es, []);
    assert [] + EntryNodes(root, es) == EntryNodes(root, es);
  }

  /** `depth` times two spaces. */
  function Indent(depth: nat): (r: Text)
    ensures |r| == 2 * depth && forall i :: 0 <= i < |r| ==> r[i] == ' '
  {
    if depth == 0 then "" else "  " + Indent(depth - 1)
  }

  /** The path of a node as the list shows it: empty when there is none. */
  function PathText(path: Option<Text>): Text
  {
    match path
    case Some(p) => p
    case None => ""
  }

  /** The line of one node. */
  function ItemLine(n: SNode, depth: nat): Text
  {
    Indent(depth) + "- [" + n.title + "](" + PathText(n.path) + ")\n"
  }

  /** What `render_to_md` appends for a node: its line, then its children one
      level deeper and one empty line, when it has a child list. */
  function Rendered(n: SNode, depth: nat): Text
    decreases n, 1
  {
    ItemLine(n, depth) +
    match n.subNodes
    case NoSubNodes => ""
    case SubNodes(ns) => RenderedList(ns, depth + 1) + "\n"
  }

  function RenderedList(ns: seq<SNode>, depth: nat): Text
    decreases ns, 0
  {
    if ns == [] then "" else RenderedList(ns[..|ns| - 1], depth) + Rendered(ns[|ns| - 1], depth)
  }

  /** One more child rendered. */
  lemma {:induction false} RenderedListStep(ns: seq<SNode>, i: nat, depth: nat)
    requires i < |ns|
    ensures RenderedList(ns[..i + 1], depth) == RenderedList(ns[..i], depth) + Rendered(ns[i], depth)
  {
    assert ns[..i + 1][..i] == ns[..i];
  }

  /** `Node::render_to_md`: appends to `out`. */
  method RenderNode(n: SNode, depth: nat, out: Text) returns (out': Text)
    ensures out' == out + Rendered(n, depth)
    decreases n, 1
  {
    out' := out + Indent(depth);
    out' := out' + "- [" + n.title + "](" + PathText(n.path) + ")\n";
    ItemLineAppended(out, n, depth);
    if n.subNodes.SubNodes? {
      out' := RenderChildren(n.subNodes.nodes, depth + 1, out');
      out' := out' + "\n";
    }
  }

  /** The loop of `Node::render_to_md` over the children. */
  method RenderChildren(ns: seq<SNode>, depth: nat, out: Text) returns (out': Text)
    ensures out' == out + RenderedList(ns, depth)
    decreases ns, 0
  {
    out' := out;
    var i := 0;
    while i < |ns|
      invariant 0 <= i <= |ns|
      invariant out' == out + RenderedList(ns[..i], depth)
    {
      RenderedListStep(ns, i, depth);
      out' := RenderNode(ns[i], depth, out');
      i := i + 1;
    }
    assert ns[..i] == ns;
  }

  /** The two appends of the item line. */
  lemma {:induction false} ItemLineAppended(out: Text, n: SNode, depth: nat)
    ensures out + Indent(depth) + "- [" + n.title + "](" + PathText(n.path) + ")\n" == out + ItemLine(n, depth)
  {
  }

  /** Number of line ends in a text. */
  function Newlines(t: Text): nat
  {
    if t == [] then 0 else Newlines(t[..|t| - 1]) + (if t[|t| - 1] == '\n' then 1 else 0)
  }

  lemma {:induction false} NewlinesAppend(a: Text, b: Text)
    ensures Newlines(a + b) == Newlines(a) + Newlines(b)
    decreases |b|
  {
    if b != [] {
      assert (a + b)[..|a + b| - 1] == a + b[..|b| - 1];
      NewlinesAppend(a, b[..|b| - 1]);
    } else {
      assert a + b == a;
    }
  }

  lemma {:induction false} NoNewlines(t: Text)
    requires forall i :: 0 <= i < |t| ==> t[i] != '\n'
    ensures Newlines(t) == 0
    decreases |t|
  {
    if t != [] {
      NoNewlines(t[..|t| - 1]);
    }
  }

  /** Neither the title nor the path of any node of the tree holds a line end. */
  predicate SingleLine(n: SNode)
    decreases n, 1
  {
    && (forall i :: 0 <= i < |n.title| ==> n.title[i] != '\n')
    && (forall i :: 0 <= i < |PathText(n.path)| ==> PathText(n.path)[i] != '\n')
    && match n.subNodes
       case NoSubNodes => true
       case SubNodes(ns) => AllSingleLine(ns)
  }

  predicate AllSingleLine(ns: seq<SNode>)
    decreases ns, 0
  {
    forall i :: 0 <= i < |ns| ==> SingleLine(ns[i])
  }

  /** Nodes of a tree, and the child lists among them. */
  function NodeCount(n: SNode): nat
    decreases n, 1
  {
    1 + match n.subNodes
        case NoSubNodes => 0
        case SubNodes(ns) => 1 + NodeCountList(ns)
  }

  function NodeCountList(ns: seq<SNode>): nat
    decreases ns, 0
  {
    if ns == [] then 0 else NodeCountList(ns[..|ns| - 1]) + NodeCount(ns[|ns| - 1])
  }

  /** An item line is one line. */
  lemma {:induction false} ItemLineLines(n: SNode, depth: nat)
    requires SingleLine(n)
    ensures Newlines(ItemLine(n, depth)) == 1
  {
    var p := PathText(n.path);
    NoNewlines(Indent(depth));
    NoNewlines("- [");
    NoNewlines(n.title);
    NoNewlines("](");
    NoNewlines(p);
    NewlinesAppend(Indent(depth), "- [");
    NewlinesAppend(Indent(depth) + "- [", n.title);
    NewlinesAppend(Indent(depth) + "- [" + n.title, "](");
    NewlinesAppend(Indent(depth) + "- [" + n.title + "](", p);
    NewlinesAppend(Indent(depth) + "- [" + n.title + "](" + p, ")\n");
    assert Newlines(")\n") == 1 by {
      assert ")\n"[..1] == ")";
      NoNewlines(")");
    }
  }

  /** The rendering has one line per node, and each child list is closed by
      one empty line: as many line ends as nodes and child lists together. */
  lemma {:induction false} RenderedLines(n: SNode, depth: nat)
    requires SingleLine(n)
    ensures Newlines(Rendered(n, depth)) == NodeCount(n)
    decreases n, 1
  {
    ItemLineLines(n, depth);
    match n.subNodes {
      case NoSubNodes =>
        NewlinesAppend(ItemLine(n, depth), "");
      case SubNodes(ns) =>
        RenderedListLines(ns, depth + 1);
        NewlinesAppend(RenderedList(ns, depth + 1), "\n");
        NewlinesAppend(ItemLine(n, depth), RenderedList(ns, depth + 1) + "\n");
        assert Newlines("\n") == 1 by {
          assert "\n"[..0] == "";
        }
    }
  }

  lemma {:induction false} RenderedListLines(ns: seq<SNode>, depth: nat)
    requires AllSingleLine(ns)
    ensures Newlines(RenderedList(ns, depth)) == NodeCountList(ns)
    decreases ns, 0
  {
    if ns != [] {
      var front := ns[..|ns| - 1];
      assert AllSingleLine(front) by {
        assert forall i :: 0 <= i < |front| ==> front[i] == ns[i];
      }
      RenderedListLines(front, depth);
      RenderedLines(ns[|ns| - 1], depth);
      NewlinesAppend(RenderedList(front, depth), Rendered(ns[|ns| - 1], depth));
    }
  }

  const SummaryHeader: Text := "# Summary\n\n"

  /** The whole summary: the header, then every top-level node. */
  function RenderedSummary(nodes: seq<SNode>): Text
  {
    SummaryHeader + RenderedList(nodes, 0)
  }

  /** `Summary::render_to_md`. */
  method RenderSummary(nodes: seq<SNode>) returns (out: Text)
    ensures out == RenderedSummary(nodes)
  {
    out := RenderChildren(nodes, 0, SummaryHeader);
  }
}
