/** mdmove: moving notes and fixing the links that point at them. The move
    list maps each source to where it goes; every Markdown file's link
    destinations are re-resolved against the moves and rewritten. The file
    system (`exists`, `canonicalize`, `is_dir`), `pathdiff::diff_paths`, and
    the conversion between link text and path components are parameters. */
module MdMove {
  import opened Base
  import opened MdastLinks
  import opened Rewrite
  import opened Paths

  /** `path.starts_with(base)`: compared component by component. */
  predicate StartsWith(p: Path, base: Path)
  {
    base <= p
  }

  /** `base.join(tail)`: an absolute tail replaces the base. */
  function Join(base: Path, tail: Path): (r: Path)
    ensures HasRoot(tail) ==> r == tail
    ensures !HasRoot(tail) ==> r == base + tail
  {
    if HasRoot(tail) then tail else base + tail
  }

  /** A path as `get_path_after_move` expects it: absolute. */
  predicate Absolute(p: Path)
  {
    PrefixFirst(p) && HasRoot(p)
  }

  /** The entries of the `MoveList` hash map, `(from, to)`, in the map's
      iteration order, which Rust leaves unspecified. */
  type MoveList = seq<(Path, Path)>

  /** Where a move entry sends a path below its `from`. */
  function MovedTo(entry: (Path, Path), p: Path): Path
    requires StartsWith(p, entry.0)
  {
    Normalize(Join(entry.1, p[|entry.0|..]))
  }

  /** `get_path_after_move`: the first entry, in iteration order, whose
      `from` is a prefix of the path decides; `None` when none is. */
  function PathAfterMove(moves: MoveList, p: Path): Option<Path>
    decreases |moves|
  {
    if moves == [] then None
    else if StartsWith(p, moves[0].0) then Some(MovedTo(moves[0], p))
    else PathAfterMove(moves[1..], p)
  }

  /** A path is moved exactly when some entry's `from` starts it, and then
      it goes where some such entry sends it. */
  lemma {:induction false} PathAfterMoveSpec(moves: MoveList, p: Path)
    ensures PathAfterMove(moves, p).None? <==> forall i :: 0 <= i < |moves| ==> !StartsWith(p, moves[i].0)
    ensures PathAfterMove(moves, p).Some? ==>
      exists i :: 0 <= i < |moves| && StartsWith(p, moves[i].0) && PathAfterMove(moves, p).value == MovedTo(moves[i], p)
    decreases |moves|
  {
    if moves != [] && !StartsWith(p, moves[0].0) {
      PathAfterMoveSpec(moves[1..], p);
      assert forall i :: 1 <= i < |moves| ==> moves[i] == moves[1..][i - 1];
      if PathAfterMove(moves, p).Some? {
        var i :| 0 <= i < |moves[1..]| && StartsWith(p, moves[1..][i].0) && PathAfterMove(moves, p).value == MovedTo(moves[1..][i], p);
        assert moves[1..][i] == moves[i + 1];
      }
    }
  }

  /** Where the file or link target is after the moves: moved, or where it is. */
  function AfterMoves(moves: MoveList, p: Path): Path
  {
    match PathAfterMove(moves, p)
    case Some(q) => q
    case None => p
  }

  /** The entry a lookup takes is the first that matches. */
  lemma {:induction false} PathAfterMoveFirst(moves: MoveList, p: Path, i: nat)
    requires i < |moves| && StartsWith(p, moves[i].0)
    requires forall j :: 0 <= j < i ==> !StartsWith(p, moves[j].0)
    ensures PathAfterMove(moves, p) == Some(MovedTo(moves[i], p))
    decreases i
  {
    if i > 0 {
      assert forall j :: 0 <= j < i - 1 ==> moves[1..][j] == moves[j + 1];
      PathAfterMoveFirst(moves[1..], p, i - 1);
    }
  }

  /** Every `to` is a path `components()` could produce. */
  predicate TargetsWellFormed(moves: MoveList)
  {
    forall i :: 0 <= i < |moves| ==> PrefixFirst(moves[i].1)
  }

  /** Joining a well-formed target with the rest of an absolute path gives
      a path `normalize_path` accepts. */
  lemma {:induction false} JoinPrefixFirst(to: Path, from: Path, p: Path)
    requires PrefixFirst(to) && Absolute(p) && StartsWith(p, from)
    ensures PrefixFirst(Join(to, p[|from|..]))
  {
    var rest := p[|from|..];
    assert forall i :: 0 <= i < |rest| ==> rest[i] == p[|from| + i];
    if |from| == 0 {
      assert rest == p;
    }
  }

  /** `MoveList::get_path_after_move`: the entries in turn, the first whose
      `from` starts the path gives `to` joined with the rest, normalised. */
  method GetPathAfterMove(moves: MoveList, path: Path) returns (r: Option<Path>)
    requires Absolute(path) && TargetsWellFormed(moves)
    ensures r == PathAfterMove(moves, path)
    ensures r.Some? ==> IsNormal(r.value)
  {
    var i := 0;
    while i < |moves|
      invariant 0 <= i <= |moves|
      invariant forall j :: 0 <= j < i ==> !StartsWith(path, moves[j].0)
    {
      var (from, to) := moves[i];
      if StartsWith(path, from) {
        JoinPrefixFirst(to, from, path);
        var newPath := Join(to, path[|from|..]);
        newPath := NormalizePath(newPath);
        PathAfterMoveFirst(moves, path, i);
        NormalizeIsNormal(Join(to, path[|from|..]));
        return Some(newPath);
      }
      i := i + 1;
    }
    PathAfterMoveSpec(moves, path);
    return None;
  }

  /** `Path::parent`: `None` for an empty path, a root or a prefix. */
  function Parent(p: Path): (r: Option<Path>)
    ensures r.Some? ==> p != [] && r.value + [p[|p| - 1]] == p
    ensures r.None? <==> p == [] || p[|p| - 1].RootDir? || p[|p| - 1].Prefix?
  {
    if p == [] || p[|p| - 1].RootDir? || p[|p| - 1].Prefix? then None
    else Some(p[..|p| - 1])
  }

  /** `Path::file_name`: the last component when it is a name. */
  function FileName(p: Path): (r: Option<Text>)
    ensures r.Some? ==> p != [] && p[|p| - 1] == Normal(r.value)
  {
    if p != [] && p[|p| - 1].Normal? then Some(p[|p| - 1].name) else None
  }

  /** `Path::extension`: the text after the last `.` of the file name,
      unless that dot starts the name. */
  function Extension(p: Path): (r: Option<Text>)
    ensures r.Some? ==> FileName(p).Some?
    ensures r.Some? ==>
      var name := FileName(p).value;
      var k := |name| - |r.value| - 1;
      && 0 < k < |name| && name[k] == '.' && r.value == name[k + 1..]
      && forall i :: k < i < |name| ==> name[i] != '.'
    ensures r.None? ==> FileName(p).None? || forall i :: 0 < i < |FileName(p).value| ==> FileName(p).value[i] != '.'
  {
    match FileName(p)
    case None => None
    case Some(name) =>
      match LastIndexOf(name, '.')
      case Some(k) => if k > 0 then Some(name[k + 1..]) else None
      case None => None
  }

  /** The outside world as `change_file` consults it: whether a path exists,
      `pathdiff::diff_paths`, `Path::new(link).components()` and
      `to_string_lossy` of a path. */
  datatype World = World(
    pathExists: Path -> bool,
    diffPaths: (Path, Path) -> Option<Path>,
    components: Text -> Path,
    render: Path -> Text)

  /** What a link decision works with: the tree root, the directory of the
      file before and after the moves, the moves, and the outside world. */
  datatype Env = Env(root: Path, fileDir: Path, fileDestDir: Path, moves: MoveList, world: World)

  /** `link.split_once('#')`. */
  function SplitFragment(link: Text): (r: (Text, Option<Text>))
    ensures r.1.None? ==> r.0 == link && forall i :: 0 <= i < |link| ==> link[i] != '#'
    ensures r.1.Some? ==> link == r.0 + "#" + r.1.value && forall i :: 0 <= i < |r.0| ==> r.0[i] != '#'
  {
    match IndexOf(link, '#')
    case None => (link, None)
    case Some(k) =>
      assert link == link[..k] + "#" + link[k + 1..];
      (link[..k], Some(link[k + 1..]))
  }

  /** A first component that marks a web address. */
  predicate IsWebScheme(c: Component)
  {
    c == Normal("https:") || c == Normal("http:")
  }

  /** Where a link path points, as an absolute path, and whether it was
      written from the root (`/…`) rather than relative to the file. */
  function Resolve(env: Env, comps: Path): (Path, bool)
  {
    if comps != [] && comps[0].RootDir? then (Normalize(Join(env.root, comps[1..])), true)
    else (Normalize(Join(env.fileDir, comps)), false)
  }

  /** The path part of the `replacement` closure of `change_file`: the new
      link path, `None` when the link is left alone, or the panic of an
      `unwrap` (a root-relative target outside the root, or no relative
      path between the two). */
  function LinkTarget(env: Env, linkPath: Text): (r: Result<Option<Path>, Failure>)
    ensures var comps := env.world.components(linkPath);
      comps != [] && IsWebScheme(comps[0]) ==> r == Ok(None)
    ensures r.Ok? && r.value.Some? ==> env.world.pathExists(Resolve(env, env.world.components(linkPath)).0)
    ensures r.Err? ==> r.error.Panic?
  {
    var comps := env.world.components(linkPath);
    if comps != [] && IsWebScheme(comps[0]) then Ok(None)
    else
      var (abs, wasAbs) := Resolve(env, comps);
      if !env.world.pathExists(abs) then Ok(None)
      else
        var moved := AfterMoves(env.moves, abs);
        if wasAbs then
          if StartsWith(moved, env.root) then Ok(Some([RootDir] + moved[|env.root|..]))
          else Err(Panic("called `Result::unwrap()` on an `Err` value: StripPrefixError(())"))
        else
          match env.world.diffPaths(moved, env.fileDestDir)
          case Some(rel) => Ok(Some(rel))
          case None => Err(Panic("called `Option::unwrap()` on a `None` value"))
  }

  /** The `replacement` closure of `change_file`: split off the fragment,
      leave empty paths alone, rewrite the path and put the fragment back. */
  function Decide(env: Env, link: Text): (r: Result<Option<Text>, Failure>)
    ensures r.Err? ==> r.error.Panic?
    ensures r.Ok? && r.value.Some? ==>
      var linkPath := SplitFragment(link).0;
      linkPath != [] && LinkTarget(env, linkPath).Ok? && LinkTarget(env, linkPath).value.Some?
  {
    var (linkPath, frag) := SplitFragment(link);
    if linkPath == [] then Ok(None)
    else
      match LinkTarget(env, linkPath)
      case Err(f) => Err(f)
      case Ok(None) => Ok(None)
      case Ok(Some(p)) => Ok(Some(env.world.render(p) + (if frag.Some? then "#" + frag.value else "")))
  }

  function ChangeDecision(env: Env): Decider
  {
    link => Decide(env, link)
  }

  /** A link with an empty path part (`#section`, or nothing) is kept. */
  lemma {:induction false} FragmentOnlyKept(env: Env, link: Text)
    requires link == [] || link[0] == '#'
    ensures Decide(env, link) == Ok(None)
  {
    if link != [] {
      assert link[0] == '#';
      assert IndexOf(link, '#') == Some(0);
    }
  }

  /** Web links are kept. */
  lemma {:induction false} WebLinkKept(env: Env, link: Text)
    requires var p := SplitFragment(link).0;
      p != [] && env.world.components(p) != [] && IsWebScheme(env.world.components(p)[0])
    ensures Decide(env, link) == Ok(None)
  {
  }

  /** Links whose target does not exist are kept. */
  lemma {:induction false} MissingTargetKept(env: Env, link: Text)
    requires var p := SplitFragment(link).0; var comps := env.world.components(p);
      p != [] && (comps == [] || !IsWebScheme(comps[0])) && !env.world.pathExists(Resolve(env, comps).0)
    ensures Decide(env, link) == Ok(None)
  {
  }

  /** A rewritten link carries the new path and then the original fragment,
      verbatim, after its `#`. */
  lemma {:induction false} FragmentReattached(env: Env, link: Text, k: nat)
    requires k < |link| && link[k] == '#' && forall i :: 0 <= i < k ==> link[i] != '#'
    requires Decide(env, link).Ok? && Decide(env, link).value.Some?
    ensures LinkTarget(env, link[..k]).Ok? && LinkTarget(env, link[..k]).value.Some?
    ensures Decide(env, link).value.value == env.world.render(LinkTarget(env, link[..k]).value.value) + "#" + link[k + 1..]
  {
    var j := IndexOf(link, '#');
    assert link[k] == '#';
    assert j.Some?;
    assert link[j.value] == '#';
    assert j.value == k;
  }

  /** A link written from the root comes back written from the root: the new
      path is `/` and a path below the root, and joined to the root it names
      the target's place after the moves. */
  lemma {:induction false} RootLinkStaysRooted(env: Env, linkPath: Text)
    requires var comps := env.world.components(linkPath); comps != [] && comps[0].RootDir?
    requires LinkTarget(env, linkPath).Ok? && LinkTarget(env, linkPath).value.Some?
    ensures var abs := Resolve(env, env.world.components(linkPath)).0;
      var moved := AfterMoves(env.moves, abs);
      var t := LinkTarget(env, linkPath).value.value;
      t != [] && t[0] == RootDir && env.root + t[1..] == moved
  {
    var abs := Resolve(env, env.world.components(linkPath)).0;
    var moved := AfterMoves(env.moves, abs);
    assert env.root + moved[|env.root|..] == moved;
  }

  /** What `pathdiff::diff_paths` gives between two paths in normal form:
      the path it returns, joined to the base and normalised, is the path.
      (Between paths that still hold `.` or `..` it need not hold.) */
  ghost predicate DiffPathsInverts(world: World)
  {
    forall p, base, rel :: IsNormal(p) && IsNormal(base) && world.diffPaths(p, base) == Some(rel) ==>
      Normalize(Join(base, rel)) == p
  }

  /** The place of an absolute normal path after the moves is normal. */
  lemma {:induction false} AfterMovesNormal(moves: MoveList, p: Path)
    requires Absolute(p) && IsNormal(p) && TargetsWellFormed(moves)
    ensures IsNormal(AfterMoves(moves, p))
    decreases |moves|
  {
    if moves != [] {
      if StartsWith(p, moves[0].0) {
        JoinPrefixFirst(moves[0].1, moves[0].0, p);
        NormalizeIsNormal(Join(moves[0].1, p[|moves[0].0|..]));
      } else {
        assert forall i :: 0 <= i < |moves| - 1 ==> moves[1..][i] == moves[i + 1];
        AfterMovesNormal(moves[1..], p);
      }
    }
  }

  /** A relative link, resolved against an absolute directory, names an
      absolute normal path. */
  lemma {:induction false} RelativeResolvedNormal(dir: Path, comps: Path)
    requires Absolute(dir)
    requires comps == [] || !comps[0].RootDir?
    requires forall i :: 0 <= i < |comps| ==> !comps[i].Prefix?
    ensures Join(dir, comps) == dir + comps
    ensures Absolute(Normalize(dir + comps)) && IsNormal(Normalize(dir + comps))
  {
    assert !HasRoot(comps);
    var j := dir + comps;
    assert PrefixFirst(j) by {
      forall i | 0 < i < |j|
        ensures !j[i].Prefix?
      {
        if i >= |dir| {
          assert j[i] == comps[i - |dir|];
        }
      }
    }
    assert PrefixOf(j) == PrefixOf(dir) && HasRoot(j);
    NormalizeIsNormal(j);
    NormalizeKeepsHead(j);
    NormalPrefixFirst(Normalize(j));
  }

  /** A relative link comes back relative to the file's place after the
      moves: resolved against the old directory of the file, the target is
      mapped through the moves, and the new link, joined to the file's new
      directory, names that place. */
  lemma {:induction false} RelativeLinkFollowsFile(env: Env, linkPath: Text)
    requires var comps := env.world.components(linkPath); !(comps != [] && comps[0].RootDir?)
    requires var comps := env.world.components(linkPath); forall i :: 0 <= i < |comps| ==> !comps[i].Prefix?
    requires Absolute(env.fileDir) && IsNormal(env.fileDestDir) && TargetsWellFormed(env.moves)
    requires DiffPathsInverts(env.world)
    requires LinkTarget(env, linkPath).Ok? && LinkTarget(env, linkPath).value.Some?
    ensures var abs := Normalize(Join(env.fileDir, env.world.components(linkPath)));
      var moved := AfterMoves(env.moves, abs);
      var t := LinkTarget(env, linkPath).value.value;
      && env.world.pathExists(abs)
      && env.world.diffPaths(moved, env.fileDestDir) == Some(t)
      && Normalize(Join(env.fileDestDir, t)) == moved
  {
    var comps := env.world.components(linkPath);
    RelativeResolvedNormal(env.fileDir, comps);
    AfterMovesNormal(env.moves, Normalize(Join(env.fileDir, comps)));
  }

  /** A file `change_file` rewrites: its extension is `md` or `markdown`. */
  predicate IsMarkdownFile(file: Path)
  {
    Extension(file) == Some("md") || Extension(file) == Some("markdown")
  }

  /** The change list entry a rewrite gives: the new content under the
      file's path after the moves, when the rewrite made a new text. */
  function ChangeOf(dest: Path, replaced: Result<Cow, Failure>): (r: Result<Option<(Path, Text)>, Failure>)
    ensures r.Ok? && r.value.Some? ==> r.value.value.0 == dest
    ensures r == Ok(None) <==> replaced == Ok(Borrowed)
  {
    match replaced
    case Err(f) => Err(f)
    case Ok(Borrowed) => Ok(None)
    case Ok(Owned(t)) => Ok(Some((dest, t)))
  }

  /** The change of one file: `None` when there is nothing to write, or the
      new content under the file's path after the moves. */
  function FileChange(file: Path, moves: MoveList, root: Path, content: Text, ast: Node, world: World)
    : Result<Option<(Path, Text)>, Failure>
  {
    if !IsMarkdownFile(file) then Ok(None)
    else
      var dest := AfterMoves(moves, file);
      match (Parent(file), Parent(dest))
      case (Some(dir), Some(destDir)) =>
        ChangeOf(dest, Replaced(content, ast, ChangeDecision(Env(root, dir, destDir, moves, world))))
      case _ => Err(Panic("called `Option::unwrap()` on a `None` value"))
  }

  /** `change_file`: `content` and `ast` are what reading and parsing the
      file give. */
  method ChangeFile(file: Path, moves: MoveList, root: Path, content: Text, ast: Node, world: World)
    returns (r: Result<Option<(Path, Text)>, Failure>)
    requires Absolute(file) && TargetsWellFormed(moves)
    ensures r == FileChange(file, moves, root, content, ast, world)
  {
    if !IsMarkdownFile(file) {
      return Ok(None);
    }
    var fileDest := GetPathAfterMove(moves, file);
    var dest := if fileDest.Some? then fileDest.value else file;
    var fileDir := Parent(file);
    var fileDestDir := Parent(dest);
    if fileDir.None? || fileDestDir.None? {
      return Err(Panic("called `Option::unwrap()` on a `None` value"));
    }
    var env := Env(root, fileDir.value, fileDestDir.value, moves, world);
    var replaced := ReplaceLinks(content, ast, ChangeDecision(env));
    if replaced.Err? {
      return Err(replaced.error);
    }
    if replaced.value.Owned? {
      r := Ok(Some((dest, replaced.value.text)));
    } else {
      r := Ok(None);
    }
  }

  /** A file that is not Markdown never changes; a Markdown file gets a
      change exactly when some destination in it is rewritten, and the
      change is filed under the file's path after the moves. */
  lemma {:induction false} FileChangeIff(file: Path, moves: MoveList, root: Path, content: Text, ast: Node, world: World)
    requires Parent(file).Some? && Parent(AfterMoves(moves, file)).Some?
    ensures var r := FileChange(file, moves, root, content, ast, world);
      && (!IsMarkdownFile(file) ==> r == Ok(None))
      && (r.Ok? && r.value.Some? ==> r.value.value.0 == AfterMoves(moves, file))
      && (IsMarkdownFile(file) ==>
            var env := Env(root, Parent(file).value, Parent(AfterMoves(moves, file)).value, moves, world);
            (r == Ok(None) <==>
              GetLinks(content, ast).Ok? && AllDeclined(content, GetLinks(content, ast).value, ChangeDecision(env))))
  {
    var env := Env(root, Parent(file).value, Parent(AfterMoves(moves, file)).value, moves, world);
    ReplacedBorrowedIff(content, ast, ChangeDecision(env));
  }

  /** `file_name().unwrap()` on a path that has none. */
  const NoFileName: Text := "called `Option::unwrap()` on a `None` value"

  /** The moves of several sources into a directory, as the iterator chain
      collects them: each canonical source goes to the destination joined
      with its file name; a later equal source overwrites an earlier one. */
  function MovesInto(sources: seq<Path>, destination: Path, canonicalize: Path -> Result<Path, Failure>)
    : (r: Result<map<Path, Path>, Failure>)
    decreases |sources|
  {
    if sources == [] then Ok(map[])
    else
      match MovesInto(sources[..|sources| - 1], destination, canonicalize)
      case Err(f) => Err(f)
      case Ok(m) =>
        match canonicalize(sources[|sources| - 1])
        case Err(_) => Err(Panic("called `Result::unwrap()` on an `Err` value"))
        case Ok(source) =>
          match FileName(source)
          case None => Err(Panic(NoFileName))
          case Some(name) => Ok(m[source := Join(destination, [Normal(name)])])
  }

  /** Every source is moved, keeping its file name, into the destination,
      and nothing else is moved. */
  lemma {:induction false} MovesIntoSpec(sources: seq<Path>, destination: Path, canonicalize: Path -> Result<Path, Failure>)
    requires MovesInto(sources, destination, canonicalize).Ok?
    ensures var m := MovesInto(sources, destination, canonicalize).value;
      && (forall i :: 0 <= i < |sources| ==> canonicalize(sources[i]).Ok? && canonicalize(sources[i]).value in m)
      && (forall k :: k in m ==> FileName(k).Some? && m[k] == Join(destination, [Normal(FileName(k).value)]))
      && (forall k :: k in m ==> exists i :: 0 <= i < |sources| && canonicalize(sources[i]) == Ok(k))
    decreases |sources|
  {
    if sources != [] {
      var front := sources[..|sources| - 1];
      assert forall i :: 0 <= i < |front| ==> front[i] == sources[i];
      MovesIntoSpec(front, destination, canonicalize);
    }
  }

  /** `get_move_list`: one source is moved into the destination when that
      exists and renamed to it otherwise; several sources need a directory.
      `debug` is the `{:?}` rendering of a path. */
  function GetMoveList(sources: seq<Path>, destination: Path, canonicalize: Path -> Result<Path, Failure>,
                       pathExists: Path -> bool, isDir: Path -> bool, debug: Path -> Text)
    : (r: Result<map<Path, Path>, Failure>)
    ensures |sources| == 1 && r.Ok? ==> |r.value| == 1
    ensures |sources| == 1 && canonicalize(sources[0]).Err? ==> r == Err(canonicalize(sources[0]).error)
    ensures |sources| == 1 && canonicalize(sources[0]).Ok? ==>
      var source := canonicalize(sources[0]).value;
      && (FileName(source).None? ==> r == Err(Panic(NoFileName)))
      && (FileName(source).Some? && pathExists(destination) ==>
            r == Ok(map[source := Join(destination, [Normal(FileName(source).value)])]))
      && (FileName(source).Some? && !pathExists(destination) ==> r == Ok(map[source := destination]))
    ensures |sources| != 1 && !isDir(destination) ==>
      r == Err(Error("Target " + debug(destination) + " not a directory"))
    ensures |sources| != 1 && isDir(destination) ==> r == MovesInto(sources, destination, canonicalize)
  {
    if |sources| == 1 then
      match canonicalize(sources[0])
      case Err(f) => Err(f)
      case Ok(source) =>
        match FileName(source)
        case None => Err(Panic(NoFileName))
        case Some(name) =>
          var dest := if pathExists(destination) then Join(destination, [Normal(name)]) else destination;
          Ok(map[source := dest])
    else if !isDir(destination) then Err(Error("Target " + debug(destination) + " not a directory"))
    else MovesInto(sources, destination, canonicalize)
  }
}
