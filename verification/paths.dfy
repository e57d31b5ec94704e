/** Paths as Rust's `Path::components()` sees them, and `normalize_path` of
    mdmove: a lexical collapse of `.` and `..` that never looks at the file
    system. */
module Paths {
  import opened Base

  /** `std::path::Component`. */
  datatype Component =
    | Prefix(name: Text)
    | RootDir
    | CurDir
    | ParentDir
    | Normal(name: Text)

  type Path = seq<Component>

  /** What `components()` guarantees: a prefix comes first if at all. */
  predicate PrefixFirst(p: Path)
  {
    forall i :: 0 < i < |p| ==> !p[i].Prefix?
  }

  /** The leading prefix of a path, as a path. */
  function PrefixOf(p: Path): (r: Path)
    ensures |r| <= 1 && r <= p
  {
    if p != [] && p[0].Prefix? then [p[0]] else []
  }

  /** `PathBuf::pop`: drops the last component when it is a name; a root,
      a prefix or an empty path has no parent and stays. */
  function Pop(p: Path): (r: Path)
    ensures r <= p
  {
    if p != [] && p[|p| - 1].Normal? then p[..|p| - 1] else p
  }

  /** `PathBuf::push` of one component of the input: a root replaces
      everything but the prefix; a name is appended. */
  function Push(p: Path, c: Component): Path
  {
    if c.RootDir? then PrefixOf(p) + [RootDir] else p + [c]
  }

  /** One step of `normalize_path`'s loop. */
  function Step(acc: Path, c: Component): Path
  {
    match c
    case Prefix(_) => acc + [c]
    case RootDir => Push(acc, c)
    case CurDir => acc
    case ParentDir => Pop(acc)
    case Normal(_) => Push(acc, c)
  }

  /** Reference definition of `normalize_path`: the steps from the left. */
  function Normalize(p: Path): Path
    decreases |p|
  {
    if p == [] then [] else Step(Normalize(p[..|p| - 1]), p[|p| - 1])
  }

  /** `normalize_path`: a leading prefix starts the result, then every other
      component is pushed, skipped or popped in turn. */
  method NormalizePath(path: Path) returns (ret: Path)
    requires PrefixFirst(path)
    ensures ret == Normalize(path)
  {
    var i := 0;
    ret := [];
    if path != [] && path[0].Prefix? {
      ret := [path[0]];
      i := 1;
      assert path[..1] == [path[0]] && path[..1][..0] == [];
    }
    while i < |path|
      invariant 0 <= i <= |path|
      invariant ret == Normalize(path[..i])
    {
      var component := path[i];
      assert path[..i + 1][..i] == path[..i];
      match component {
        case Prefix(_) =>
          assert false;
        case RootDir =>
          ret := Push(ret, component);
        case CurDir =>
        case ParentDir =>
          ret := Pop(ret);
        case Normal(_) =>
          ret := ret + [component];
      }
      i := i + 1;
    }
    assert path[..i] == path;
  }

  /** The normal form `normalize_path` produces: an optional prefix, an
      optional root, then names only. */
  predicate IsNormal(p: Path)
    decreases |p|
  {
    if p == [] then true
    else
      var q, c := p[..|p| - 1], p[|p| - 1];
      || (c.Normal? && IsNormal(q))
      || (c.RootDir? && q == PrefixOf(q))
      || (c.Prefix? && q == [])
  }

  /** A path in normal form has its prefix, if any, first. */
  lemma {:induction false} NormalPrefixFirst(p: Path)
    requires IsNormal(p)
    ensures PrefixFirst(p)
    decreases |p|
  {
    if p != [] {
      var q := p[..|p| - 1];
      if p[|p| - 1].Normal? && IsNormal(q) {
        NormalPrefixFirst(q);
        assert forall i :: 0 < i < |q| ==> p[i] == q[i];
      }
    }
  }

  /** A path in normal form holds no `.` and no `..`. */
  lemma {:induction false} NormalHasNoDots(p: Path)
    requires IsNormal(p)
    ensures forall i :: 0 <= i < |p| ==> !p[i].CurDir? && !p[i].ParentDir?
    decreases |p|
  {
    if p != [] {
      var q := p[..|p| - 1];
      if p[|p| - 1].Normal? {
        NormalHasNoDots(q);
      }
      assert forall i :: 0 <= i < |q| ==> q[i] == p[i];
    }
  }

  /** Every step keeps the normal form. */
  lemma {:induction false} StepNormal(acc: Path, c: Component)
    requires IsNormal(acc)
    requires c.Prefix? ==> acc == []
    ensures IsNormal(Step(acc, c))
  {
    match c {
      case Prefix(_) =>
        assert Step(acc, c) == [c];
        assert [c][..0] == [];
      case RootDir =>
        var h := PrefixOf(acc);
        var r := h + [RootDir];
        assert Step(acc, c) == r;
        assert r[..|r| - 1] == h;
        assert PrefixOf(h) == h;
      case CurDir =>
        assert Step(acc, c) == acc;
      case ParentDir =>
        if acc != [] && acc[|acc| - 1].Normal? {
          assert Step(acc, c) == acc[..|acc| - 1];
        } else {
          assert Step(acc, c) == acc;
        }
      case Normal(_) =>
        var r := acc + [c];
        assert Step(acc, c) == r;
        assert r[..|r| - 1] == acc;
    }
  }

  /** `normalize_path`'s result is in normal form: no `.` or `..` is left. */
  lemma {:induction false} NormalizeIsNormal(p: Path)
    requires PrefixFirst(p)
    ensures IsNormal(Normalize(p))
    decreases |p|
  {
    if p != [] {
      var q := p[..|p| - 1];
      assert PrefixFirst(q) by {
        assert forall i :: 0 <= i < |q| ==> q[i] == p[i];
      }
      NormalizeIsNormal(q);
      if p[|p| - 1].Prefix? {
        assert |p| == 1 && q == [];
      }
      StepNormal(Normalize(q), p[|p| - 1]);
    }
  }

  /** A path in normal form is its own normalisation. */
  lemma {:induction false} NormalFixed(p: Path)
    requires IsNormal(p)
    ensures Normalize(p) == p
    decreases |p|
  {
    if p != [] {
      var q := p[..|p| - 1];
      var c := p[|p| - 1];
      assert q + [c] == p;
      assert Normalize(p) == Step(Normalize(q), c);
      if c.Normal? {
        NormalFixed(q);
      } else if q != [] {
        assert q == [q[0]] && q[..0] == [];
        assert Normalize(q) == Step([], q[0]) == q;
      }
    }
  }

  /** Normalising twice is normalising once. */
  lemma {:induction false} NormalizeIdempotent(p: Path)
    requires PrefixFirst(p)
    ensures Normalize(Normalize(p)) == Normalize(p)
  {
    NormalizeIsNormal(p);
    NormalFixed(Normalize(p));
  }

  /** A path is absolute when it has a root, after its prefix if any. */
  predicate HasRoot(p: Path)
  {
    |PrefixOf(p)| < |p| && p[|PrefixOf(p)|].RootDir?
  }

  /** A step other than a prefix keeps the prefix and the root of what has
      been built. */
  lemma {:induction false} StepKeepsHead(acc: Path, c: Component)
    requires !c.Prefix? && HasRoot(acc)
    ensures HasRoot(Step(acc, c))
    ensures PrefixOf(Step(acc, c)) == PrefixOf(acc)
  {
    var r := Step(acc, c);
    if c.ParentDir? && r != acc {
      assert r == acc[..|acc| - 1];
      assert r[0] == acc[0];
    } else if c.Normal? {
      assert r == acc + [c];
      assert r[0] == acc[0];
    }
  }

  /** The steps after the root keep it, and the prefix before it. */
  lemma {:induction false} StepsKeepHead(p: Path, n: nat)
    requires PrefixFirst(p) && 0 < n <= |p| && HasRoot(Normalize(p[..n]))
    ensures HasRoot(Normalize(p))
    ensures PrefixOf(Normalize(p)) == PrefixOf(Normalize(p[..n]))
    decreases |p|
  {
    if n == |p| {
      assert p[..n] == p;
    } else {
      var q := p[..|p| - 1];
      assert forall i :: 0 <= i < |q| ==> q[i] == p[i];
      assert q[..n] == p[..n];
      StepsKeepHead(q, n);
      StepKeepsHead(Normalize(q), p[|p| - 1]);
    }
  }

  /** An absolute path normalises to an absolute path with the same
      prefix: `..` never climbs above the root. */
  lemma {:induction false} NormalizeKeepsHead(p: Path)
    requires PrefixFirst(p) && HasRoot(p)
    ensures HasRoot(Normalize(p))
    ensures PrefixOf(Normalize(p)) == PrefixOf(p)
  {
    var k := |PrefixOf(p)|;
    var h := p[..k + 1];
    if k == 0 {
      assert h == [RootDir];
      assert Normalize(h) == Step(Normalize([]), RootDir);
    } else {
      assert h == [p[0], RootDir] && h[..1] == [p[0]];
      assert Normalize(h[..1]) == Step(Normalize([]), p[0]);
    }
    StepsKeepHead(p, k + 1);
  }

  /** `..` at the root stays at the root. */
  lemma {:induction false} ParentOfRoot(rest: Path)
    ensures Normalize([RootDir, ParentDir] + rest) == Normalize([RootDir] + rest)
    decreases |rest|
  {
    if rest == [] {
      assert [RootDir, ParentDir][..1] == [RootDir];
      assert [RootDir][..0] == [];
    } else {
      var q := rest[..|rest| - 1];
      ParentOfRoot(q);
      assert ([RootDir, ParentDir] + rest)[..2 + |q|] == [RootDir, ParentDir] + q;
      assert ([RootDir] + rest)[..1 + |q|] == [RootDir] + q;
    }
  }

  /** The names of a path, in order. */
  function Names(p: Path): seq<Text>
    decreases |p|
  {
    if p == [] then []
    else Names(p[..|p| - 1]) + (if p[|p| - 1].Normal? then [p[|p| - 1].name] else [])
  }

  /** What `components()` guarantees of a path: a prefix only first, a root
      only first or right after the prefix. */
  predicate WellFormed(p: Path)
  {
    && PrefixFirst(p)
    && forall i :: 0 <= i < |p| && p[i].RootDir? ==> i == |PrefixOf(p)|
  }

  /** Without `..`, normalising keeps every name, in order. */
  lemma {:induction false} NamesKept(p: Path)
    requires WellFormed(p)
    requires forall i :: 0 <= i < |p| ==> !p[i].ParentDir?
    ensures Names(Normalize(p)) == Names(p)
    decreases |p|
  {
    if p != [] {
      var q := p[..|p| - 1];
      var c := p[|p| - 1];
      assert forall i :: 0 <= i < |q| ==> q[i] == p[i];
      assert PrefixOf(q) == PrefixOf(p) || q == [];
      NamesKept(q);
      var acc := Normalize(q);
      if c.RootDir? {
        assert q == PrefixOf(q);
        assert Names(q) == [] by {
          if q != [] {
            assert q[..0] == [];
          }
        }
        var r := PrefixOf(acc) + [RootDir];
        assert Names(PrefixOf(acc)) == [] by {
          if PrefixOf(acc) != [] {
            assert PrefixOf(acc)[..0] == [];
          }
        }
        assert r[..|r| - 1] == PrefixOf(acc);
      } else if c.Normal? {
        assert (acc + [c])[..|acc|] == acc;
      }
    }
  }
}
