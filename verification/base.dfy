/** Shared vocabulary: optional values, results, Rust's `Cow<str>` and the
    string trimming functions of Rust's `str` that the tools rely on.
    Text is a sequence of Unicode scalar values, so ranges and offsets count
    characters; they equal the source's UTF-8 byte offsets only for ASCII
    text. */
module Base {

  type Text = string

  datatype Option<+T> = None | Some(value: T)

  datatype Result<+T, +E> = Ok(value: T) | Err(error: E)

  /** How an operation stops early: a Rust panic (an `unwrap`, an out-of-range
      slice, an explicit `panic!`) or an error value propagated with `?`. */
  datatype Failure = Panic(reason: Text) | Error(message: Text)

  /** Rust's `Cow<'_, str>`: `Borrowed` hands the caller's own text back
      (nothing was changed, nothing was copied), `Owned` carries a new text. */
  datatype Cow = Borrowed | Owned(text: Text)
  {
    /** The text a caller sees when it dereferences the value. */
    function Value(original: Text): Text
    {
      if Borrowed? then original else text
    }
  }

  /** `char::is_whitespace`: the Unicode White_Space property. */
  predicate IsWhitespace(c: char)
  {
    || ('\t' <= c <= '\r') || c == ' ' || c == '\U{0085}' || c == '\U{00A0}' || c == '\U{1680}'
    || ('\U{2000}' <= c <= '\U{200A}') || c == '\U{2028}' || c == '\U{2029}' || c == '\U{202F}'
    || c == '\U{205F}' || c == '\U{3000}'
  }

  /** Number of leading characters of `s` that satisfy `p`. */
  function LeadingCount(s: Text, p: char -> bool): (n: nat)
    ensures n <= |s|
    ensures forall i :: 0 <= i < n ==> p(s[i])
    ensures n < |s| ==> !p(s[n])
  {
    if s == [] || !p(s[0]) then 0 else 1 + LeadingCount(s[1..], p)
  }

  /** Number of trailing characters of `s` that satisfy `p`. */
  function TrailingCount(s: Text, p: char -> bool): (n: nat)
    ensures n <= |s|
    ensures forall i :: |s| - n <= i < |s| ==> p(s[i])
    ensures n < |s| ==> !p(s[|s| - 1 - n])
  {
    if s == [] || !p(s[|s| - 1]) then 0 else 1 + TrailingCount(s[..|s| - 1], p)
  }

  /** `str::trim_start_matches(c)`: drops every leading `c`. */
  function TrimStartMatches(s: Text, c: char): (r: Text)
    ensures |r| <= |s|
    decreases |s|
  {
    if s != [] && s[0] == c then TrimStartMatches(s[1..], c) else s
  }

  /** `str::trim_end_matches(c)`: drops every trailing `c`. */
  function TrimEndMatches(s: Text, c: char): (r: Text)
    ensures |r| <= |s|
    decreases |s|
  {
    if s != [] && s[|s| - 1] == c then TrimEndMatches(s[..|s| - 1], c) else s
  }

  /** `str::trim_start`: drops the leading whitespace. */
  function TrimStart(s: Text): (r: Text)
    ensures |r| <= |s|
    decreases |s|
  {
    if s != [] && IsWhitespace(s[0]) then TrimStart(s[1..]) else s
  }

  /** `str::trim_end`: drops the trailing whitespace. */
  function TrimEnd(s: Text): (r: Text)
    ensures |r| <= |s|
    decreases |s|
  {
    if s != [] && IsWhitespace(s[|s| - 1]) then TrimEnd(s[..|s| - 1]) else s
  }

  /** `str::trim`. */
  function Trim(s: Text): Text
  {
    TrimEnd(TrimStart(s))
  }

  /** `trim_start_matches` keeps a suffix, drops only `c`, and stops at the
      first other character. */
  lemma {:induction false} TrimStartMatchesShape(s: Text, c: char)
    ensures var r := TrimStartMatches(s, c);
      && |r| <= |s| && r == s[|s| - |r|..]
      && (forall i :: 0 <= i < |s| - |r| ==> s[i] == c)
      && (r != [] ==> r[0] != c)
    decreases |s|
  {
    if s != [] && s[0] == c {
      TrimStartMatchesShape(s[1..], c);
      var r := TrimStartMatches(s, c);
      assert s[1..][|s| - 1 - |r|..] == s[|s| - |r|..];
      assert forall i :: 1 <= i < |s| - |r| ==> s[i] == s[1..][i - 1];
    }
  }

  /** `trim_end_matches` keeps a prefix, drops only `c`, and stops at the
      last other character. */
  lemma {:induction false} TrimEndMatchesShape(s: Text, c: char)
    ensures var r := TrimEndMatches(s, c);
      && |r| <= |s| && r == s[..|r|]
      && (forall i :: |r| <= i < |s| ==> s[i] == c)
      && (r != [] ==> r[|r| - 1] != c)
    decreases |s|
  {
    if s != [] && s[|s| - 1] == c {
      TrimEndMatchesShape(s[..|s| - 1], c);
      var r := TrimEndMatches(s, c);
      assert s[..|s| - 1][..|r|] == s[..|r|];
    }
  }

  /** `trim_start` keeps a suffix, drops only whitespace, and the rest does
      not start with whitespace. */
  lemma {:induction false} TrimStartShape(s: Text)
    ensures var r := TrimStart(s);
      && |r| <= |s| && r == s[|s| - |r|..]
      && (forall i :: 0 <= i < |s| - |r| ==> IsWhitespace(s[i]))
      && (r != [] ==> !IsWhitespace(r[0]))
    decreases |s|
  {
    if s != [] && IsWhitespace(s[0]) {
      TrimStartShape(s[1..]);
      var r := TrimStart(s);
      assert s[1..][|s| - 1 - |r|..] == s[|s| - |r|..];
      assert forall i :: 1 <= i < |s| - |r| ==> s[i] == s[1..][i - 1];
    }
  }

  /** `trim_end` keeps a prefix, drops only whitespace, and the rest does
      not end with whitespace. */
  lemma {:induction false} TrimEndShape(s: Text)
    ensures var r := TrimEnd(s);
      && |r| <= |s| && r == s[..|r|]
      && (forall i :: |r| <= i < |s| ==> IsWhitespace(s[i]))
      && (r != [] ==> !IsWhitespace(r[|r| - 1]))
    decreases |s|
  {
    if s != [] && IsWhitespace(s[|s| - 1]) {
      TrimEndShape(s[..|s| - 1]);
      var r := TrimEnd(s);
      assert s[..|s| - 1][..|r|] == s[..|r|];
    }
  }

  /** A text that does not start with whitespace is its own `trim_start`. */
  lemma {:induction false} TrimStartFixed(s: Text)
    requires s != [] ==> !IsWhitespace(s[0])
    ensures TrimStart(s) == s
  {
  }

  /** A text that does not end with whitespace is its own `trim_end`. */
  lemma {:induction false} TrimEndFixed(s: Text)
    requires s != [] ==> !IsWhitespace(s[|s| - 1])
    ensures TrimEnd(s) == s
  {
  }

  /** `str::trim` keeps a middle part of the text, everything around it is
      whitespace, and the part neither starts nor ends with whitespace. */
  lemma {:induction false} TrimShape(s: Text)
    ensures var lo, r := |s| - |TrimStart(s)|, Trim(s);
      && lo + |r| <= |s|
      && r == s[lo..lo + |r|]
      && (forall i :: 0 <= i < lo ==> IsWhitespace(s[i]))
      && (forall i :: lo + |r| <= i < |s| ==> IsWhitespace(s[i]))
      && (r != [] ==> !IsWhitespace(r[0]) && !IsWhitespace(r[|r| - 1]))
  {
    var u := TrimStart(s);
    TrimStartShape(s);
    TrimEndShape(u);
    var r := TrimEnd(u);
    var lo := |s| - |u|;
    assert u == s[lo..];
    assert r == u[..|r|] == s[lo..][..|r|];
    assert forall i :: lo + |r| <= i < |s| ==> s[i] == u[i - lo];
  }

  /** Trimming is idempotent: a trimmed text has no whitespace at either end. */
  lemma {:induction false} TrimIdempotent(s: Text)
    ensures Trim(Trim(s)) == Trim(s)
  {
    var t := Trim(s);
    TrimShape(s);
    TrimStartFixed(t);
    TrimEndFixed(t);
  }

  /** First index of `c` in `s`, if any. */
  function IndexOf(s: Text, c: char): (r: Option<nat>)
    ensures r.Some? ==> r.value < |s| && s[r.value] == c && forall i :: 0 <= i < r.value ==> s[i] != c
    ensures r.None? ==> forall i :: 0 <= i < |s| ==> s[i] != c
  {
    if s == [] then None
    else if s[0] == c then Some(0)
    else match IndexOf(s[1..], c)
      case None => None
      case Some(i) => Some(i + 1)
  }

  /** Last index of `c` in `s`, if any. */
  function LastIndexOf(s: Text, c: char): (r: Option<nat>)
    ensures r.Some? ==> r.value < |s| && s[r.value] == c && forall i :: r.value < i < |s| ==> s[i] != c
    ensures r.None? ==> forall i :: 0 <= i < |s| ==> s[i] != c
  {
    if s == [] then None
    else if s[|s| - 1] == c then Some(|s| - 1)
    else LastIndexOf(s[..|s| - 1], c)
  }
}
