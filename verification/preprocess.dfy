/** The mdBook preprocessors `replace` (mdbook-replace) and `regexreplace`
    (mdbook-regexreplace): both read a table of `(regex, replacement)` rules
    from the book's configuration and rewrite the link destinations of every
    chapter with it. */
module Preprocess {
  import opened Base
  import opened Splice
  import opened MdastLinks
  import opened Rewrite
  import opened Rules

  /** A TOML value of the configuration. Only strings, arrays and tables
      matter to the rule tables; every other kind is `Scalar`. */
  datatype Value =
    | Str(s: Text)
    | Array(items: seq<Value>)
    | Table(table: map<Text, Value>)
    | Scalar

  /** `Regex::new` of the regex crate, which is not part of this model:
      `None` when the pattern compiles, else the error message. */
  type Compiler = Text -> Option<Text>

  /** The error of a malformed rule table. */
  function ExpectsTables(name: Text, repType: Text): Failure
  {
    Error("'" + name + "." + repType + "' expects array of tables")
  }

  /** One element of a rule table: a table whose `regex` and `replacement`
      are strings, and whose pattern compiles. */
  function ElementRule(name: Text, repType: Text, compile: Compiler, v: Value): (r: Result<Rule, Failure>)
    ensures r.Ok? ==> v.Table? && "regex" in v.table && v.table["regex"] == Str(r.value.pattern)
    ensures r.Ok? ==> "replacement" in v.table && v.table["replacement"] == Str(r.value.replacement)
    ensures r.Ok? ==> compile(r.value.pattern).None?
  {
    match v
    case Table(t) =>
      if "regex" in t && t["regex"].Str? && "replacement" in t && t["replacement"].Str? then
        var rule := Rule(t["regex"].s, t["replacement"].s);
        match compile(rule.pattern)
        case Some(message) => Err(Error(message))
        case None => Ok(rule)
      else Err(ExpectsTables(name, repType))
    case _ => Err(ExpectsTables(name, repType))
  }

  /** The loop of `get_replacements` over the remaining elements, after the
      rules already pushed. */
  function RulesFold(name: Text, repType: Text, compile: Compiler, arr: seq<Value>, acc: seq<Rule>): Result<seq<Rule>, Failure>
    decreases |arr|
  {
    if arr == [] then Ok(acc)
    else
      match ElementRule(name, repType, compile, arr[0])
      case Err(f) => Err(f)
      case Ok(rule) => RulesFold(name, repType, compile, arr[1..], acc + [rule])
  }

  /** `get_replacements`: no entry gives no rules, an entry that is not an
      array is malformed, and an array gives its elements' rules. */
  function Replacements(name: Text, cfg: map<Text, Value>, repType: Text, compile: Compiler): Result<seq<Rule>, Failure>
  {
    if repType !in cfg then Ok([])
    else
      match cfg[repType]
      case Array(arr) => RulesFold(name, repType, compile, arr, [])
      case _ => Err(ExpectsTables(name, repType))
  }

  /** `get_replacements`: pushes each element's rule in a loop and returns
      early on the first bad element. */
  method GetReplacements(name: Text, cfg: map<Text, Value>, repType: Text, compile: Compiler)
    returns (r: Result<seq<Rule>, Failure>)
    ensures r == Replacements(name, cfg, repType, compile)
  {
    var replacements: seq<Rule> := [];
    if repType !in cfg {
      return Ok(replacements);
    }
    var val := cfg[repType];
    if !val.Array? {
      return Err(ExpectsTables(name, repType));
    }
    var arr := val.items;
    var i := 0;
    while i < |arr|
      invariant 0 <= i <= |arr|
      invariant RulesFold(name, repType, compile, arr[i..], replacements) == Replacements(name, cfg, repType, compile)
    {
      assert arr[i..][0] == arr[i] && arr[i..][1..] == arr[i + 1..];
      var v := arr[i];
      if !v.Table? {
        return Err(ExpectsTables(name, repType));
      }
      var tab := v.table;
      if !("regex" in tab && tab["regex"].Str? && "replacement" in tab && tab["replacement"].Str?) {
        return Err(ExpectsTables(name, repType));
      }
      var pattern, replacement := tab["regex"].s, tab["replacement"].s;
      var compiled := compile(pattern);
      if compiled.Some? {
        return Err(Error(compiled.value));
      }
      replacements := replacements + [Rule(pattern, replacement)];
      i := i + 1;
    }
    r := Ok(replacements);
  }

  /** Every element of the array makes a rule. */
  predicate AllRules(name: Text, repType: Text, compile: Compiler, arr: seq<Value>)
  {
    forall i :: 0 <= i < |arr| ==> ElementRule(name, repType, compile, arr[i]).Ok?
  }

  /** The fold succeeds exactly when every element makes a rule; the rules
      then follow the pushed ones in configuration order, one per element. */
  lemma {:induction false} RulesFoldOk(name: Text, repType: Text, compile: Compiler, arr: seq<Value>, acc: seq<Rule>)
    ensures RulesFold(name, repType, compile, arr, acc).Ok? <==> AllRules(name, repType, compile, arr)
    ensures RulesFold(name, repType, compile, arr, acc).Ok? ==>
      var rs := RulesFold(name, repType, compile, arr, acc).value;
      && |rs| == |acc| + |arr| && rs[..|acc|] == acc
      && forall i :: 0 <= i < |arr| ==> rs[|acc| + i] == ElementRule(name, repType, compile, arr[i]).value
    decreases |arr|
  {
    if arr != [] {
      var rest := arr[1..];
      assert forall i :: 1 <= i < |arr| ==> arr[i] == rest[i - 1];
      var e := ElementRule(name, repType, compile, arr[0]);
      if e.Ok? {
        var acc' := acc + [e.value];
        RulesFoldOk(name, repType, compile, rest, acc');
        assert AllRules(name, repType, compile, arr) <==> AllRules(name, repType, compile, rest);
        if RulesFold(name, repType, compile, arr, acc).Ok? {
          var rs := RulesFold(name, repType, compile, arr, acc).value;
          assert rs[..|acc|] == rs[..|acc'|][..|acc|];
        }
      }
    }
  }

  /** Element `i` is the first that makes no rule, and fails with `f`. */
  predicate FirstBad(name: Text, repType: Text, compile: Compiler, arr: seq<Value>, i: int, f: Failure)
  {
    0 <= i < |arr| && AllRules(name, repType, compile, arr[..i]) && ElementRule(name, repType, compile, arr[i]) == Err(f)
  }

  /** A failing fold fails with the failure of its first bad element. */
  lemma {:induction false} RulesFoldError(name: Text, repType: Text, compile: Compiler, arr: seq<Value>, acc: seq<Rule>)
    requires RulesFold(name, repType, compile, arr, acc).Err?
    ensures exists i :: FirstBad(name, repType, compile, arr, i, RulesFold(name, repType, compile, arr, acc).error)
    decreases |arr|
  {
    var e := ElementRule(name, repType, compile, arr[0]);
    if e.Ok? {
      var rest := arr[1..];
      RulesFoldError(name, repType, compile, rest, acc + [e.value]);
      var i :| FirstBad(name, repType, compile, rest, i, RulesFold(name, repType, compile, arr, acc).error);
      assert arr[i + 1] == rest[i];
      var pre := arr[..i + 1];
      assert AllRules(name, repType, compile, pre) by {
        forall j | 0 <= j < |pre|
          ensures ElementRule(name, repType, compile, pre[j]).Ok?
        {
          if j > 0 {
            assert pre[j] == rest[..i][j - 1];
          }
        }
      }
      assert FirstBad(name, repType, compile, arr, i + 1, RulesFold(name, repType, compile, arr, acc).error);
    } else {
      assert FirstBad(name, repType, compile, arr, 0, e.error);
    }
  }

  /** What `get_replacements` promises: no entry means no rules; a value that
      is not an array, an element that is not a table or lacks a string
      `regex` or `replacement` is "expects array of tables", and a pattern
      that does not compile is its compile error, whichever comes first;
      otherwise one rule per element in configuration order. */
  lemma {:induction false} ReplacementsMeaning(name: Text, cfg: map<Text, Value>, repType: Text, compile: Compiler)
    ensures repType !in cfg ==> Replacements(name, cfg, repType, compile) == Ok([])
    ensures repType in cfg && !cfg[repType].Array? ==>
      Replacements(name, cfg, repType, compile) == Err(ExpectsTables(name, repType))
    ensures repType in cfg && cfg[repType].Array? ==>
      var arr := cfg[repType].items;
      var r := Replacements(name, cfg, repType, compile);
      && (r.Ok? <==> AllRules(name, repType, compile, arr))
      && (r.Ok? ==> (|r.value| == |arr| &&
            forall i :: 0 <= i < |arr| ==> r.value[i] == ElementRule(name, repType, compile, arr[i]).value))
      && (r.Err? ==> exists i :: FirstBad(name, repType, compile, arr, i, r.error))
  {
    if repType in cfg && cfg[repType].Array? {
      var arr := cfg[repType].items;
      RulesFoldOk(name, repType, compile, arr, []);
      if RulesFold(name, repType, compile, arr, []).Err? {
        RulesFoldError(name, repType, compile, arr, []);
      }
    }
  }

  /** A book item of mdBook. */
  datatype BookItem =
    | Chapter(name: Text, content: Text, path: Option<Text>, subItems: seq<BookItem>)
    | Separator
    | PartTitle(title: Text)

  /** What a preprocessor's closure does to one item: its new value, or the
      panic that ends the run. */
  type ItemUpdate = BookItem -> Result<BookItem, Failure>

  /** `Book::for_each_mut` of mdBook: every item, a chapter's sub-items
      before the chapter itself; a panic stops the walk. */
  function ForEachItem(item: BookItem, update: ItemUpdate): Result<BookItem, Failure>
    decreases item, 1
  {
    match item
    case Chapter(name, content, path, subItems) =>
      (match ForEachList(subItems, update)
       case Err(f) => Err(f)
       case Ok(subItems') => update(Chapter(name, content, path, subItems')))
    case _ => update(item)
  }

  function ForEachList(items: seq<BookItem>, update: ItemUpdate): Result<seq<BookItem>, Failure>
    decreases items, 0
  {
    if items == [] then Ok([])
    else
      match ForEachItem(items[0], update)
      case Err(f) => Err(f)
      case Ok(item) =>
        match ForEachList(items[1..], update)
        case Err(f) => Err(f)
        case Ok(rest) => Ok([item] + rest)
  }

  /** `y` is `x`, or `x` with another chapter content. */
  predicate ContentOnly(x: BookItem, y: BookItem)
  {
    y == x || (x.Chapter? && y.Chapter? && y == x.(content := y.content))
  }

  /** Two books that differ at most in the chapters' contents. */
  predicate SameShape(a: BookItem, b: BookItem)
    decreases a, 1
  {
    match a
    case Chapter(name, _, path, subItems) =>
      b.Chapter? && b.name == name && b.path == path && SameShapeList(subItems, b.subItems)
    case _ => b == a
  }

  predicate SameShapeList(xs: seq<BookItem>, ys: seq<BookItem>)
    decreases xs, 0
  {
    |xs| == |ys| && forall i :: 0 <= i < |xs| ==> SameShape(xs[i], ys[i])
  }

  /** A closure that changes at most a chapter's content leaves the book's
      structure, names, paths and non-chapter items as they were. */
  lemma {:induction false} ForEachItemShape(item: BookItem, update: ItemUpdate)
    requires forall x :: update(x).Ok? ==> ContentOnly(x, update(x).value)
    requires ForEachItem(item, update).Ok?
    ensures SameShape(item, ForEachItem(item, update).value)
    decreases item, 1
  {
    match item {
      case Chapter(name, content, path, subItems) =>
        ForEachListShape(subItems, update);
        var subItems' := ForEachList(subItems, update).value;
        var x := Chapter(name, content, path, subItems');
        assert ContentOnly(x, update(x).value);
      case _ =>
        assert ContentOnly(item, update(item).value);
    }
  }

  lemma {:induction false} ForEachListShape(items: seq<BookItem>, update: ItemUpdate)
    requires forall x :: update(x).Ok? ==> ContentOnly(x, update(x).value)
    requires ForEachList(items, update).Ok?
    ensures SameShapeList(items, ForEachList(items, update).value)
    decreases items, 0
  {
    if items != [] {
      ForEachItemShape(items[0], update);
      ForEachListShape(items[1..], update);
      var rs := ForEachList(items, update).value;
      assert forall i :: 1 <= i < |items| ==> items[i] == items[1..][i - 1] && rs[i] == rs[1..][i - 1];
    }
  }

  /** A walk whose closure fails only by panicking fails only by panicking. */
  lemma {:induction false} ForEachItemPanics(item: BookItem, update: ItemUpdate)
    requires forall x :: update(x).Err? ==> update(x).error.Panic?
    ensures ForEachItem(item, update).Err? ==> ForEachItem(item, update).error.Panic?
    decreases item, 1
  {
    if item.Chapter? {
      ForEachListPanics(item.subItems, update);
    }
  }

  lemma {:induction false} ForEachListPanics(items: seq<BookItem>, update: ItemUpdate)
    requires forall x :: update(x).Err? ==> update(x).error.Panic?
    ensures ForEachList(items, update).Err? ==> ForEachList(items, update).error.Panic?
    decreases items, 0
  {
    if items != [] {
      ForEachItemPanics(items[0], update);
      ForEachListPanics(items[1..], update);
    }
  }

  /** `Result::unwrap` on a failed rewrite: every failure becomes a panic. */
  function UnwrapPanic(f: Failure): (r: Failure)
    ensures r.Panic?
  {
    match f
    case Panic(reason) => Panic(reason)
    case Error(message) => Panic("called `Result::unwrap()` on an `Err` value: " + message)
  }

  /** A chapter takes the rewrite's text when it is `Owned` and keeps its
      content when it is `Borrowed`. */
  function UpdateContent(item: BookItem, rewrite: Result<Cow, Failure>): (r: Result<BookItem, Failure>)
    requires item.Chapter?
    ensures r.Ok? ==> ContentOnly(item, r.value)
    ensures rewrite == Ok(Borrowed) ==> r == Ok(item)
    ensures rewrite.Ok? && rewrite.value.Owned? ==> r == Ok(item.(content := rewrite.value.text))
    ensures rewrite.Err? ==> r.Err? && r.error.Panic?
  {
    match rewrite
    case Err(f) => Err(UnwrapPanic(f))
    case Ok(Borrowed) => Ok(item)
    case Ok(Owned(t)) => Ok(item.(content := t))
  }

  // ---------------------------------------------------------------------
  // mdbook-replace

  /** What the `replace` preprocessor takes from libraries that are not part
      of this model. */
  datatype ReplaceEnv = ReplaceEnv(
    /** `md::to_mdast(content, ..).unwrap()` */
    parse: Text -> Node,
    /** `Url::parse(link).is_ok()` */
    isUrl: Text -> bool,
    /** For a chapter file and a link: the link joined to the chapter's
        directory under the book root, made relative to the root by
        `relative_to` and normalised; `None` when `relative_to` fails. */
    localPath: (Text, Text) -> Option<Text>,
    /** `Regex::replace` */
    replace: Replacer)

  const ReplaceName: Text := "replace"
  const RelativeToFailed: Text := "relative_to failed"

  /** The path the local rules see, when they apply to the link: the chapter
      has a path and the link is not a URL. */
  function LocalLink(env: ReplaceEnv, chapterPath: Option<Text>, link: Text): Option<Option<Text>>
  {
    if chapterPath.Some? && !env.isUrl(link) then Some(env.localPath(chapterPath.value, link)) else None
  }

  /** `replace_fn`: the local rules on the root-relative path first, then the
      global rules on the link itself; the first rule that rewrites wins. */
  function ReplaceFn(env: ReplaceEnv, local: seq<Rule>, global: seq<Rule>, chapterPath: Option<Text>): (r: Decider)
    ensures forall link :: r(link).Err? <==> LocalLink(env, chapterPath, link) == Some(None)
    ensures forall link :: r(link).Err? ==> r(link) == Err(Error(RelativeToFailed))
    ensures forall link :: LocalLink(env, chapterPath, link).None? ==> r(link) == Ok(FirstReplacement(global, link, env.replace))
  {
    link =>
      match LocalLink(env, chapterPath, link)
      case Some(None) => Err(Error(RelativeToFailed))
      case Some(Some(rel)) =>
        (match FirstReplacement(local, rel, env.replace)
         case Some(t) => Ok(Some(t))
         case None => Ok(FirstReplacement(global, link, env.replace)))
      case None => Ok(FirstReplacement(global, link, env.replace))
  }

  /** The decision fails only when `relative_to` does; a local rule that
      rewrites the relative path wins over every global rule; otherwise the
      first global rule that rewrites the link decides, and nothing is
      replaced only when no applicable rule rewrites. */
  lemma {:induction false} ReplaceFnOutcome(env: ReplaceEnv, local: seq<Rule>, global: seq<Rule>, chapterPath: Option<Text>, link: Text)
    ensures var d := ReplaceFn(env, local, global, chapterPath)(link);
      var l := LocalLink(env, chapterPath, link);
      && (d.Err? <==> l == Some(None))
      && (l.Some? && l.value.Some? && FirstReplacement(local, l.value.value, env.replace).Some? ==>
            d == Ok(FirstReplacement(local, l.value.value, env.replace)))
      && (d.Ok? && (l.None? || FirstReplacement(local, l.value.value, env.replace).None?) ==>
            d == Ok(FirstReplacement(global, link, env.replace)))
      && (d == Ok(None) <==>
            && (l.None? || (l.value.Some? && forall i :: 0 <= i < |local| ==> env.replace(local[i], l.value.value).None?))
            && forall i :: 0 <= i < |global| ==> env.replace(global[i], link).None?)
  {
  }

  /** The chapter closure of `run`: a chapter's content is rewritten with
      `replace_fn`, and `unwrap` turns a failure into a panic. */
  function ReplaceChapter(env: ReplaceEnv, local: seq<Rule>, global: seq<Rule>, item: BookItem): (r: Result<BookItem, Failure>)
    ensures r.Ok? ==> ContentOnly(item, r.value)
    ensures !item.Chapter? ==> r == Ok(item)
    ensures item.Chapter? ==>
      var rewrite := Replaced(item.content, env.parse(item.content), ReplaceFn(env, local, global, item.path));
      && (rewrite.Ok? ==> r == Ok(item.(content := rewrite.value.Value(item.content))))
      && (rewrite.Err? ==> r.Err? && r.error.Panic?)
  {
    match item
    case Chapter(_, content, path, _) =>
      UpdateContent(item, Replaced(content, env.parse(content), ReplaceFn(env, local, global, path)))
    case _ => Ok(item)
  }

  /** A chapter of mdbook-replace fails only by a panic: the `unwrap` of a
      failed `relative_to`, which the source's comment rules out but nothing
      else does, or the panic of locating a span or of splicing out of
      order. */
  lemma {:induction false} ReplaceChapterFailure(env: ReplaceEnv, local: seq<Rule>, global: seq<Rule>, item: BookItem)
    ensures var r := ReplaceChapter(env, local, global, item);
      r.Err? ==> (item.Chapter? &&
        (|| r.error == UnwrapPanic(Error(RelativeToFailed))
         || (r.error.Panic? &&
             Replaced(item.content, env.parse(item.content), ReplaceFn(env, local, global, item.path)) == Err(r.error))))
  {
    if item.Chapter? {
      var c := item.content;
      var decide := ReplaceFn(env, local, global, item.path);
      var links := GetLinks(c, env.parse(c));
      if links.Ok? && Run(c, links.value, decide).Err? {
        RunErrorSource(c, links.value, decide);
      }
    }
  }

  /** `Preprocessor::run` of mdbook-replace on a book's sections. */
  function ReplaceRun(cfg: Option<map<Text, Value>>, compile: Compiler, env: ReplaceEnv, book: seq<BookItem>)
    : Result<seq<BookItem>, Failure>
  {
    match cfg
    case None => Ok(book)
    case Some(c) =>
      match Replacements(ReplaceName, c, "link_replacements", compile)
      case Err(f) => Err(f)
      case Ok(global) =>
        match Replacements(ReplaceName, c, "local_link_replacements", compile)
        case Err(f) => Err(f)
        case Ok(local) => ForEachList(book, item => ReplaceChapter(env, local, global, item))
  }

  /** `Preprocessor::run` of mdbook-replace. */
  method RunReplace(cfg: Option<map<Text, Value>>, compile: Compiler, env: ReplaceEnv, book: seq<BookItem>)
    returns (r: Result<seq<BookItem>, Failure>)
    ensures r == ReplaceRun(cfg, compile, env, book)
  {
    if cfg.None? {
      return Ok(book);
    }
    var global := GetReplacements(ReplaceName, cfg.value, "link_replacements", compile);
    if global.Err? {
      return Err(global.error);
    }
    var local := GetReplacements(ReplaceName, cfg.value, "local_link_replacements", compile);
    if local.Err? {
      return Err(local.error);
    }
    r := ForEachList(book, item => ReplaceChapter(env, local.value, global.value, item));
  }

  /** Without a `replace` section the book is returned as it is; with one,
      the run keeps the book's structure and changes only chapter contents,
      and a failing run after a valid configuration is a panic. */
  lemma {:induction false} ReplaceRunShape(cfg: Option<map<Text, Value>>, compile: Compiler, env: ReplaceEnv, book: seq<BookItem>)
    ensures cfg.None? ==> ReplaceRun(cfg, compile, env, book) == Ok(book)
    ensures ReplaceRun(cfg, compile, env, book).Ok? ==> SameShapeList(book, ReplaceRun(cfg, compile, env, book).value)
    ensures (&& cfg.Some?
             && Replacements(ReplaceName, cfg.value, "link_replacements", compile).Ok?
             && Replacements(ReplaceName, cfg.value, "local_link_replacements", compile).Ok?
             && ReplaceRun(cfg, compile, env, book).Err?) ==>
      ReplaceRun(cfg, compile, env, book).error.Panic?
  {
    if cfg.Some? {
      var c := cfg.value;
      var global := Replacements(ReplaceName, c, "link_replacements", compile);
      var local := Replacements(ReplaceName, c, "local_link_replacements", compile);
      if global.Ok? && local.Ok? {
        var update: ItemUpdate := item => ReplaceChapter(env, local.value, global.value, item);
        ForEachListPanics(book, update);
        if ForEachList(book, update).Ok? {
          ForEachListShape(book, update);
        }
      }
    } else {
      assert SameShapeList(book, book) by {
        forall i | 0 <= i < |book| ensures SameShape(book[i], book[i]) {
          SameShapeRefl(book[i]);
        }
      }
    }
  }

  lemma {:induction false} SameShapeRefl(a: BookItem)
    ensures SameShape(a, a)
    decreases a
  {
    if a.Chapter? {
      forall i | 0 <= i < |a.subItems| ensures SameShape(a.subItems[i], a.subItems[i]) {
        SameShapeRefl(a.subItems[i]);
      }
    }
  }

  // ---------------------------------------------------------------------
  // mdbook-regexreplace

  const RegexReplaceName: Text := "regexreplace"

  /** The chapter closure of mdbook-regexreplace's `run`:
      `regexreplace_links` of mdutil-lib on the chapter's content. */
  function RegexChapter(parse: Text -> Node, replace: Replacer, rules: seq<Rule>, item: BookItem): (r: Result<BookItem, Failure>)
    ensures r.Ok? ==> ContentOnly(item, r.value)
    ensures !item.Chapter? ==> r == Ok(item)
    ensures item.Chapter? ==>
      var rewrite := Replaced(item.content, parse(item.content), RuleDecision(rules, replace));
      && (rewrite.Ok? ==> r == Ok(item.(content := rewrite.value.Value(item.content))))
      && (rewrite.Err? ==> r.Err? && r.error.Panic?)
  {
    match item
    case Chapter(_, content, _, _) =>
      UpdateContent(item, Replaced(content, parse(content), RuleDecision(rules, replace)))
    case _ => Ok(item)
  }

  /** `Preprocessor::run` of mdbook-regexreplace on a book's sections. */
  function RegexReplaceRun(cfg: Option<map<Text, Value>>, compile: Compiler, parse: Text -> Node, replace: Replacer,
                           book: seq<BookItem>): Result<seq<BookItem>, Failure>
  {
    match cfg
    case None => Ok(book)
    case Some(c) =>
      match Replacements(RegexReplaceName, c, "link_replacements", compile)
      case Err(f) => Err(f)
      case Ok(rules) => ForEachList(book, item => RegexChapter(parse, replace, rules, item))
  }

  /** `Preprocessor::run` of mdbook-regexreplace. */
  method RunRegexReplace(cfg: Option<map<Text, Value>>, compile: Compiler, parse: Text -> Node, replace: Replacer,
                         book: seq<BookItem>) returns (r: Result<seq<BookItem>, Failure>)
    ensures r == RegexReplaceRun(cfg, compile, parse, replace, book)
  {
    if cfg.None? {
      return Ok(book);
    }
    var rules := GetReplacements(RegexReplaceName, cfg.value, "link_replacements", compile);
    if rules.Err? {
      return Err(rules.error);
    }
    r := ForEachList(book, item => RegexChapter(parse, replace, rules.value, item));
  }

  /** A chapter of mdbook-regexreplace fails only by a panic, and only by the
      panic of locating a span or of splicing out of order. */
  lemma {:induction false} RegexChapterOnlyPanics(parse: Text -> Node, replace: Replacer, rules: seq<Rule>, item: BookItem)
    ensures RegexChapter(parse, replace, rules, item).Err? ==>
      item.Chapter? && Replaced(item.content, parse(item.content), RuleDecision(rules, replace)).Err? &&
      RegexChapter(parse, replace, rules, item).error ==
        Replaced(item.content, parse(item.content), RuleDecision(rules, replace)).error
  {
    if item.Chapter? {
      RuleRewriteOnlyPanics(item.content, parse(item.content), rules, replace);
    }
  }

  /** Without a `regexreplace` section the book is returned as it is; with
      one, the run keeps the book's structure and changes only chapter
      contents, and a failing run after a valid configuration is a panic. */
  lemma {:induction false} RegexReplaceRunShape(cfg: Option<map<Text, Value>>, compile: Compiler, parse: Text -> Node,
                                               replace: Replacer, book: seq<BookItem>)
    ensures cfg.None? ==> RegexReplaceRun(cfg, compile, parse, replace, book) == Ok(book)
    ensures RegexReplaceRun(cfg, compile, parse, replace, book).Ok? ==>
      SameShapeList(book, RegexReplaceRun(cfg, compile, parse, replace, book).value)
    ensures (&& cfg.Some?
             && Replacements(RegexReplaceName, cfg.value, "link_replacements", compile).Ok?
             && RegexReplaceRun(cfg, compile, parse, replace, book).Err?) ==>
      RegexReplaceRun(cfg, compile, parse, replace, book).error.Panic?
  {
    if cfg.Some? {
      var rules := Replacements(RegexReplaceName, cfg.value, "link_replacements", compile);
      if rules.Ok? {
        var update: ItemUpdate := item => RegexChapter(parse, replace, rules.value, item);
        ForEachListPanics(book, update);
        if ForEachList(book, update).Ok? {
          ForEachListShape(book, update);
        }
      }
    } else {
      forall i | 0 <= i < |book| ensures SameShape(book[i], book[i]) {
        SameShapeRefl(book[i]);
      }
    }
  }

  // ---------------------------------------------------------------------
  // The preprocessors' tests

  /** The chapter of the tests after the catch-all rule. */
  const ChapterExpected: Text := "[foo](" + HugoUrl + ") <" + HugoUrl + ">\n"

  /** The configuration of the tests: one catch-all rule. */
  const CatchAllTable: map<Text, Value> :=
    map["link_replacements" := Array([Table(map["regex" := Str(".*"), "replacement" := Str(HugoUrl)])])]

  const TestBook: seq<BookItem> := [Chapter("Chapter 1", ChapterText, Some("chapter_1.md"), [])]

  const ExpectedBook: seq<BookItem> := [Chapter("Chapter 1", ChapterExpected, Some("chapter_1.md"), [])]

  /** The text the rewrite keeps around the chapter's destinations. */
  lemma {:induction false} ChapterKeptText()
    ensures |ChapterText| == 34
    ensures ChapterText[..6] == "[foo](" && ChapterText[12..15] == ") <" && ChapterText[32..] == ">\n"
  {
    var c := ChapterText;
    assert |ExampleInline| == 13 && |ExampleAutolink| == 19;
    assert c[..6] == ExampleInline[..6] == "[foo](";
    assert c[12..15] == ExampleInline[12..] + " " + ExampleAutolink[..1];
    assert ExampleInline[12..] == ")" && ExampleAutolink[..1] == "<";
    assert c[32..] == ExampleAutolink[18..] + "\n";
    assert ExampleAutolink[18..] == ">";
  }

  /** A decision that replaces every destination by the tests' URL turns the
      chapter into the expected one. */
  lemma {:induction false} ChapterCatchAll(decide: Decider)
    requires decide("bar.md") == Ok(Some(HugoUrl)) && decide("https://bbc.co.uk") == Ok(Some(HugoUrl))
    ensures Replaced(ChapterText, ChapterTree, decide) == Ok(Owned(ChapterExpected))
  {
    ChapterLinks();
    ChapterKeptText();
    ExampleDestinations();
    var c, e := ChapterText, ExampleText;
    assert |ExampleInline| == 13 && |ExampleAutolink| == 19;
    assert c[..33] == ExampleInline + " " + ExampleAutolink == e[..33];
    assert c[6..12] == c[..33][6..12] && e[6..12] == e[..33][6..12];
    assert c[15..32] == c[..33][15..32] && e[15..32] == e[..33][15..32];
    RewriteTwo(ChapterText, Span(6, 12), Span(15, 32), decide, HugoUrl);
  }

  /** The catch-all table makes one rule. */
  lemma {:induction false} CatchAllRules(name: Text, compile: Compiler)
    requires compile(".*").None?
    ensures Replacements(name, CatchAllTable, "link_replacements", compile) == Ok([CatchAll])
  {
    var rt := "link_replacements";
    var arr := CatchAllTable[rt].items;
    assert arr == [Table(map["regex" := Str(".*"), "replacement" := Str(HugoUrl)])];
    assert ElementRule(name, rt, compile, arr[0]) == Ok(CatchAll);
    assert arr[1..] == [] && [] + [CatchAll] == [CatchAll];
    assert RulesFold(name, rt, compile, arr[1..], [CatchAll]) == Ok([CatchAll]);
    assert Replacements(name, CatchAllTable, rt, compile) == RulesFold(name, rt, compile, arr, []);
  }

  /** A walk over a single chapter without sub-items is one update. */
  lemma {:induction false} ForEachSingle(item: BookItem, update: ItemUpdate)
    requires item.Chapter? && item.subItems == []
    ensures ForEachList([item], update) ==
      match update(item)
      case Err(f) => Err(f)
      case Ok(y) => Ok([y])
  {
    assert ForEachList([], update) == Ok([]);
    assert item == Chapter(item.name, item.content, item.path, []);
    assert ForEachItem(item, update) == update(item);
    assert [item][0] == item && [item][1..] == [];
    if update(item).Ok? {
      assert [update(item).value] + [] == [update(item).value];
    }
  }

  /** With only the catch-all global rule and no local rules, `replace_fn`
      replaces every destination by the tests' URL. */
  lemma {:induction false} ReplaceFnCatchAll(env: ReplaceEnv, chapterPath: Option<Text>, s: Text)
    requires env.replace(CatchAll, s) == Some(HugoUrl)
    requires LocalLink(env, chapterPath, s) != Some(None)
    ensures ReplaceFn(env, [], [CatchAll], chapterPath)(s) == Ok(Some(HugoUrl))
  {
    assert [CatchAll][1..] == [];
    assert FirstReplacement([CatchAll], s, env.replace) == Some(HugoUrl);
    var l := LocalLink(env, chapterPath, s);
    if l.Some? {
      assert FirstReplacement([], l.value.value, env.replace) == None;
    }
  }

  /** The test of mdbook-replace: with only the catch-all global rule, both
      destinations of the chapter become the tests' URL. */
  lemma {:induction false} ReplaceTest(compile: Compiler, env: ReplaceEnv)
    requires compile(".*").None?
    requires env.replace(CatchAll, "bar.md") == Some(HugoUrl)
    requires env.replace(CatchAll, "https://bbc.co.uk") == Some(HugoUrl)
    requires !env.isUrl("bar.md") ==> env.localPath("chapter_1.md", "bar.md").Some?
    requires !env.isUrl("https://bbc.co.uk") ==> env.localPath("chapter_1.md", "https://bbc.co.uk").Some?
    requires env.parse(ChapterText) == ChapterTree
    ensures ReplaceRun(Some(CatchAllTable), compile, env, TestBook) == Ok(ExpectedBook)
  {
    CatchAllRules(ReplaceName, compile);
    assert "local_link_replacements" !in CatchAllTable;
    var decide := ReplaceFn(env, [], [CatchAll], Some("chapter_1.md"));
    ReplaceFnCatchAll(env, Some("chapter_1.md"), "bar.md");
    ReplaceFnCatchAll(env, Some("chapter_1.md"), "https://bbc.co.uk");
    ChapterCatchAll(decide);
    var update: ItemUpdate := item => ReplaceChapter(env, [], [CatchAll], item);
    assert update(TestBook[0]) == Ok(ExpectedBook[0]);
    ForEachSingle(TestBook[0], update);
  }

  /** The test of mdbook-regexreplace: the catch-all rule rewrites both link
      kinds of the chapter. */
  lemma {:induction false} RegexReplaceTest(compile: Compiler, parse: Text -> Node, replace: Replacer)
    requires compile(".*").None?
    requires replace(CatchAll, "bar.md") == Some(HugoUrl)
    requires replace(CatchAll, "https://bbc.co.uk") == Some(HugoUrl)
    requires parse(ChapterText) == ChapterTree
    ensures RegexReplaceRun(Some(CatchAllTable), compile, parse, replace, TestBook) == Ok(ExpectedBook)
  {
    CatchAllRules(RegexReplaceName, compile);
    CatchAllDecision(replace, "bar.md");
    CatchAllDecision(replace, "https://bbc.co.uk");
    ChapterCatchAll(RuleDecision([CatchAll], replace));
    var update: ItemUpdate := item => RegexChapter(parse, replace, [CatchAll], item);
    assert update(TestBook[0]) == Ok(ExpectedBook[0]);
    ForEachSingle(TestBook[0], update);
  }
}
