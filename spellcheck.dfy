/** The Danger plugin itself: which changed files are checked, which flagged
    words are reported, how each report is laid out, and how the `ignore`
    option names a file in another repository.

    The markdown spell checker, the GitHub API, the Danger reporting calls
    and the file-link helper are outside the model: the checker's hits, the
    fetched file contents and the link text are parameters, and the reports
    and failures the plugin would post are returned in order. */
module Spellcheck {
  import opened JsArray
  import opened JsString
  import opened StringIndexContext

  /** A word the markdown spell checker flags, with its offset in the text. */
  datatype SpellCheckWord = SpellCheckWord(word: string, index: nat)

  /** The HTML entity a `[` in an excerpt is replaced with. */
  const LeftSquareBracket: string := "&#91;"

  /** The failure posted when the `ignore` option is not of the form `owner/repo@path`. */
  const CouldNotMakeRepo: string := "`danger-plugin-spellcheck`: Could not make a repo + file from "

  // ---------------------------------------------------------------------------
  // Which flagged words are shown
  // ---------------------------------------------------------------------------

  /** The flagged words whose lower-cased form is not on the ignore list, in their order. */
  function Presentable(errors: seq<SpellCheckWord>, ignoredWords: seq<string>): (r: seq<SpellCheckWord>)
    ensures forall e :: e in r <==> e in errors && ToLower(e.word) !in ignoredWords
  {
    Filter(errors, (e: SpellCheckWord) => ToLower(e.word) !in ignoredWords)
  }

  /** Filtering only drops words: the survivors keep the checker's order. */
  lemma PresentableKeepsOrder(errors: seq<SpellCheckWord>, ignoredWords: seq<string>)
    ensures IsSubsequence(Presentable(errors, ignoredWords), errors)
  {
    FilterIsSubsequence(errors, (e: SpellCheckWord) => ToLower(e.word) !in ignoredWords);
  }

  /** Filtering the survivors again with the same list changes nothing. */
  lemma PresentableIdempotent(errors: seq<SpellCheckWord>, ignoredWords: seq<string>)
    ensures Presentable(Presentable(errors, ignoredWords), ignoredWords) == Presentable(errors, ignoredWords)
  {
    FilterIdempotent(errors, (e: SpellCheckWord) => ToLower(e.word) !in ignoredWords);
  }

  /** Ignoring the words of `more` as well is filtering the survivors once more. */
  lemma PresentableIgnoringMore(errors: seq<SpellCheckWord>, ignoredWords: seq<string>, more: seq<string>)
    ensures Presentable(errors, ignoredWords + more) == Presentable(Presentable(errors, ignoredWords), more)
  {
    FilterTwice(errors, (e: SpellCheckWord) => ToLower(e.word) !in ignoredWords, (e: SpellCheckWord) => ToLower(e.word) !in more,
                (e: SpellCheckWord) => ToLower(e.word) !in ignoredWords + more);
  }

  /** The ignore list is compared with lower-cased words, so an entry holding an
      upper-case letter never hides anything. */
  lemma UppercaseEntryIsInert(errors: seq<SpellCheckWord>, ignoredWords: seq<string>, w: string)
    requires exists k :: 0 <= k < |w| && IsUpper(w[k])
    ensures Presentable(errors, ignoredWords + [w]) == Presentable(errors, ignoredWords)
  {
    forall e | e in errors
      ensures (ToLower(e.word) !in ignoredWords + [w]) == (ToLower(e.word) !in ignoredWords)
    {
      assert ToLower(e.word) != w;
    }
    FilterAgreeing(errors, (e: SpellCheckWord) => ToLower(e.word) !in ignoredWords + [w], (e: SpellCheckWord) => ToLower(e.word) !in ignoredWords);
  }

  // ---------------------------------------------------------------------------
  // One table row per shown word
  // ---------------------------------------------------------------------------

  /** The context `getBlock` gives a flagged word. */
  function Context(sourceText: string, e: SpellCheckWord): (b: Block)
    ensures |b.info| <= |e.word| + 64
    ensures '\n' !in b.info
  {
    ExcerptHasNoNewline(sourceText, e.index, |e.word|);
    Block(Excerpt(sourceText, e.index, |e.word|), LineNumber(sourceText, e.index))
  }

  /** `contextualErrorToMarkdown`: the line number, a column bar, and the excerpt with
      its first `[` (and only that one) replaced by `&#91;`. */
  function ContextualErrorToMarkdown(error: Block): (row: string)
    ensures var info := error.info;
      var k := FirstIndex(info, '[');
      row == NatToDecimal(error.lineNumber) + " | " +
        (if k == |info| then info else info[..k] + LeftSquareBracket + info[k + 1..])
  {
    NatToDecimal(error.lineNumber) + " | " + ReplaceFirst(error.info, '[', LeftSquareBracket)
  }

  /** A row starts with the line number in decimal, up to the first space, followed by
      the column bar; reading the digits back gives the line number. */
  lemma RowReadsBack(error: Block)
    ensures var row := ContextualErrorToMarkdown(error);
      var k := FirstIndex(row, ' ');
      k == |NatToDecimal(error.lineNumber)| && k + 3 <= |row| &&
      row[..k] == NatToDecimal(error.lineNumber) &&
      DecimalValue(row[..k]) == error.lineNumber &&
      row[k..k + 3] == " | "
  {
    DigitsOnly(error.lineNumber);
    NumberThenBar(NatToDecimal(error.lineNumber), ReplaceFirst(error.info, '[', LeftSquareBracket));
    DecimalRoundTrip(error.lineNumber);
  }

  /** A decimal number holds neither a space nor a newline. */
  lemma DigitsOnly(n: nat)
    ensures ' ' !in NatToDecimal(n) && '\n' !in NatToDecimal(n)
  {
    var digits := NatToDecimal(n);
    forall k | 0 <= k < |digits|
      ensures digits[k] != ' ' && digits[k] != '\n'
    {
      assert IsDigit(digits[k]);
    }
  }

  /** In `digits + " | " + rest`, the first space ends the digits. */
  lemma NumberThenBar(digits: string, rest: string)
    requires ' ' !in digits
    ensures var row := digits + " | " + rest;
      var k := FirstIndex(row, ' ');
      k == |digits| && k + 3 <= |row| && row[..k] == digits && row[k..k + 3] == " | "
  {
    var row := digits + " | " + rest;
    assert row == digits + (" | " + rest);
    FirstIndexConcat(digits, " | " + rest, ' ');
    assert row[..|digits|] == digits;
    assert row[|digits|..|digits| + 3] == " | ";
  }

  /** A row stays on one line when its excerpt does. */
  lemma RowHasNoNewline(error: Block)
    requires '\n' !in error.info
    ensures '\n' !in ContextualErrorToMarkdown(error)
  {
    DigitsOnly(error.lineNumber);
  }

  /** The contexts of the shown words, in order. */
  function Contexts(sourceText: string, shown: seq<SpellCheckWord>): (blocks: seq<Block>)
    ensures |blocks| == |shown|
  {
    if shown == [] then []
    else Contexts(sourceText, shown[..|shown| - 1]) + [Context(sourceText, shown[|shown| - 1])]
  }

  /** One context per shown word, each the context of that word. */
  lemma {:induction false} ContextsOfEachWord(sourceText: string, shown: seq<SpellCheckWord>)
    ensures forall j :: 0 <= j < |shown| ==> Contexts(sourceText, shown)[j] == Context(sourceText, shown[j])
  {
    if shown != [] {
      ContextsOfEachWord(sourceText, shown[..|shown| - 1]);
    }
  }

  /** The table rows for the shown words, in order. */
  function TableRows(sourceText: string, shown: seq<SpellCheckWord>): seq<string> {
    Map(Contexts(sourceText, shown), ContextualErrorToMarkdown)
  }

  /** The markdown `spellCheck` posts for a file: a heading with the file's link, the
      table header and one row per line of `rows`. */
  function TypoTable(fileLink: string, rows: seq<string>): string {
    "\n### Typoes for " + fileLink + "\n\n| Line | Typo |\n| ---- | ---- |\n" + Join(rows, '\n') + "\n        "
  }

  /** What `spellCheck` posts for one file: a table when a flagged word survives the
      ignore list, nothing otherwise. */
  function FileReport(fileLink: string, sourceText: string, errors: seq<SpellCheckWord>, ignoredWords: seq<string>): Option<string> {
    var shown := Presentable(errors, ignoredWords);
    if |shown| > 0 then Some(TypoTable(fileLink, TableRows(sourceText, shown))) else None
  }

  /** A file gets a table exactly when some flagged word is not ignored. */
  lemma ReportIffSurvivor(fileLink: string, sourceText: string, errors: seq<SpellCheckWord>, ignoredWords: seq<string>)
    ensures FileReport(fileLink, sourceText, errors, ignoredWords).Some? <==>
      exists e :: e in errors && ToLower(e.word) !in ignoredWords
  {
    var shown := Presentable(errors, ignoredWords);
    if shown != [] {
      assert shown[0] in shown;
    }
  }

  /** The table's body splits back into one row per shown word, in order, and each row
      reads back as the line number of its word. */
  lemma TableRowsRoundTrip(sourceText: string, errors: seq<SpellCheckWord>, ignoredWords: seq<string>)
    requires Presentable(errors, ignoredWords) != []
    ensures var shown := Presentable(errors, ignoredWords);
      var rows := TableRows(sourceText, shown);
      |rows| == |shown| && Split(Join(rows, '\n'), '\n') == rows &&
      forall j :: 0 <= j < |shown| ==> Before(rows[j], ' ') == NatToDecimal(LineNumber(sourceText, shown[j].index))
  {
    var shown := Presentable(errors, ignoredWords);
    var rows := TableRows(sourceText, shown);
    ContextsOfEachWord(sourceText, shown);
    forall j | 0 <= j < |rows|
      ensures '\n' !in rows[j]
      ensures Before(rows[j], ' ') == NatToDecimal(LineNumber(sourceText, shown[j].index))
    {
      RowHasNoNewline(Context(sourceText, shown[j]));
      RowReadsBack(Context(sourceText, shown[j]));
    }
    SplitJoin(rows, '\n');
  }

  /** `spellCheck(file, sourceText, ignoredWords)` with the checker's hits `errors`
      passed in: resolve every shown word to its context, then post the table if there
      is at least one. */
  method SpellCheck(fileLink: string, sourceText: string, errors: seq<SpellCheckWord>, ignoredWords: seq<string>)
    returns (report: Option<string>)
    ensures report == FileReport(fileLink, sourceText, errors, ignoredWords)
  {
    var presentableErrors := Presentable(errors, ignoredWords);
    var contextualErrors := ContextualErrors(sourceText, presentableErrors);
    if |contextualErrors| > 0 {
      var rows := Map(contextualErrors, ContextualErrorToMarkdown);
      report := Some(TypoTable(fileLink, rows));
    } else {
      report := None;
    }
  }

  /** `presentableErrors.map(e => getBlock(sourceText, e.index, e.word.length))`: the
      context of each shown word, in order. */
  method ContextualErrors(sourceText: string, shown: seq<SpellCheckWord>) returns (blocks: seq<Block>)
    ensures blocks == Contexts(sourceText, shown)
  {
    blocks := [];
    for i := 0 to |shown|
      invariant blocks == Contexts(sourceText, shown[..i])
    {
      var e := shown[i];
      var block := GetBlock(sourceText, e.index, |e.word|);
      blocks := blocks + [block];
      assert shown[..i + 1][..i] == shown[..i];
    }
    assert shown[..|shown|] == shown;
  }

  // ---------------------------------------------------------------------------
  // The `ignore` option
  // ---------------------------------------------------------------------------

  /** The repository and file an `owner/repo@path` string names. Splitting on `/`
      always yields an owner; the repository is `undefined` when there is no `/`. */
  datatype GithubRef = GithubRef(path: string, owner: string, repo: Option<string>)

  /** `githubRepresentationforPath(value)`: `undefined` unless `value` holds an `@`;
      otherwise the path is the text after the first `@` (up to a second one), the
      owner the text before the first `/` of the part before it, and the repository
      the text after that `/` (up to a second one). */
  function GithubRepresentationForPath(value: string): (r: Option<GithubRef>)
    ensures r.None? <==> '@' !in value
    ensures r.Some? ==>
      r.value.path == Before(After(value, '@'), '@') &&
      r.value.owner == Before(Before(value, '@'), '/') &&
      (r.value.repo.Some? <==> '/' in Before(value, '@')) &&
      (r.value.repo.Some? ==> r.value.repo.value == Before(After(Before(value, '@'), '/'), '/'))
  {
    if '@' in value then
      var halves := Split(value, '@');
      var ownerRepo := Split(halves[0], '/');
      SplitSecond(value, '@');
      var r := Some(GithubRef(halves[1], ownerRepo[0], ElementAt(ownerRepo, 1)));
      if '/' in halves[0] then SplitSecond(halves[0], '/'); r else r
    else
      None
  }

  /** `owner/repo@path` is read back as that owner, repository and path. */
  lemma GithubRefRoundTrip(owner: string, repo: string, path: string)
    requires '@' !in owner && '@' !in repo && '@' !in path
    requires '/' !in owner && '/' !in repo
    ensures GithubRepresentationForPath(owner + "/" + repo + "@" + path) == Some(GithubRef(path, owner, Some(repo)))
  {
    var head := owner + ['/'] + repo;
    assert '@' !in head;
    BeforeAfterBetween(head, '@', path);
    BeforeAfterBetween(owner, '/', repo);
    BeforeAbsent(path, '@');
    BeforeAbsent(repo, '/');
    assert owner + "/" + repo + "@" + path == head + ['@'] + path;
  }

  /** The `ignored` field of the JSON settings file the `ignore` option names
      (`None` when the field is missing or otherwise falsy). */
  datatype Settings = Settings(ignored: Option<seq<string>>)

  /** The outcome of reading the ignore list out of the settings. */
  datatype IgnoreList = Crash | Words(words: seq<string>)

  /** The ignore list as `index.ts` reads it: the test is inverted, so a list that is
      present is never read, and a missing one is mapped over and throws. */
  function IgnoredWordsAsWritten(settings: Settings): (r: IgnoreList)
    ensures r.Crash? <==> settings.ignored.None?
    ensures r.Words? ==> r.words == []
  {
    if settings.ignored.None? then Crash else Words([])
  }

  /** The ignore list the code evidently intends: the listed words, lower-cased. */
  function IgnoredWordsIntended(settings: Settings): (r: seq<string>)
    ensures settings.ignored.None? ==> r == []
    ensures settings.ignored.Some? ==>
      |r| == |settings.ignored.value| &&
      forall k :: 0 <= k < |r| ==> r[k] == ToLower(settings.ignored.value[k])
  {
    match settings.ignored
    case None => []
    case Some(words) => Map(words, w => ToLower(w))
  }

  /** Every entry of the intended list is already lower case, so the filter's
      lower-cased comparison can match it. */
  lemma IntendedListIsLowerCase(settings: Settings)
    ensures forall w :: w in IgnoredWordsIntended(settings) ==> ToLower(w) == w
  {
    var words := IgnoredWordsIntended(settings);
    forall w | w in words
      ensures ToLower(w) == w
    {
      var k :| 0 <= k < |words| && words[k] == w;
      ToLowerIdempotent(settings.ignored.value[k]);
    }
  }

  /** With the intended list, a flagged word is hidden exactly when some listed word
      equals it up to letter case. */
  lemma IntendedIgnoreIsCaseInsensitive(settings: Settings, errors: seq<SpellCheckWord>, e: SpellCheckWord)
    requires settings.ignored.Some?
    ensures e in Presentable(errors, IgnoredWordsIntended(settings)) <==>
      e in errors && forall k :: 0 <= k < |settings.ignored.value| ==>
        ToLower(settings.ignored.value[k]) != ToLower(e.word)
  {
    var list := IgnoredWordsIntended(settings);
    if ToLower(e.word) in list {
      var k :| 0 <= k < |list| && list[k] == ToLower(e.word);
      assert ToLower(settings.ignored.value[k]) == ToLower(e.word);
    }
  }

  /** A settings file listing `Teh` ignores nothing as written, and `teh` as intended. */
  lemma IgnoreListCounterexample()
    ensures IgnoredWordsAsWritten(Settings(Some(["Teh"]))) == Words([])
    ensures IgnoredWordsIntended(Settings(Some(["Teh"]))) == ["teh"]
  {
    var r := IgnoredWordsIntended(Settings(Some(["Teh"])));
    assert r[0] == ToLower("Teh");
    assert ToLower("Teh") == "teh";
  }

  // ---------------------------------------------------------------------------
  // The default export
  // ---------------------------------------------------------------------------

  /** A path Danger treats as markdown. */
  predicate IsMarkdownPath(f: string) {
    EndsWith(f, ".md") || EndsWith(f, ".markdown")
  }

  /** The modified and created files that are markdown, modified ones first. */
  function MarkdownFiles(modified: seq<string>, created: seq<string>): (r: seq<string>)
    ensures forall f :: f in r <==> (f in modified || f in created) && IsMarkdownPath(f)
  {
    Filter(modified + created, IsMarkdownPath)
  }

  /** The markdown files are listed modified ones first, each group in its own order. */
  lemma MarkdownFilesOrder(modified: seq<string>, created: seq<string>)
    ensures MarkdownFiles(modified, created) == Filter(modified, IsMarkdownPath) + Filter(created, IsMarkdownPath)
    ensures IsSubsequence(MarkdownFiles(modified, created), modified + created)
  {
    FilterConcat(modified, created, IsMarkdownPath);
    FilterIsSubsequence(modified + created, IsMarkdownPath);
  }

  /** A fetched file is checked only when its contents are a non-empty string. */
  predicate HasContents(contents: map<string, string>, f: string) {
    f in contents && contents[f] != ""
  }

  /** What the loop posts for one file. */
  function FileOutcome(f: string, contents: map<string, string>, checker: string -> seq<SpellCheckWord>,
                       fileLinks: string -> string, ignoredWords: seq<string>): Option<string> {
    if HasContents(contents, f) then FileReport(fileLinks(f), contents[f], checker(contents[f]), ignoredWords)
    else None
  }

  /** The tables posted for `files`, one per file that has one, in file order. */
  function Reports(files: seq<string>, contents: map<string, string>, checker: string -> seq<SpellCheckWord>,
                   fileLinks: string -> string, ignoredWords: seq<string>): seq<string>
  {
    if files == [] then []
    else
      var n := |files|;
      var last := FileOutcome(files[n - 1], contents, checker, fileLinks, ignoredWords);
      Reports(files[..n - 1], contents, checker, fileLinks, ignoredWords) + (if last.Some? then [last.value] else [])
  }

  /** At most one table per file, and a table is posted exactly when some file yields it. */
  lemma {:induction false} ReportsAreFileOutcomes(files: seq<string>, contents: map<string, string>,
                                                  checker: string -> seq<SpellCheckWord>,
                                                  fileLinks: string -> string, ignoredWords: seq<string>)
    ensures |Reports(files, contents, checker, fileLinks, ignoredWords)| <= |files|
    ensures forall r :: r in Reports(files, contents, checker, fileLinks, ignoredWords) <==>
      exists f :: f in files && FileOutcome(f, contents, checker, fileLinks, ignoredWords) == Some(r)
  {
    if files != [] {
      var n := |files|;
      ReportsAreFileOutcomes(files[..n - 1], contents, checker, fileLinks, ignoredWords);
      assert forall f :: f in files <==> f in files[..n - 1] || f == files[n - 1];
    }
  }

  /** The failures the option check posts. */
  function OptionFailures(ignore: Option<string>): (failures: seq<string>)
    ensures failures != [] <==> ignore.Some? && ignore.value != "" && '@' !in ignore.value
    ensures failures != [] ==> failures == [CouldNotMakeRepo + ignore.value]
  {
    if ignore.Some? && ignore.value != "" && GithubRepresentationForPath(ignore.value).None? then
      [CouldNotMakeRepo + ignore.value]
    else
      []
  }

  /** The settings read aborts `spellcheck`: the option names a file, the file came back,
      and its `ignored` field is missing, so the inverted test maps over `undefined`. */
  predicate SettingsCrash(ignore: Option<string>, ignoreSettings: Option<Settings>) {
    ignore.Some? && ignore.value != "" && '@' in ignore.value &&
    ignoreSettings.Some? && IgnoredWordsAsWritten(ignoreSettings.value).Crash?
  }

  /** The default export `spellcheck(options)`: pick the changed markdown files, read
      the ignore list the `ignore` option names, then check the files one after the other.
      `ignoreSettings` is what the fetched settings file holds (`None` when nothing came
      back); `contents` the fetched text of each file; `checker` the markdown spell
      checker; `fileLinks` Danger's link for a file. When the settings read throws,
      `crashed` is set and no file is checked. */
  method SpellcheckChangedFiles(modified: seq<string>, created: seq<string>, ignore: Option<string>,
                                ignoreSettings: Option<Settings>, contents: map<string, string>,
                                checker: string -> seq<SpellCheckWord>, fileLinks: string -> string)
    returns (failures: seq<string>, crashed: bool, reports: seq<string>)
    ensures failures == OptionFailures(ignore)
    ensures crashed <==> SettingsCrash(ignore, ignoreSettings)
    ensures reports == if crashed then [] else Reports(MarkdownFiles(modified, created), contents, checker, fileLinks, [])
  {
    var allMD := MarkdownFiles(modified, created);
    var ignoredWords;
    failures, crashed, ignoredWords := ReadIgnoreOption(ignore, ignoreSettings);
    if crashed {
      reports := [];
      return;
    }
    reports := CheckFiles(allMD, contents, checker, fileLinks, ignoredWords);
  }

  /** The `options.ignore` branch of `spellcheck`, as written: a reference without `@`
      posts a failure; otherwise the settings read either throws or leaves the ignore
      list empty. */
  method ReadIgnoreOption(ignore: Option<string>, ignoreSettings: Option<Settings>)
    returns (failures: seq<string>, crashed: bool, ignoredWords: seq<string>)
    ensures failures == OptionFailures(ignore)
    ensures crashed <==> SettingsCrash(ignore, ignoreSettings)
    ensures crashed ==> failures == []
    ensures ignoredWords == []
  {
    ignoredWords := [];
    failures := [];
    crashed := false;
    if ignore.Some? && ignore.value != "" {
      var ignoreRepo := GithubRepresentationForPath(ignore.value);
      if ignoreRepo.Some? {
        if ignoreSettings.Some? {
          match IgnoredWordsAsWritten(ignoreSettings.value)
          case Crash => crashed := true;
          case Words(words) => ignoredWords := words;
        }
      } else {
        failures := failures + [CouldNotMakeRepo + ignore.value];
      }
    }
  }

  /** The `for (const file of allMD)` loop of `spellcheck`: each file with contents is
      checked in turn, and its table, if any, posted after those of the files before it. */
  method CheckFiles(allMD: seq<string>, contents: map<string, string>, checker: string -> seq<SpellCheckWord>,
                    fileLinks: string -> string, ignoredWords: seq<string>)
    returns (reports: seq<string>)
    ensures reports == Reports(allMD, contents, checker, fileLinks, ignoredWords)
  {
    reports := [];
    for i := 0 to |allMD|
      invariant reports == Reports(allMD[..i], contents, checker, fileLinks, ignoredWords)
    {
      var file := allMD[i];
      if file in contents && contents[file] != "" {
        var sourceText := contents[file];
        var report := SpellCheck(fileLinks(file), sourceText, checker(sourceText), ignoredWords);
        if report.Some? {
          reports := reports + [report.value];
        }
      }
      assert allMD[..i + 1][..i] == allMD[..i];
    }
    assert allMD[..|allMD|] == allMD;
  }
}
