# danger-plugin-spellcheck, modelled in Dafny

This project models the core of `danger-plugin-spellcheck`, a Danger plugin. During
code review the plugin spell-checks the markdown files that a pull request modifies or
creates. It posts a markdown table per file: each row is the line number of a flagged
word and a short excerpt of that line, with the word in bold.

The model has four modules:

- `JsArray` (`js_array.dfy`): `Option`, and the array operations the plugin uses:
  `filter`, `map` and element access that may be `undefined`. It also proves the
  subsequence and idempotence facts about `filter`.
- `JsString` (`js_string.dfy`): the JavaScript string built-ins the plugin calls, on
  `seq<char>` as code units from the Basic Multilingual Plane:
  - `substr`, `substring` (with its argument swap) and `slice`, each with its clamping;
  - `split` and `join` on one character, with a proof that splitting a join of
    separator-free pieces gives the pieces back;
  - `replace` with a non-global one-character pattern and a replacement without `$`;
  - `endsWith`, `toLowerCase`, and the decimal rendering of a line number.
- `StringIndexContext` (`string_index_context.dfy`): `getLines` and `getBlock` from
  `src/string-index-context.ts`.
  - Their loops are methods. The first loop (`ScanAbove`) walks back from the offset, the
    second (`ScanBelow`) walks forward, and the third (`CountLineNumber`) counts newlines.
  - Each method is proved against specification functions: the newlines before and
    after the offset, the start and end of the line, the line number as a newline count,
    and the excerpt as a slice of the text.
  - Lemmas state what these mean: the line holds no newline; at most `noBefore` /
    `noAfter` neighbouring lines; at most 30 characters of context on each side; the
    bold part is the flagged span.
- `Spellcheck` (`spellcheck.dfy`): `src/index.ts`. This covers:
  - the case-insensitive ignore filter;
  - one context and one table row per surviving word;
  - the row renderer that escapes the first `[`;
  - the `owner/repo@path` parser;
  - the markdown file selection;
  - the failure posted for a reference without `@`;
  - the sequential loop over the files.

The spell checker, the GitHub API and Danger's sinks are not modelled. The checker's
hits, the fetched contents and the file links are parameters. What the plugin would post
is returned, in posting order.

Descriptions of later versions of the plugin mention regex ignores, local settings files,
`cSpell.words` and an `ignoreFiles` list. The code modelled here has none of these. The
model follows the code: `spellCheck` takes 3 arguments, and the ignore list is a plain
word list. As written, the code never lower-cases the ignore list (see Findings).

## Model

| member | source | states |
|---|---|---|
| StringIndexContext.GetLines | src/string-index-context.ts:6-62 | the result's line is the text from the line start to the next newline or end of text; its column is the offset minus the line start; its line number is one more than the newlines before the offset; its before/after lines are the lines between the first `noBefore + 1` / `noAfter + 1` newlines on each side |
| StringIndexContext.ScanAbove | src/string-index-context.ts:13-32 | the backward loop ends with the line start one past the nearest newline before the offset (0 if none), the column as the distance to it, the lines above as the segments between the first `noBefore + 1` newlines, and the last cut at the last of those |
| StringIndexContext.ScanBelow | src/string-index-context.ts:33-48 | the forward loop ends with the line running up to the first newline at or after the offset (or to the end, via `slice`), and the lines below as the segments between the first `noAfter + 1` newlines |
| StringIndexContext.CountLineNumber | src/string-index-context.ts:49-54 | the third loop yields 1 plus the number of newlines in `src[0..index)` |
| StringIndexContext.NewlinesCounted | src/string-index-context.ts:49-54 | the number of newline positions the scans find before the offset equals the newline count of the text before it |
| StringIndexContext.LineStart | src/string-index-context.ts:15-20 | the line start lies at or before the offset and inside the text |
| StringIndexContext.LineEnd | src/string-index-context.ts:33-36 | the line end lies between the line start and the end of the text, and at or after the offset when the offset is inside the text |
| StringIndexContext.LineStartIsAfterLastBreak | src/string-index-context.ts:15-32 | the line start is 0 or right after a newline, and no newline lies between it and the offset |
| StringIndexContext.LineEndIsNextBreak | src/string-index-context.ts:33-48 | the line end is the end of the text or a newline, and no newline lies between the offset and it |
| StringIndexContext.LineHasNoNewline | src/string-index-context.ts:33-48 | the reported line contains no newline |
| StringIndexContext.NeighbourLinesAbove | src/string-index-context.ts:15-28 | at most `noBefore` lines above, each the text from one newline to the next, all ending before the line start |
| StringIndexContext.NeighbourLinesBelow | src/string-index-context.ts:33-45 | at most `noAfter` lines below, each the text from one newline to the next, all starting at or after the line end |
| StringIndexContext.LinesAboveAreSegments | src/string-index-context.ts:21 | each pushed `substr(i, lastCutIndex - i)` is the slice between two consecutive descending cuts |
| StringIndexContext.LinesBelowAreSegments | src/string-index-context.ts:38 | each pushed `substr(lastCutIndex, i - lastCutIndex)` is the slice between two consecutive ascending cuts |
| StringIndexContext.GetBlock | src/string-index-context.ts:65-82 | the block's line number is the line number of the offset and its text is the excerpt of the text around the span |
| StringIndexContext.Excerpt | src/string-index-context.ts:75-77 | the excerpt is never longer than the span plus 64 characters |
| StringIndexContext.ExcerptInLineTerms | src/string-index-context.ts:66-77 | `substring`/`substr` with their clamping, applied to the line and column after the 30-character cuts, give the same text as the excerpt cut from the whole text |
| StringIndexContext.ExcerptOfSpanInLine | src/string-index-context.ts:67-77 | when the span lies on its line, the bold part is exactly the span, each side has at most 30 characters, and each side is the whole rest of the line when that is at most 30 characters |
| StringIndexContext.ExcerptHasNoNewline | src/string-index-context.ts:75-77 | the excerpt contains no newline |
| JsString.ReplaceFirst | src/index.ts:56 | only the first occurrence is replaced; a text without it is unchanged |
| JsString.ToLower | src/index.ts:36 | same length; each `A`–`Z` becomes the lower-case letter at the same place in the alphabet, no upper-case letter is left, and every other character is untouched |
| Spellcheck.Presentable | src/index.ts:36 | a word survives iff it was flagged and its lower-cased form is not on the ignore list |
| Spellcheck.PresentableKeepsOrder | src/index.ts:36 | the survivors are a subsequence of the flagged words |
| Spellcheck.PresentableIdempotent | src/index.ts:36 | filtering the survivors again with the same list changes nothing |
| Spellcheck.PresentableIgnoringMore | src/index.ts:36 | ignoring two lists at once equals filtering by one, then by the other |
| Spellcheck.UppercaseEntryIsInert | src/index.ts:36 | an ignore entry with an upper-case letter never suppresses a word |
| Spellcheck.Context | src/index.ts:38-40 | the context of a word has at most the word's length plus 64 characters and no newline |
| Spellcheck.ContextualErrors | src/index.ts:38-40 | the loop yields, in order, the context of each surviving word |
| Spellcheck.Contexts | src/index.ts:38-40 | exactly one context per surviving word |
| Spellcheck.ContextsOfEachWord | src/index.ts:38-40 | the j-th context is the context of the j-th surviving word |
| Spellcheck.ContextualErrorToMarkdown | src/index.ts:55-58 | the row is the decimal line number, a spaced column bar, then the excerpt with its first `[` (only that one) replaced by `&#91;` |
| Spellcheck.RowReadsBack | src/index.ts:55-58 | the text before the row's first space is the line number in decimal, reads back as that number, and is followed by the spaced column bar |
| Spellcheck.RowHasNoNewline | src/index.ts:55-58 | a row never contains a newline |
| Spellcheck.SpellCheck | src/index.ts:32-53 | the file's output is the table for the surviving words, or nothing when none survive |
| Spellcheck.ReportIffSurvivor | src/index.ts:42-50 | a table is posted iff some flagged word is not ignored |
| Spellcheck.TableRowsRoundTrip | src/index.ts:42-50 | the table body splits back on newlines into one row per surviving word, in order; each row starts with that word's line number |
| Spellcheck.GithubRepresentationForPath | src/index.ts:74-82 | `undefined` iff there is no `@`. Otherwise: path is the text between the first and second `@`; owner is the text before the first `/` of the pre-`@` part; repo is present iff that part has a `/`, and is then the text between its first and second `/` |
| Spellcheck.GithubRefRoundTrip | src/index.ts:74-82 | `owner/repo@path` with no stray separators reads back as exactly that owner, repository and path |
| Spellcheck.IgnoredWordsAsWritten | src/index.ts:114-116 | as written: a missing `ignored` field throws, and a present one yields no ignored word |
| Spellcheck.IgnoredWordsIntended | src/index.ts:115 | the intended list has the settings' words, each lower-cased, in order |
| Spellcheck.IntendedListIsLowerCase | src/index.ts:115 | every entry of the intended list is lower case |
| Spellcheck.IntendedIgnoreIsCaseInsensitive | src/index.ts:115 | with the intended list, a word is hidden iff a listed word equals it up to letter case |
| Spellcheck.IgnoreListCounterexample | src/index.ts:114-116 | a settings file listing `Teh` ignores nothing as written, and `teh` as intended |
| Spellcheck.MarkdownFiles | src/index.ts:104-105 | a file is selected iff it was modified or created and ends in `.md` or `.markdown` |
| Spellcheck.MarkdownFilesOrder | src/index.ts:104-105 | modified files come before created ones, each group in its own order, and the result is a subsequence of the changed files |
| Spellcheck.OptionFailures | src/index.ts:108-120 | a failure is posted iff a non-empty `ignore` option holds no `@`, and it is that one message |
| Spellcheck.ReadIgnoreOption | src/index.ts:106-121 | the option's failures; it throws exactly when the named settings file came back without `ignored`; a throwing read posts no failure; the ignore list stays empty |
| Spellcheck.CheckFiles | src/index.ts:123-128 | the files are checked in order, and the reports are those of the files with contents |
| Spellcheck.ReportsAreFileOutcomes | src/index.ts:123-128 | at most one table per file, and a table is posted iff some file with contents yields it |
| Spellcheck.SpellcheckChangedFiles | src/index.ts:103-129 | failures as above. A throwing settings read stops the run before any file is checked. Otherwise the reports are those of the selected markdown files, in order, with an empty ignore list |

## Left out

- The markdown spell checker `mdSpellCheck` (`markdown-spellcheck`, with its `ignoreNumbers` and `ignoreAcronyms` options). It is the parameter `checker`, and its hits are the input.
- `getDetails` and `getParams`: the GitHub content API, base64 decoding, and the "Network Error" failure with its `toMarkdownObject` body. They are replaced as follows:
  - fetched files are the `contents` map;
  - a file with no entry, or with an empty string, is one `getDetails` returned nothing for;
  - the fetched settings file is the parameter `ignoreSettings`.
- `JSON.parse`: the settings are given already parsed, and a malformed file, which would throw, is not modelled. `Settings.ignored` is `None` for any falsy `ignored` value. A truthy `ignored` that is not a list of strings is not modelled.
- Danger's `markdown`, `fail` and `danger.github.utils.fileLinks`. The first two become returned sequences, in posting order. `fileLinks` is the parameter `fileLinks`.
- The promises and `async`/`await`. The loop over files is sequential, so it is a plain loop. `spellCheck`'s promise resolves after its single `markdown` call, so order is the only thing modelled.
- JsString.ReplaceFirst: does not expand `$&`, `$'`, `$$` or `$n` in the replacement; the only replacement passed is `&#91;`, which holds no `$`.
- JsString.ToLower: lowers the ASCII letters `A`–`Z` only. Unicode case mapping is not modelled.
- Offsets are `nat`. The checker never reports a negative or fractional offset. An offset past the end of the text is modelled as the JavaScript handles it.
- Strings are sequences of code units from the Basic Multilingual Plane, because a Dafny `char` is never a surrogate. Text holding characters outside that plane (surrogate pairs, such as an emoji, which the checker's offsets count as two units) is not modelled, nor is an excerpt cut at src/string-index-context.ts:70-77 that splits such a pair and leaves a lone surrogate. No normalisation is modelled.
- The before/after lines `getLines` returns are unused by `getBlock`. They are still modelled and specified.

## Findings

| source | as written | input that shows it | evidently intended | confidence | as-written member | corrected member |
|---|---|---|---|---|---|---|
| src/index.ts:114-116 | `if (!settings.ignored) { ignoredWords = settings.ignored.map(...) }`: the test is inverted, so a present list is never read and a missing one is mapped over | a settings file `{"ignored": ["Teh"]}` leaves the ignore list empty; a settings file `{}` throws a TypeError | `if (settings.ignored)`: the listed words, lower-cased, become the ignore list | high; not executed | Spellcheck.IgnoredWordsAsWritten (counterexample: Spellcheck.IgnoreListCounterexample) | Spellcheck.IgnoredWordsIntended (proved: Spellcheck.IntendedListIsLowerCase, Spellcheck.IntendedIgnoreIsCaseInsensitive) |

`SpellcheckChangedFiles` and `ReadIgnoreOption` keep the code's behaviour: the throw, and an ignore list that stays empty. The corrected list is proved against the same filter, `Presentable`, that `SpellCheck` applies.
