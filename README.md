# update_version_next: the `next` version-directive rewriter

At release time, `update_version_next.py` walks a documentation tree. It
visits every `.rst` file below a directory. Each line that fully matches
`DIRECTIVE_RE` has its placeholder `next` replaced by the version being
released. A typical line is `.. versionchanged:: next`; another is
`.. deprecated-removed:: next, 3.15`. A file is written back, in full,
exactly when at least one of its lines matches. This holds even when the
replacement leaves the text as it was, as it does with the version `next`.

This project models that rewriter in Dafny and proves what it does.

- `directive_re.dfy` (module `DirectiveRe`) states the line grammar of
  `DIRECTIVE_RE` declaratively. `BeforeParts.Valid` and `BeforeParts.Text`
  describe the `before` group piece by piece, and `IsDirectiveLine` is
  `line == before + "next" + after`. A hand-written matcher,
  `MatchDirective`, is proved sound and complete against that grammar.
  Completeness also shows that a directive line has only one split into
  `before`, `next` and `after`. So the groups the model captures are the
  ones the regular expression captures, whichever way its engine
  backtracks.
- `update_version_next.dfy` (module `UpdateVersionNext`) models `main`.
  The directory is a map from path to the file's lines, each line keeping
  its newline. The line loop is the method `RewriteFile`, with a counter
  and an output list. The loop over the files the glob yields is the
  method `UpdateTree`. Both are proved against specification functions:
  `RewriteLines`, `CountDirectives`, `RewrittenPaths` and `UpdatedTree`.
  The properties of the rewrite are proved as lemmas about those
  functions: pass-through, preserved prefix and suffix, the change count,
  write-exactly-when-a-line-matches, and a second run over the files read
  back changing nothing.
- `text_lines.dfy` (module `TextLines`) models how a text-mode file
  becomes lines and lines become a file. Reading translates `\r\n` and
  `\r` to `\n` and yields lines up to and including each `\n`
  (`ReadLines`); `writelines` joins them (`Join`). `AsRead` says which
  lists of lines a read can yield, and lines of that shape survive being
  written and read back (`ReadLinesJoin`). This is what lets the model's
  second run be the one the program performs, which re-reads the files.
- `directive_samples.dfy` (module `DirectiveSamples`) and
  `directive_cases.dfy` (module `DirectiveCases`) pin down concrete lines.
  These include the docstring's sample line (update_version_next.py:3),
  one further `deprecated-removed` example, the edges of the grammar, and
  a small directory.

Python's `\s` on text is modelled exactly, as the characters for which
`str.isspace()` holds (`DirectiveRe.IsSpace`).

The docstring (update_version_next.py:2-12) and the help texts (:40, :45,
:52) say little about the exact shape of an eligible line. One might
expect more of the pattern than it does, and the model records what the
pattern actually accepts:

- One might expect whitespace around `::`, as in the sample line
  `.. versionchanged:: next`. The pattern's `\s*::\s*` accepts none, so
  `   .. versionadded::next` is rewritten
  (`DirectiveCases.IndentedTightSeparatorRewritten`).
- One might expect only a version field of exactly `next` to be eligible.
  The pattern has no word boundary after `next`, so
  `.. versionadded:: nexted` is rewritten to `.. versionadded:: 3.13ed`
  (`DirectiveCases.NoWordBoundaryAfterSentinel`).
- One might expect a second run to be a no-op. The help says the version
  "can be anything" (:40), but a second run changes nothing only for some
  version strings. For the rewritten line as it stands in memory,
  `UpdateVersionNext.StableVersion` states which versions exactly. Leading
  whitespace in the version joins the whitespace after `::`, so ` 3.13`
  behaves like `3.13` (`DirectiveCases.LeadingSpaceVersionIsStable`). What
  is left must not start with `next` and must not be a prefix of `next`.
  The empty string is such a prefix. With the version `ne`, the line
  `.. versionadded:: nextxt` becomes `.. versionadded:: next`, which a
  second run rewrites again (`DirectiveCases.PrefixOfSentinelIsNotStable`).
  For every stable version no rewritten line is a directive line
  (`UpdateVersionNext.RewriteLineLeavesNoDirective`); for every other
  version some directive line is rewritten into a directive line
  (`UpdateVersionNext.UnstableVersionReappears`).
- The second run reads the written files back, and a line break in the
  version splits a rewritten line into several. Being stable and free of
  `\n` and `\r` is then a sufficient condition for a second run to change
  nothing (`UpdateVersionNext.UpdateTreeIdempotent`), not a necessary one.
  A line break can make the next run rewrite again: with the version
  `3.13` + line break + `.. versionadded:: next`, which is stable, the
  second of the lines read back is a directive line again
  (`DirectiveCases.LineBreakVersionRewritesAgain`). It need not: with
  `3.13` + line break + `foo`, no line read back is a directive line, and
  with the unstable ` ` + line break + ` ne`, the line
  `.. versionadded:: nextxt` is read back as two lines neither of which
  matches. Real release versions such as `3.13` meet the sufficient
  condition.

## Model

| member | source | states |
|---|---|---|
| `DirectiveRe.IsSpace` | update_version_next.py:23-25 | the characters `\s` matches in a text pattern: those for which `str.isspace()` holds; what a run of them is, is stated by `SplitRun` |
| `DirectiveRe.MatchDirective` | update_version_next.py:20-33 | the `fullmatch` at :70 returning the `before` and `after` groups or nothing; its contract is stated by `MatchDirectiveSound`, `MatchDirectiveComplete` and `MatchDirectiveDecides` below |
| `DirectiveRe.Names` | update_version_next.py:24 | the five directive names the alternation accepts: `versionadded`, `versionchanged`, `versionremoved`, `deprecated`, `deprecated-removed`; `OtherNameNoMatch` states that no other word is accepted |
| `DirectiveRe.BeforeParts.Valid` | update_version_next.py:22-26 | the `before` group piece by piece: indent and trail and pad are runs of `\s`, the gap after `..` is a non-empty run of `\s`, and the name is one of `Names` |
| `DirectiveRe.BeforeParts.Text` | update_version_next.py:22-26 | the text of the `before` group: indent, `..`, gap, name, pad, `::`, trail, in that order |
| `DirectiveRe.IsDirectiveLine` | update_version_next.py:20-33 | the language of the anchored pattern: a valid `before`, then `next`, then anything (newline included); `MatchDirectiveDecides` ties the matcher to it |
| `DirectiveRe.SplitRun` | update_version_next.py:23-25 | splits a string into its longest prefix of whitespace (or of name characters) and the rest; the prefix is all of that class and the rest does not start with it, which is how each greedy `\s*` reads |
| `DirectiveRe.SplitRunUnique` | update_version_next.py:23-25 | any split into a run of a class and a remainder not starting with that class is the one `SplitRun` returns, so a maximal run is determined by the text |
| `DirectiveRe.MatchBefore` | update_version_next.py:22-26 | when it recognises the `before` group at the start of a line, the parts are valid (whitespace runs, a non-empty gap after `..`, one of the five names), the line is their text followed by the remainder, and the remainder does not start with whitespace |
| `DirectiveRe.MatchBeforeComplete` | update_version_next.py:22-26 | every valid `before` followed by text not starting with whitespace is recognised, with exactly those parts and that remainder |
| `DirectiveRe.MatchDirectiveSound` | update_version_next.py:20-33 | a full match is a valid `before`, then `next`, then the captured `after`, and together they are the whole line |
| `DirectiveRe.MatchDirectiveComplete` | update_version_next.py:20-33 | every line of the form valid `before` + `next` + anything is matched, and the captured groups are that `before` and that `after` (newline included, since `.` matches it under DOTALL) |
| `DirectiveRe.MatchDirectiveDecides` | update_version_next.py:20-33 | `fullmatch` succeeds exactly on the lines of the declarative grammar, in both directions |
| `DirectiveRe.NoSentinelNoMatch` | update_version_next.py:25-27 | after `::` and its whitespace, only the very next position is inspected for `next`: a line whose text there does not start with `next`, or that ends there, never matches |
| `DirectiveRe.OtherNameNoMatch` | update_version_next.py:24 | a directive whose name is a word not among `versionadded`, `versionchanged`, `versionremoved`, `deprecated`, `deprecated-removed` never matches |
| `UpdateVersionNext.RewriteLine` | update_version_next.py:70-73 | the line appended for one input line; its contract is stated by `RewriteLineSpec` below |
| `UpdateVersionNext.RewriteLineSpec` | update_version_next.py:70-73 | a line outside the grammar is appended unchanged; a directive line becomes exactly `before + version + after`, everything before and after `next` being kept |
| `UpdateVersionNext.ResultDeterminedBySplit` | update_version_next.py:22-30 | whichever split of a line the grammar allows, the match captures exactly that `before` and `after` |
| `UpdateVersionNext.RewriteLines` | update_version_next.py:66-73 | the output has as many lines as the input, in the same order, and the i-th output line is the rewrite of the i-th input line alone |
| `UpdateVersionNext.Accepts` | update_version_next.py:70 | the truth test of the walrus: `fullmatch` returned a match; `CountIsNumberOfDirectiveLines` ties it to the grammar through `MatchDirectiveDecides` |
| `UpdateVersionNext.CountDirectives` | update_version_next.py:65-72 | the final `num_changed_lines`, never more than the number of lines; what it counts is stated by `CountIsNumberOfDirectiveLines` below |
| `UpdateVersionNext.CountIsNumberOfDirectiveLines` | update_version_next.py:65-72 | the final `num_changed_lines` is the number of lines of the file that match the grammar |
| `UpdateVersionNext.CountPositiveIffDirective` | update_version_next.py:77 | `num_changed_lines` is non-zero exactly when some line of the file is a directive line |
| `UpdateVersionNext.NoDirectiveNoChange` | update_version_next.py:66-77 | when no line matched, the collected lines equal the file's lines, so skipping the write loses nothing |
| `UpdateVersionNext.RewriteFile` | update_version_next.py:65-76 | the line loop builds exactly the rewritten lines and counts exactly the matching lines |
| `UpdateVersionNext.IsRstPath` | update_version_next.py:64 | the glob `**/*.rst` keeps a path exactly when its name ends in `.rst`, case-sensitively as on POSIX systems |
| `UpdateVersionNext.RstPaths` | update_version_next.py:64 | the files the glob yields: the paths of the directory that `IsRstPath` keeps |
| `UpdateVersionNext.RewrittenPaths` | update_version_next.py:64-77 | the files written back are among the files the glob yields; which ones is stated by `WrittenIffSomeDirectiveLine` below |
| `UpdateVersionNext.WrittenIffSomeDirectiveLine` | update_version_next.py:64-85 | a file is written back exactly when the glob yields it and some line of it matches the grammar |
| `UpdateVersionNext.SentinelVersionWritesUnchanged` | update_version_next.py:70-77 | with the version `next` every line is rewritten to itself, yet a file is still written back exactly when some line of it matches: the write follows the count of matches, not a change |
| `UpdateVersionNext.UpdatedTree` | update_version_next.py:64-88 | after the run the directory has the same files; every `.rst` file holds its rewritten lines and every other file is unchanged |
| `UpdateVersionNext.UpdateTree` | update_version_next.py:64-88 | the loop over the glob, in whatever order the file system yields the files, produces `UpdatedTree`, writes exactly the `.rst` files with a directive line, and leaves every file it does not write unchanged |
| `UpdateVersionNext.StableVersion` | update_version_next.py:25-29 | the versions (which the help at :40 lets be anything) whose rewrite never leaves a directive line: after the leading whitespace, which joins the `\s*` after `::`, the version neither starts with `next` nor is a prefix of it; exact for the rewritten line in memory, by `RewriteLineLeavesNoDirective` and `UnstableVersionReappears` |
| `UpdateVersionNext.StableVersionEndsDirective` | update_version_next.py:25-27 | a valid `before` followed by a stable version is never the start of a directive line |
| `UpdateVersionNext.RewriteLineLeavesNoDirective` | update_version_next.py:70-71 | with a stable version, a rewritten line is never a directive line |
| `UpdateVersionNext.UnstableVersionReappears` | update_version_next.py:25-29 | with a version that is not stable, every valid `before` starts some directive line whose rewrite is a directive line again |
| `UpdateVersionNext.StableVersionExtends` | update_version_next.py:25-29 | a stable version stays stable whatever is appended to it |
| `UpdateVersionNext.RewriteLineKeepsReadLine` | update_version_next.py:68-73 | with a version without line breaks, a rewritten line keeps the shape of a line a read yields: non-empty, no break before its end, ending in `\n` unless it is the file's last line |
| `UpdateVersionNext.RewrittenFileReadsBack` | update_version_next.py:67-85 | with a version without line breaks, the lines written back are read back by the next run as exactly the same lines |
| `UpdateVersionNext.Reread` | update_version_next.py:64-68 | the directory as the next run reads it: every `.rst` file's written lines read back; `RereadUpdatedTree` states what it yields |
| `UpdateVersionNext.RereadUpdatedTree` | update_version_next.py:64-85 | the files of a run, read back by the next run, are what the first run left |
| `UpdateVersionNext.RewriteLinesIdempotent` | update_version_next.py:66-85 | with a stable version without line breaks, the next run reads a rewritten file back as the lines written, counts zero changes and leaves them unchanged |
| `UpdateVersionNext.UpdateTreeIdempotent` | update_version_next.py:64-88 | with a stable version without line breaks, a second run, reading the files back, writes no file and changes nothing |
| `TextLines.Translate` | update_version_next.py:67 | universal-newline translation of a text-mode read: the result holds no `\r` and is no longer than the input |
| `TextLines.TranslateKeeps` | update_version_next.py:67 | text without `\r` is left as it is by the translation |
| `TextLines.LineEnd` | update_version_next.py:68 | the length of the first line: no `\n` before its end, and a `\n` at its end unless it runs to the end of the text |
| `TextLines.SplitLines` | update_version_next.py:68 | the lines `for line in file` yields from translated text; `JoinSplitLines` and `SplitLinesAsRead` state what they are |
| `TextLines.ReadLines` | update_version_next.py:67-68 | the lines a text-mode read yields: translation, then splitting; `ReadLinesAsRead` and `ReadLinesJoin` state what they are |
| `TextLines.Join` | update_version_next.py:85 | `writelines`: the lines end to end; `JoinSplitLines` and `ReadLinesJoin` state its relation to reading |
| `TextLines.IsReadLine` | update_version_next.py:68 | one line a read yields: non-empty, no line break before its last character, ending in `\n` unless it is the file's last line |
| `TextLines.AsRead` | update_version_next.py:68 | a list of lines a read can yield; `ReadLinesAsRead` states that every read yields one |
| `TextLines.JoinSplitLines` | update_version_next.py:68 | splitting loses nothing: the lines written end to end are the translated text |
| `TextLines.SplitLinesAsRead` | update_version_next.py:68 | every split of translated text has the shape `AsRead` describes |
| `TextLines.ReadLinesAsRead` | update_version_next.py:67-68 | every read yields a list of the shape `AsRead` describes |
| `TextLines.ReadLinesJoin` | update_version_next.py:67-85 | lines of that shape, written and read back, are the same lines |
| `DirectiveCases.RewriteSplit` | update_version_next.py:70-71 | a line split as valid `before`, `next`, `after` is rewritten to `before`, version, `after` |
| `DirectiveCases.VersionChangedRewritten` | update_version_next.py:3 | `.. versionchanged:: next` with version `3.13` becomes `.. versionchanged:: 3.13`, newline kept |
| `DirectiveCases.DeprecatedRemovedKeepsRemovalVersion` | update_version_next.py:10-11 | `.. deprecated-removed:: next, 3.15` becomes `.. deprecated-removed:: 3.13, 3.15`: only the deprecation version is filled in |
| `DirectiveCases.RemovalVersionNextUntouched` | update_version_next.py:10-11 | `.. deprecated-removed:: 3.12, next` is never changed: a `next` in the removal-version position is not the sentinel |
| `DirectiveCases.NoteUntouched` | update_version_next.py:24 | `.. note:: next` is never changed |
| `DirectiveCases.IndentedTightSeparatorRewritten` | update_version_next.py:23-25 | indentation is kept and `::` needs no whitespace around it: `   .. versionadded::next` becomes `   .. versionadded::3.14` |
| `DirectiveCases.OpenerWithoutGapUntouched` | update_version_next.py:23 | `..versionadded:: next` is never changed: at least one whitespace character must follow `..` |
| `DirectiveCases.NoWordBoundaryAfterSentinel` | update_version_next.py:27-32 | `.. versionadded:: nexted` matches with `after` = `ed` plus the newline, and becomes `.. versionadded:: 3.13ed` |
| `DirectiveCases.PrefixOfSentinelIsNotStable` | update_version_next.py:27-29 | with version `ne`, `.. versionadded:: nextxt` becomes a directive line again, so the condition on stable versions cannot be dropped |
| `DirectiveCases.LeadingSpaceVersionIsStable` | update_version_next.py:25 | the version ` 3.13` is stable: its leading space joins the `\s*` after `::` |
| `DirectiveCases.LineBreakVersionRewritesAgain` | update_version_next.py:67-85 | a stable version holding a line break, such as `3.13` + line break + `.. versionadded:: next`, turns a one-line file into two lines whose second, read back, is a directive line again |
| `DirectiveCases.ThreeFiles` | update_version_next.py:64-88 | in a directory with an `.rst` file that has a directive line, an `.rst` file without one and a file outside the glob, only the first is written, with its rewritten lines |
| `DirectiveCases.SmallTreeWritesOneFile` | update_version_next.py:64-88 | the same for concrete pages: the page with `.. versionchanged:: next` gets `3.14`; the other `.rst` page, and a non-`.rst` file holding the same directive, are left alone |

## Left out

- The `argparse` front end and the `--verbose` messages on standard error (update_version_next.py:35-63, 78-83, 86-88). They carry no logic beyond plumbing.
- Opening files and the file system itself (`open`, update_version_next.py:67, 84). The directory is a map from path to the file's lines, each with its newline. `UpdateTree` returns the new map and the set of files written. `TextLines` relates a file's text to its lines, but no byte-level contents are kept.
- Decoding and encoding, and newline translation on writing. Reading's universal-newline translation is modelled (`TextLines.Translate`). On writing, Python translates each `\n` to `os.linesep`; the model writes `\n`, as on POSIX systems. So a rewritten file is byte-identical outside the changed lines only when its line endings were already `os.linesep`.
- Encoding errors on writing. A version that UTF-8 cannot encode raises in `writelines` at update_version_next.py:85. An example is a lone surrogate, which a non-UTF-8 byte in the command line becomes. By then `open(path, "w")` at :84 has already truncated the file. `writelines` writes line by line and each line is encoded as it is written, so the error comes at the first rewritten line; the lines before it are already buffered and are flushed when the `with` closes the file. The write is outside the `try`, so the run ends and leaves that file cut off before its first matching line (empty only when that is its first line). Dafny's `char` cannot hold a lone surrogate, so no such version exists in the model.
- Decoding errors. A file that is not valid UTF-8 makes the `for` statement at update_version_next.py:68 raise, outside the `try` at :69. The error escapes `main` and ends the whole run: that file is not written, and neither is any file the glob has not yet yielded. The model has no failing read.
- The `add_note` and re-raise path (update_version_next.py:74-76). Nothing inside that `try` can fail in the model, because the matcher is total and the concatenation cannot fail.
- How `Path.glob("**/*.rst")` treats hidden directories, symbolic links, directories whose names end in `.rst`, and letter case. On Windows the glob matches case-insensitively, so `NEWS.RST` is processed there; `IsRstPath` is the case-sensitive match of POSIX systems. The model takes the paths of the map whose name ends in `.rst`, and the order in which they are visited is an unspecified choice.
- The release checks (tag parsing, magic-number check, unreleased-documentation check, GitHub owner extraction). `run_release.py` and `release.py` are not part of this model, since their source is not available.
- UpdateVersionNext.RewriteLinesIdempotent: requires a stable version without `\n` or `\r`, and a file of lines a read can yield. These conditions are sufficient, not necessary. A version with a line break makes the next run re-split the written line, which can yield a directive line (`DirectiveCases.LineBreakVersionRewritesAgain`), and an unstable version can recreate `next` (`DirectiveCases.PrefixOfSentinelIsNotStable`); for some of those versions the program's second run is not a no-op.
- UpdateVersionNext.UpdateTreeIdempotent: requires the same, for the same reasons.
