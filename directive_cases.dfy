/**
 * Concrete lines and directories that pin down the edges of the grammar
 * and of the rewrite: the module docstring's sample line, a
 * `deprecated-removed` line with a removal version,
 * a directive name that is not accepted, the whitespace rules around `..`
 * and `::`, the missing word boundary after `next`, a version string for
 * which a second run is not a no-op, and a small directory.
 *
 * Each line is split into grammar pieces in `DirectiveSamples`, and the
 * rewrite is then read off the general lemmas.
 */
module DirectiveCases {
  import opened DirectiveRe
  import opened UpdateVersionNext
  import opened DirectiveSamples
  import opened TextLines

  /** Rewriting a line the grammar splits as `p`, `next`, `after`. */
  lemma RewriteSplit(p: BeforeParts, after: string, version: string)
    requires p.Valid()
    ensures RewriteLine(p.Text() + Sentinel + after, version) == p.Text() + version + after
  {
    MatchDirectiveComplete(p, after);
  }

  /** The docstring's sample: `.. versionchanged:: next` becomes `.. versionchanged:: 3.13`. */
  lemma VersionChangedRewritten()
    ensures RewriteLine(".. versionchanged:: next\n", "3.13") == ".. versionchanged:: 3.13\n"
  {
    VersionChangedValid();
    VersionChangedText();
    VersionChangedLine();
    VersionChangedOut();
    RewriteSplit(VersionChanged, "\n", "3.13");
  }

  /** A `deprecated-removed` line: only the deprecation version is filled in; the removal version stays. */
  lemma DeprecatedRemovedKeepsRemovalVersion()
    ensures RewriteLine(".. deprecated-removed:: next, 3.15\n", "3.13") == ".. deprecated-removed:: 3.13, 3.15\n"
  {
    DeprecatedRemovedValid();
    DeprecatedRemovedText();
    DeprecatedRemovedLine();
    DeprecatedRemovedOut();
    RewriteSplit(DeprecatedRemoved, ", 3.15\n", "3.13");
  }

  /** A `next` in the removal-version position is never substituted. */
  lemma RemovalVersionNextUntouched(version: string)
    ensures RewriteLine(".. deprecated-removed:: 3.12, next\n", version) == ".. deprecated-removed:: 3.12, next\n"
  {
    DeprecatedRemovedValid();
    DeprecatedRemovedText();
    NoSentinelNoMatch(DeprecatedRemoved, "3.12, next\n");
    RemovalNextLine();
  }

  /** Other directives are never rewritten. */
  lemma NoteUntouched(version: string)
    ensures RewriteLine(".. note:: next\n", version) == ".. note:: next\n"
  {
    OtherNameNoMatch("", " ", "note", ":: next\n");
    NoteLine();
  }

  /** Indentation is kept, and no whitespace is needed around `::`. */
  lemma IndentedTightSeparatorRewritten()
    ensures RewriteLine("   .. versionadded::next\n", "3.14") == "   .. versionadded::3.14\n"
  {
    IndentedTightValid();
    IndentedTightText();
    IndentedTightLine();
    IndentedTightOut();
    RewriteSplit(IndentedTight, "\n", "3.14");
  }

  /** At least one whitespace character must follow the `..` opener. */
  lemma OpenerWithoutGapUntouched(version: string)
    ensures RewriteLine("..versionadded:: next\n", version) == "..versionadded:: next\n"
  {
    var s := "..versionadded:: next\n";
    SplitRunUnique([], s, Space);
    assert [] + s == s;
    assert s[|Opener|..] == [] + s[|Opener|..];
    SplitRunUnique([], s[|Opener|..], Space);
  }

  /** There is no word boundary after `next`: `nexted` is rewritten too, keeping `ed`. */
  lemma NoWordBoundaryAfterSentinel()
    ensures MatchDirective(".. versionadded:: nexted\n") == Some(DirectiveMatch(VersionAdded, "ed\n"))
    ensures RewriteLine(".. versionadded:: nexted\n", "3.13") == ".. versionadded:: 3.13ed\n"
  {
    VersionAddedValid();
    VersionAddedText();
    NextedLine();
    NextedOut();
    MatchDirectiveComplete(VersionAdded, "ed\n");
    RewriteSplit(VersionAdded, "ed\n", "3.13");
  }

  /**
   * A version that is a proper prefix of `next` can recreate the sentinel
   * from the text after it: "ne" starts with neither whitespace nor `next`,
   * yet the rewritten line is again a directive line, so a second run
   * would rewrite it once more.
   */
  lemma PrefixOfSentinelIsNotStable()
    ensures IsDirectiveLine(RewriteLine(".. versionadded:: nextxt\n", "ne"))
    ensures !StableVersion("ne")
  {
    VersionAddedValid();
    VersionAddedText();
    NextxtLine();
    NextxtOut();
    RewriteSplit(VersionAdded, "xt\n", "ne");
    assert DirectiveMatch(VersionAdded, "\n").Before() == VersionAdded.Text();
  }

  /**
   * A stable version with a line break in it: a file of one directive line
   * is written back as two lines, and the second, read by the next run, is
   * a directive line again.  So a line break in a stable version can make a
   * second run rewrite again: being stable and free of line breaks is a
   * sufficient condition for a no-op second run, not a necessary one.
   */
  lemma LineBreakVersionRewritesAgain(p: BeforeParts, x: string)
    requires p.Valid() && NoLineBreak(p.Text()) && StableVersion(x) && NoLineBreak(x)
    ensures var version := x + "\n" + p.Text() + Sentinel;
      && StableVersion(version)
      && var again := ReadLines(Join(RewriteLines([p.Text() + Sentinel + "\n"], version)));
         |again| == 2 && IsDirectiveLine(again[1])
  {
    var tail := "\n" + p.Text() + Sentinel;
    assert x + tail == x + "\n" + p.Text() + Sentinel;
    StableVersionExtends(x, tail);
    var l2 := p.Text() + Sentinel + "\n";
    LineBreakVersionReadBack(p, x);
    assert IsDirectiveLine(l2) by {
      assert l2 == DirectiveMatch(p, "\n").Before() + Sentinel + "\n";
    }
  }

  /** The file of `LineBreakVersionRewritesAgain`, written and read back, is two lines. */
  lemma LineBreakVersionReadBack(p: BeforeParts, x: string)
    requires p.Valid() && NoLineBreak(p.Text()) && NoLineBreak(x)
    ensures ReadLines(Join(RewriteLines([p.Text() + Sentinel + "\n"], x + "\n" + p.Text() + Sentinel)))
      == [p.Text() + x + "\n", p.Text() + Sentinel + "\n"]
  {
    RewriteSplit(p, "\n", x + "\n" + p.Text() + Sentinel);
    SplicedLineReadsBackAsTwo(p.Text() + Sentinel + "\n", p.Text(), x);
  }

  /** A line rewritten to `t`, `x`, a line break, `t` and `next` is read back as two lines. */
  lemma SplicedLineReadsBackAsTwo(line: string, t: string, x: string)
    requires NoLineBreak(t) && NoLineBreak(x)
    requires RewriteLine(line, x + "\n" + t + Sentinel) == t + (x + "\n" + t + Sentinel) + "\n"
    ensures ReadLines(Join(RewriteLines([line], x + "\n" + t + Sentinel))) == [t + x + "\n", t + Sentinel + "\n"]
  {
    var version := x + "\n" + t + Sentinel;
    JoinRewriteOne(line, version);
    Regroup(t, x, Sentinel);
    WrittenLine(t, x);
    WrittenLine(t, Sentinel);
    ReadTwoLines(t + x + "\n", t + Sentinel + "\n");
  }

  lemma JoinRewriteOne(line: string, version: string)
    ensures Join(RewriteLines([line], version)) == RewriteLine(line, version)
  {
    var out := RewriteLines([line], version);
    assert |out[1..]| == 0;
  }

  lemma Regroup(t: string, x: string, s: string)
    ensures t + (x + "\n" + t + s) + "\n" == (t + x + "\n") + (t + s + "\n")
  {
  }

  lemma WrittenLine(t: string, x: string)
    requires NoLineBreak(t) && NoLineBreak(x)
    ensures IsReadLine(t + x + "\n", false)
  {
    var line := t + x + "\n";
    assert line[..|line| - 1] == t + x;
  }

  lemma ReadTwoLines(l1: string, l2: string)
    requires IsReadLine(l1, false) && IsReadLine(l2, false)
    ensures ReadLines(l1 + l2) == [l1, l2]
  {
    var two: seq<string>, one: seq<string> := [l1, l2], [l2];
    assert two[1..] == one;
    assert |one[1..]| == 0;
    assert Join(one) == l2 + [];
    assert Join(two) == l1 + l2;
    ReadLinesJoin(two);
  }

  /** Whitespace at the front of a version joins the whitespace after `::`: ` 3.13` is stable. */
  lemma LeadingSpaceVersionIsStable()
    ensures StableVersion(" 3.13")
  {
    SplitRunUnique(" ", "3.13", Space);
    assert " " + "3.13" == " 3.13";
  }

  lemma NotDirective(line: string)
    requires line != [] && !IsSpace(line[0]) && line[0] != '.'
    ensures MatchDirective(line).None?
  {
    SplitRunUnique([], line, Space);
    assert [] + line == line;
  }

  /** A page with a title line and one directive line. */
  const NewsPage: seq<string> := ["Title\n", VersionChanged.Text() + Sentinel + "\n"]
  /** A page without directives. */
  const PlainPage: seq<string> := ["No directive here.\n"]

  lemma NewsPageFacts()
    ensures CountDirectives(NewsPage) == 1
    ensures RewriteLines(NewsPage, "3.14") == ["Title\n", VersionChanged.Text() + "3.14" + "\n"]
  {
    VersionChangedValid();
    MatchDirectiveComplete(VersionChanged, "\n");
    RewriteSplit(VersionChanged, "\n", "3.14");
    NotDirective("Title\n");
    assert NewsPage[..1] == ["Title\n"];
  }

  lemma PlainPageFacts()
    ensures CountDirectives(PlainPage) == 0
  {
    NotDirective("No directive here.\n");
  }

  /** The write set of the three-file directory of `ThreeFiles`. */
  lemma ThreeFilesWritten(news: Path, plain: Path, notes: Path, newsLines: seq<string>, plainLines: seq<string>, notesLines: seq<string>)
    requires IsRstPath(news) && IsRstPath(plain) && !IsRstPath(notes) && news != plain
    requires CountDirectives(newsLines) > 0 && CountDirectives(plainLines) == 0
    ensures RewrittenPaths(map[news := newsLines, plain := plainLines, notes := notesLines]) == {news}
  {
    var tree := map[news := newsLines, plain := plainLines, notes := notesLines];
    assert notes != news && notes != plain;
    assert tree[news] == newsLines && tree[plain] == plainLines;
    assert news in RewrittenPaths(tree);
    forall path | path in RewrittenPaths(tree) ensures path == news {
      assert path in tree && IsRstPath(path);
    }
  }

  /**
   * A directory of three files: an `.rst` file with a directive line, an
   * `.rst` file without one, and a file outside the glob.  Only the first
   * is written back; the other two are left as they were.
   */
  lemma ThreeFiles(news: Path, plain: Path, notes: Path, newsLines: seq<string>, plainLines: seq<string>, notesLines: seq<string>, version: string)
    requires IsRstPath(news) && IsRstPath(plain) && !IsRstPath(notes) && news != plain
    requires CountDirectives(newsLines) > 0 && CountDirectives(plainLines) == 0
    ensures var tree := map[news := newsLines, plain := plainLines, notes := notesLines];
      && RewrittenPaths(tree) == {news}
      && UpdatedTree(tree, version) == tree[news := RewriteLines(newsLines, version)]
  {
    ThreeFilesWritten(news, plain, notes, newsLines, plainLines, notesLines);
    var tree := map[news := newsLines, plain := plainLines, notes := notesLines];
    assert tree[news] == newsLines;
    OneFileWritten(tree, news, version);
  }

  /** When a run writes a single file, the directory changes in that file alone. */
  lemma OneFileWritten(tree: Tree, path: Path, version: string)
    requires RewrittenPaths(tree) == {path}
    ensures UpdatedTree(tree, version) == tree[path := RewriteLines(tree[path], version)]
  {
    var r, expected := UpdatedTree(tree, version), tree[path := RewriteLines(tree[path], version)];
    forall p | p in tree ensures r[p] == expected[p] {
      if p != path && IsRstPath(p) {
        assert p !in RewrittenPaths(tree);
        NoDirectiveNoChange(tree[p], version);
      }
    }
  }

  /** The small directory: only `news` is rewritten, and to the expected lines. */
  lemma SmallTreeWritesOneFile(news: Path, plain: Path, notes: Path)
    requires IsRstPath(news) && IsRstPath(plain) && !IsRstPath(notes) && news != plain
    ensures var tree := map[news := NewsPage, plain := PlainPage, notes := NewsPage];
      && RewrittenPaths(tree) == {news}
      && UpdatedTree(tree, "3.14") == tree[news := ["Title\n", VersionChanged.Text() + "3.14" + "\n"]]
  {
    NewsPageFacts();
    PlainPageFacts();
    ThreeFiles(news, plain, notes, NewsPage, PlainPage, NewsPage, "3.14");
  }
}
