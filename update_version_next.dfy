/**
 * The rewrite loop of update_version_next.py: every `.rst` file under a
 * directory is read line by line; a line that fully matches the directive
 * grammar has its `next` replaced by the release version; a file is written
 * back exactly when at least one of its lines matches, even if the
 * replacement leaves its text as it was.
 *
 * The file system is a value here: a map from path to the file's lines
 * (each line keeps its newline, as Python's line iteration does).
 */
module UpdateVersionNext {
  import opened DirectiveRe
  import opened TextLines

  type Path = string
  type Tree = map<Path, seq<string>>

  /** The substitution `match["before"] + version + match["after"]`, or the line itself. */
  function RewriteLine(line: string, version: string): string {
    match MatchDirective(line)
    case None => line
    case Some(m) => m.Before() + version + m.after
  }

  /**
   * A line outside the grammar passes through unchanged; a directive line
   * keeps everything before `next` and everything after it, newline
   * included, and has `next` replaced by the version.
   */
  lemma RewriteLineSpec(line: string, version: string)
    ensures !IsDirectiveLine(line) ==> RewriteLine(line, version) == line
    ensures forall p: BeforeParts, after: string {:trigger DirectiveMatch(p, after)} ::
      p.Valid() && line == DirectiveMatch(p, after).Before() + Sentinel + after ==>
        RewriteLine(line, version) == DirectiveMatch(p, after).Before() + version + after
  {
    MatchDirectiveDecides(line);
    ResultDeterminedBySplit(line);
  }

  /** Whatever split of `line` the grammar allows, the matcher returns that one. */
  lemma ResultDeterminedBySplit(line: string)
    ensures forall p: BeforeParts, after: string {:trigger DirectiveMatch(p, after)} ::
      p.Valid() && line == DirectiveMatch(p, after).Before() + Sentinel + after ==>
        MatchDirective(line) == Some(DirectiveMatch(p, after))
  {
    forall p: BeforeParts, after: string |
      p.Valid() && line == DirectiveMatch(p, after).Before() + Sentinel + after
      ensures MatchDirective(line) == Some(DirectiveMatch(p, after))
    {
      MatchDirectiveComplete(p, after);
    }
  }

  /** The lines of a file after the rewrite, in the order read. */
  function RewriteLines(lines: seq<string>, version: string): (r: seq<string>)
    ensures |r| == |lines|
    ensures forall i :: 0 <= i < |lines| ==> r[i] == RewriteLine(lines[i], version)
  {
    if lines == [] then []
    else
      var init := lines[..|lines| - 1];
      var front := RewriteLines(init, version);
      assert forall i :: 0 <= i < |init| ==> init[i] == lines[i];
      front + [RewriteLine(lines[|lines| - 1], version)]
  }

  /** Whether the matcher accepts `line`: `DIRECTIVE_RE.fullmatch(line)` is not None. */
  predicate Accepts(line: string) {
    MatchDirective(line).Some?
  }

  /** The final value of `num_changed_lines` for a file with these lines. */
  function CountDirectives(lines: seq<string>): (n: nat)
    ensures n <= |lines|
  {
    if lines == [] then 0
    else CountDirectives(lines[..|lines| - 1]) + (if Accepts(lines[|lines| - 1]) then 1 else 0)
  }

  /** The indices of the lines that match the grammar. */
  ghost function DirectiveIndices(lines: seq<string>): set<int> {
    set i | 0 <= i < |lines| && IsDirectiveLine(lines[i])
  }

  /**
   * `CountDirectives` for an arbitrary line predicate: the counting argument
   * below is made once for any `f`, without the matcher in view.
   */
  function CountWhere(lines: seq<string>, f: string -> bool): (n: nat)
    ensures n <= |lines|
  {
    if lines == [] then 0
    else CountWhere(lines[..|lines| - 1], f) + (if f(lines[|lines| - 1]) then 1 else 0)
  }

  ghost function IndicesWhere(lines: seq<string>, f: string -> bool): set<int> {
    set i | 0 <= i < |lines| && f(lines[i])
  }

  lemma {:induction false} CountWhereIsCardinality(lines: seq<string>, f: string -> bool)
    ensures CountWhere(lines, f) == |IndicesWhere(lines, f)|
  {
    if lines != [] {
      var n := |lines| - 1;
      var init := lines[..n];
      CountWhereIsCardinality(init, f);
      var before, after := IndicesWhere(init, f), IndicesWhere(lines, f);
      forall i | i != n ensures i in after <==> i in before {
        if 0 <= i < n {
          assert init[i] == lines[i];
        }
      }
      if f(lines[n]) {
        assert after == before + {n};
      } else {
        assert after == before;
      }
      assert n !in before;
    }
  }

  lemma {:induction false} CountDirectivesIsCountWhere(lines: seq<string>)
    ensures CountDirectives(lines) == CountWhere(lines, Accepts)
  {
    if lines != [] {
      CountDirectivesIsCountWhere(lines[..|lines| - 1]);
    }
  }

  /** `num_changed_lines` is the number of lines of the file that match the grammar. */
  lemma CountIsNumberOfDirectiveLines(lines: seq<string>)
    ensures CountDirectives(lines) == |DirectiveIndices(lines)|
  {
    CountDirectivesIsCountWhere(lines);
    CountWhereIsCardinality(lines, Accepts);
    forall i | 0 <= i < |lines| ensures Accepts(lines[i]) <==> IsDirectiveLine(lines[i]) {
      MatchDirectiveDecides(lines[i]);
    }
    assert IndicesWhere(lines, Accepts) == DirectiveIndices(lines);
  }

  /** A file is written back exactly when some line of it matches the grammar. */
  lemma CountPositiveIffDirective(lines: seq<string>)
    ensures CountDirectives(lines) > 0 <==> exists i :: 0 <= i < |lines| && IsDirectiveLine(lines[i])
  {
    CountIsNumberOfDirectiveLines(lines);
    if CountDirectives(lines) > 0 {
      var i :| i in DirectiveIndices(lines);
    } else {
      forall i | 0 <= i < |lines| ensures !IsDirectiveLine(lines[i]) {
        assert i !in DirectiveIndices(lines);
      }
    }
  }

  /**
   * The inner loop of `main` over one file: the lines to write back and
   * `num_changed_lines`.
   */
  method RewriteFile(lines: seq<string>, version: string) returns (newLines: seq<string>, numChangedLines: nat)
    ensures newLines == RewriteLines(lines, version)
    ensures numChangedLines == CountDirectives(lines)
  {
    newLines := [];
    numChangedLines := 0;
    for i := 0 to |lines|
      invariant newLines == RewriteLines(lines[..i], version)
      invariant numChangedLines == CountDirectives(lines[..i])
    {
      var line := lines[i];
      match MatchDirective(line) {
        case Some(m) =>
          line := m.Before() + version + m.after;
          numChangedLines := numChangedLines + 1;
        case None =>
      }
      assert lines[..i + 1][..i] == lines[..i];
      newLines := newLines + [line];
    }
    assert lines[..|lines|] == lines;
  }

  const RstSuffix: string := ".rst"

  /** The recursive glob for `*.rst` below the directory: the file's name ends in `.rst`. */
  predicate IsRstPath(path: Path) {
    |path| >= |RstSuffix| && path[|path| - |RstSuffix|..] == RstSuffix
  }

  /** The files the glob yields. */
  function RstPaths(tree: Tree): set<Path> {
    set path | path in tree && IsRstPath(path)
  }

  /** The files `main` writes back: `.rst` files with at least one directive line. */
  function RewrittenPaths(tree: Tree): (r: set<Path>)
    ensures r <= RstPaths(tree)
  {
    set path | path in RstPaths(tree) && CountDirectives(tree[path]) > 0
  }

  /**
   * A file is written back exactly when it is one the glob yields and some
   * line of it matches the grammar.
   */
  lemma WrittenIffSomeDirectiveLine(tree: Tree, path: Path)
    ensures path in RewrittenPaths(tree) <==>
      && path in tree && IsRstPath(path)
      && exists i :: 0 <= i < |tree[path]| && IsDirectiveLine(tree[path][i])
  {
    if path in tree {
      CountPositiveIffDirective(tree[path]);
    }
  }

  /** The directory after the files in `paths` have been rewritten and written back. */
  function WithRewritten(tree: Tree, paths: set<Path>, version: string): Tree {
    map path | path in tree :: if path in paths then RewriteLines(tree[path], version) else tree[path]
  }

  /**
   * Visiting one more `.rst` file: it joins the written files exactly when
   * it has a directive line, and the directory gains its rewritten lines.
   */
  lemma VisitOne(tree: Tree, todo: set<Path>, written: set<Path>, path: Path, version: string)
    requires todo <= RstPaths(tree) && path in todo
    requires written == RewrittenPaths(tree) - todo
    ensures path !in written && path in tree
    ensures CountDirectives(tree[path]) > 0 ==>
      && written + {path} == RewrittenPaths(tree) - (todo - {path})
      && WithRewritten(tree, written + {path}, version)
           == WithRewritten(tree, written, version)[path := RewriteLines(tree[path], version)]
    ensures CountDirectives(tree[path]) == 0 ==> written == RewrittenPaths(tree) - (todo - {path})
  {
  }

  /** The directory after `main` has run. */
  function UpdatedTree(tree: Tree, version: string): (r: Tree)
    ensures r.Keys == tree.Keys
    ensures forall path :: path in tree && IsRstPath(path) ==> r[path] == RewriteLines(tree[path], version)
    ensures forall path :: path in tree && !IsRstPath(path) ==> r[path] == tree[path]
  {
    NoDirectiveNoChangeAll(tree, version);
    WithRewritten(tree, RewrittenPaths(tree), version)
  }

  /** Skipping the write of a file without directive lines loses nothing. */
  lemma NoDirectiveNoChange(lines: seq<string>, version: string)
    requires CountDirectives(lines) == 0
    ensures RewriteLines(lines, version) == lines
  {
    CountPositiveIffDirective(lines);
  }

  /**
   * The write is decided by the count of matching lines, not by a change:
   * with the version `next` every line comes back as it was, yet a file
   * with a directive line is still written back.
   */
  lemma SentinelVersionWritesUnchanged(tree: Tree, path: Path)
    requires path in tree && IsRstPath(path)
    ensures RewriteLines(tree[path], Sentinel) == tree[path]
    ensures path in RewrittenPaths(tree) <==> exists i :: 0 <= i < |tree[path]| && IsDirectiveLine(tree[path][i])
  {
    var lines := tree[path];
    forall i | 0 <= i < |lines| ensures RewriteLine(lines[i], Sentinel) == lines[i] {
      MatchDirectiveSound(lines[i]);
    }
    WrittenIffSomeDirectiveLine(tree, path);
  }

  lemma NoDirectiveNoChangeAll(tree: Tree, version: string)
    ensures forall path :: path in tree && CountDirectives(tree[path]) == 0 ==> RewriteLines(tree[path], version) == tree[path]
  {
    forall path | path in tree && CountDirectives(tree[path]) == 0
      ensures RewriteLines(tree[path], version) == tree[path]
    {
      NoDirectiveNoChange(tree[path], version);
    }
  }

  /**
   * The outer loop of `main`: visits every `.rst` file once, in an order
   * the file system chooses, and writes back the files whose count is
   * positive.  Returns the new directory and the set of files written.
   */
  method UpdateTree(version: string, tree: Tree) returns (newTree: Tree, written: set<Path>)
    ensures newTree == UpdatedTree(tree, version)
    ensures written == RewrittenPaths(tree)
    ensures forall path :: path in tree && path !in written ==> newTree[path] == tree[path]
  {
    newTree := tree;
    written := {};
    var todo := RstPaths(tree);
    while todo != {}
      invariant todo <= RstPaths(tree)
      invariant written == RewrittenPaths(tree) - todo
      invariant newTree == WithRewritten(tree, written, version)
      decreases todo
    {
      var path :| path in todo;
      VisitOne(tree, todo, written, path, version);
      var lines, numChangedLines := RewriteFile(newTree[path], version);
      if numChangedLines > 0 {
        newTree := newTree[path := lines];
        written := written + {path};
      }
      todo := todo - {path};
    }
  }

  /**
   * The version strings whose rewrite, as a line in memory, never leaves a
   * directive line.  The whitespace at the front of the version joins the
   * `trail` run after `::`; what remains must be neither a prefix of `next`
   * (the empty string is one) nor start with `next`.
   */
  predicate StableVersion(version: string) {
    var rest := SplitRun(version, Space).1;
    !(rest <= Sentinel) && !(Sentinel <= rest)
  }

  /** After a rewrite with a stable version, no line is a directive line any more. */
  lemma RewriteLineLeavesNoDirective(line: string, version: string)
    requires StableVersion(version)
    ensures !IsDirectiveLine(RewriteLine(line, version))
  {
    match MatchDirective(line)
    case None =>
      MatchDirectiveDecides(line);
    case Some(m) =>
      MatchDirectiveSound(line);
      StableVersionEndsDirective(m.parts, m.after, version);
  }

  /** Text that starts with neither `next` nor a prefix of it cannot start with `next` whatever follows. */
  lemma SentinelStaysOut(rest: string, after: string)
    requires !(rest <= Sentinel) && !(Sentinel <= rest)
    ensures !(Sentinel <= rest + after) && !(rest + after <= Sentinel)
  {
    if |rest| >= |Sentinel| {
      assert (rest + after)[..|Sentinel|] == rest[..|Sentinel|];
    }
  }

  /** The trail run of a valid `before` absorbs the whitespace at the front of what follows. */
  lemma AbsorbSpace(p: BeforeParts, version: string, after: string)
    requires p.Valid()
    ensures var (space, rest) := SplitRun(version, Space);
      && p.(trail := p.trail + space).Valid()
      && p.Text() + version + after == p.(trail := p.trail + space).Text() + (rest + after)
      && (rest == [] || !IsSpace(rest[0]))
  {
    var (space, rest) := SplitRun(version, Space);
    var q := p.(trail := p.trail + space);
    assert AllIn(q.trail, Space) by {
      forall k | 0 <= k < |q.trail| ensures InClass(q.trail[k], Space) {
        if k >= |p.trail| {
          assert q.trail[k] == space[k - |p.trail|];
        }
      }
    }
    var head := p.indent + Opener + p.gap + p.name + p.pad + Separator;
    calc {
      p.Text() + version + after;
      head + p.trail + (space + rest) + after;
      { Assoc(head + p.trail, space + rest, after); Assoc(head + p.trail, space, rest + after); }
      head + p.trail + space + (rest + after);
      { Assoc(head, p.trail, space); }
      q.Text() + (rest + after);
    }
  }

  /** A valid `before` followed by a stable version is not the start of a directive line. */
  lemma StableVersionEndsDirective(p: BeforeParts, after: string, version: string)
    requires p.Valid() && StableVersion(version)
    ensures !IsDirectiveLine(p.Text() + version + after)
  {
    var (space, rest) := SplitRun(version, Space);
    var q := p.(trail := p.trail + space);
    AbsorbSpace(p, version, after);
    SentinelStaysOut(rest, after);
    NoSentinelNoMatch(q, rest + after);
    MatchDirectiveDecides(q.Text() + (rest + after));
  }

  /**
   * The converse: for a version that is not stable, every valid `before`
   * starts a directive line whose rewrite is a directive line again.
   */
  lemma UnstableVersionReappears(p: BeforeParts, version: string)
    requires p.Valid() && !StableVersion(version)
    ensures exists after ::
      && IsDirectiveLine(p.Text() + Sentinel + after)
      && IsDirectiveLine(RewriteLine(p.Text() + Sentinel + after, version))
  {
    var (space, rest) := SplitRun(version, Space);
    var q := p.(trail := p.trail + space);
    var after, tail := CompleteSentinel(rest);
    var line := p.Text() + Sentinel + after;
    assert IsDirectiveLine(line) by {
      assert line == DirectiveMatch(p, after).Before() + Sentinel + after;
    }
    MatchDirectiveComplete(p, after);
    var out := RewriteLine(line, version);
    assert out == p.Text() + version + after;
    AbsorbSpace(p, version, after);
    assert out == q.Text() + (Sentinel + tail);
    Assoc(q.Text(), Sentinel, tail);
    assert IsDirectiveLine(out) by {
      assert out == DirectiveMatch(q, tail).Before() + Sentinel + tail;
    }
  }

  /** Text that is a prefix of `next`, or starts with it, can be completed to start with `next`. */
  lemma CompleteSentinel(rest: string) returns (after: string, tail: string)
    requires rest <= Sentinel || Sentinel <= rest
    ensures rest + after == Sentinel + tail
  {
    if rest <= Sentinel {
      after, tail := Sentinel[|rest|..], [];
      assert Sentinel == rest + after;
    } else {
      after, tail := [], rest[|Sentinel|..];
      assert rest == Sentinel + tail;
    }
  }

  /** A stable version stays stable whatever is appended to it. */
  lemma StableVersionExtends(version: string, suffix: string)
    requires StableVersion(version)
    ensures StableVersion(version + suffix)
  {
    var (space, rest) := SplitRun(version, Space);
    SentinelStaysOut(rest, suffix);
    SplitRunUnique(space, rest + suffix, Space);
    Assoc(space, rest, suffix);
  }

  /**
   * The rewrite keeps the shape of a line a read yields, when the version
   * holds no line break: everything before and after `next` is kept, and
   * the version adds no break of its own.
   */
  lemma RewriteLineKeepsReadLine(line: string, version: string, isLast: bool)
    requires IsReadLine(line, isLast) && NoLineBreak(version)
    ensures IsReadLine(RewriteLine(line, version), isLast)
  {
    match MatchDirective(line)
    case None =>
    case Some(m) =>
      MatchDirectiveSound(line);
      var b, a := m.Before(), m.after;
      assert |b| >= |Opener|;
      if a == [] {
        assert line == b + Sentinel by {
          assert b + Sentinel + a == b + Sentinel;
        }
        SpliceAtEndKeepsReadLine(b, version, isLast);
        assert b + version + a == b + version;
      } else {
        SpliceKeepsReadLine(b, a, version, isLast);
      }
  }

  /** Replacing `next` in the middle of a line a read yields keeps its shape. */
  lemma SpliceKeepsReadLine(b: string, a: string, version: string, isLast: bool)
    requires IsReadLine(b + Sentinel + a, isLast) && NoLineBreak(version) && a != []
    ensures IsReadLine(b + version + a, isLast)
  {
    var line, out := b + Sentinel + a, b + version + a;
    var body, outBody := line[..|line| - 1], out[..|out| - 1];
    forall k | 0 <= k < |outBody| ensures !IsBreak(outBody[k]) {
      if k < |b| {
        assert outBody[k] == body[k];
      } else if k < |b| + |version| {
        assert outBody[k] == version[k - |b|];
      } else {
        assert outBody[k] == body[k - |version| + |Sentinel|];
      }
    }
    assert out[|out| - 1] == line[|line| - 1];
  }

  /** Replacing a `next` that ends the last line of a file keeps its shape. */
  lemma SpliceAtEndKeepsReadLine(b: string, version: string, isLast: bool)
    requires IsReadLine(b + Sentinel, isLast) && NoLineBreak(version) && b != []
    ensures IsReadLine(b + version, isLast)
  {
    var line, out := b + Sentinel, b + version;
    var body := line[..|line| - 1];
    assert line[|line| - 1] == 't';
    forall k | 0 <= k < |out| ensures !IsBreak(out[k]) {
      if k < |b| {
        assert out[k] == body[k];
      } else {
        assert out[k] == version[k - |b|];
      }
    }
    assert NoLineBreak(out[..|out| - 1]) by {
      var outBody := out[..|out| - 1];
      forall k | 0 <= k < |outBody| ensures !IsBreak(outBody[k]) {
        assert outBody[k] == out[k];
      }
    }
  }

  /**
   * A rewritten file, written back and read again, is read as the lines
   * written, when the version holds no line break.
   */
  lemma RewrittenFileReadsBack(lines: seq<string>, version: string)
    requires AsRead(lines) && NoLineBreak(version)
    ensures AsRead(RewriteLines(lines, version))
    ensures ReadLines(Join(RewriteLines(lines, version))) == RewriteLines(lines, version)
  {
    var once := RewriteLines(lines, version);
    forall i | 0 <= i < |once| ensures IsReadLine(once[i], i == |once| - 1) {
      RewriteLineKeepsReadLine(lines[i], version, i == |lines| - 1);
    }
    ReadLinesJoin(once);
  }

  /** A second run over a rewritten file, read back from disk, changes no line. */
  lemma {:induction false} RewriteLinesIdempotent(lines: seq<string>, version: string)
    requires StableVersion(version) && NoLineBreak(version) && AsRead(lines)
    ensures var again := ReadLines(Join(RewriteLines(lines, version)));
      && again == RewriteLines(lines, version)
      && CountDirectives(again) == 0
      && RewriteLines(again, version) == again
  {
    var once := RewriteLines(lines, version);
    RewrittenFileReadsBack(lines, version);
    forall i | 0 <= i < |once| ensures !IsDirectiveLine(once[i]) {
      RewriteLineLeavesNoDirective(lines[i], version);
    }
    CountPositiveIffDirective(once);
    NoDirectiveNoChange(once, version);
  }

  /** The directory as the next run reads it: every `.rst` file written and read back. */
  function Reread(tree: Tree): Tree {
    map path | path in tree :: if IsRstPath(path) then ReadLines(Join(tree[path])) else tree[path]
  }

  /** A second run over the directory, reading the files back, writes no file and changes nothing. */
  lemma {:induction false} UpdateTreeIdempotent(tree: Tree, version: string)
    requires StableVersion(version) && NoLineBreak(version)
    requires forall path :: path in tree && IsRstPath(path) ==> AsRead(tree[path])
    ensures var again := Reread(UpdatedTree(tree, version));
      && again == UpdatedTree(tree, version)
      && RewrittenPaths(again) == {}
      && UpdatedTree(again, version) == again
  {
    var once := UpdatedTree(tree, version);
    RereadUpdatedTree(tree, version);
    forall path | path in once && IsRstPath(path) ensures CountDirectives(once[path]) == 0 {
      RewriteLinesIdempotent(tree[path], version);
    }
    assert RewrittenPaths(once) == {};
    var twice := UpdatedTree(once, version);
    forall path | path in once ensures twice[path] == once[path] {
      if IsRstPath(path) {
        NoDirectiveNoChange(once[path], version);
      }
    }
  }

  /** The files of the first run, read back, are what that run wrote. */
  lemma RereadUpdatedTree(tree: Tree, version: string)
    requires NoLineBreak(version)
    requires forall path :: path in tree && IsRstPath(path) ==> AsRead(tree[path])
    ensures Reread(UpdatedTree(tree, version)) == UpdatedTree(tree, version)
  {
    var once := UpdatedTree(tree, version);
    var again := Reread(once);
    forall path | path in once ensures again[path] == once[path] {
      if IsRstPath(path) {
        RewrittenFileReadsBack(tree[path], version);
      }
    }
  }
}
