/**
 * The line grammar of the `DIRECTIVE_RE` pattern of update_version_next.py.
 *
 * A line is a version directive when the WHOLE line has the shape
 *
 *     before  "next"  after
 *
 * where `before` is optional whitespace, the opener `..`, at least one
 * whitespace character, one of five directive names, optional whitespace,
 * the separator `::` and optional whitespace, and `after` is anything at
 * all (the pattern is compiled with DOTALL, so it keeps the newline).
 *
 * The grammar is stated declaratively by `BeforeParts.Valid` and
 * `IsDirectiveLine`; `MatchDirective` is a hand-written matcher proved
 * sound and complete against it.  Completeness also shows that the split
 * of a directive line into its parts is unique, so whichever alternative a
 * backtracking regular-expression engine explores first, it captures the
 * same `before` and `after`.
 */
module DirectiveRe {

  datatype Option<T> = None | Some(value: T)

  /** Python's `\s` on text: exactly the characters for which str.isspace() holds. */
  predicate IsSpace(c: char) {
    var n := c as int;
    || 9 <= n <= 13          // \t \n \v \f \r
    || 28 <= n <= 32         // the four information separators and the space
    || n == 0x85 || n == 0xA0 || n == 0x1680
    || 0x2000 <= n <= 0x200A
    || n == 0x2028 || n == 0x2029 || n == 0x202F || n == 0x205F || n == 0x3000
  }

  /** The character classes the matcher scans runs of. */
  datatype CharClass = Space | NameChar

  predicate InClass(c: char, k: CharClass) {
    match k
    case Space => IsSpace(c)
    case NameChar => 'a' <= c <= 'z' || c == '-'
  }

  predicate AllIn(s: string, k: CharClass) {
    forall i :: 0 <= i < |s| ==> InClass(s[i], k)
  }

  /** The alternation `version(added|changed|removed)|deprecated(-removed)?`. */
  const Names: set<string> :=
    {"versionadded", "versionchanged", "versionremoved", "deprecated", "deprecated-removed"}

  const Opener: string := ".."
  const Separator: string := "::"
  /** The placeholder that stands where the release version will go. */
  const Sentinel: string := "next"

  /**
   * The `before` group, split into the pieces of `\s*\.\.\s+NAME\s*::\s*`:
   * indent, the `..` opener, gap, name, pad, the `::` separator, trail.
   */
  datatype BeforeParts = BeforeParts(indent: string, gap: string, name: string, pad: string, trail: string)
  {
    predicate Valid() {
      && AllIn(indent, Space)
      && gap != [] && AllIn(gap, Space)
      && name in Names
      && AllIn(pad, Space)
      && AllIn(trail, Space)
    }

    function Text(): string {
      indent + Opener + gap + name + pad + Separator + trail
    }
  }

  /** A successful full match: the `before` group (by its parts) and the `after` group. */
  datatype DirectiveMatch = DirectiveMatch(parts: BeforeParts, after: string)
  {
    function Before(): string {
      parts.Text()
    }
  }

  /** The declarative grammar: `line` fully matches the directive pattern. */
  ghost predicate IsDirectiveLine(line: string) {
    exists p: BeforeParts, after: string :: p.Valid() && line == DirectiveMatch(p, after).Before() + Sentinel + after
  }

  /**
   * Splits `s` after the longest prefix of class `k`: the greedy reading of
   * `\s*` (and of a directive name) at the front of `s`.
   */
  function SplitRun(s: string, k: CharClass): (r: (string, string))
    ensures s == r.0 + r.1
    ensures AllIn(r.0, k)
    ensures r.1 == [] || !InClass(r.1[0], k)
  {
    if s != [] && InClass(s[0], k) then
      var (run, rest) := SplitRun(s[1..], k);
      assert s == [s[0]] + s[1..];
      ([s[0]] + run, rest)
    else
      ([], s)
  }

  /** A maximal run is determined by the string: any split into a run and a non-run remainder is the greedy one. */
  lemma {:induction false} SplitRunUnique(run: string, rest: string, k: CharClass)
    requires AllIn(run, k)
    requires rest == [] || !InClass(rest[0], k)
    ensures SplitRun(run + rest, k) == (run, rest)
  {
    if run == [] {
      assert run + rest == rest;
    } else {
      assert (run + rest)[1..] == run[1..] + rest;
      SplitRunUnique(run[1..], rest, k);
      assert [run[0]] + run[1..] == run;
    }
  }

  lemma Assoc(a: string, b: string, c: string)
    ensures a + (b + c) == a + b + c
  {
  }

  /** Regrouping the eight pieces of a matched line. */
  lemma Reassociate(a: string, b: string, c: string, d: string, e: string, f: string, g: string, h: string)
    ensures a + (b + (c + (d + (e + (f + (g + h)))))) == a + b + c + d + e + f + g + h
  {
    Assoc(f, g, h);
    Assoc(e, f + g, h);
    Assoc(d, e + f + g, h);
    Assoc(c, d + e + f + g, h);
    Assoc(b, c + d + e + f + g, h);
    Assoc(a, b + c + d + e + f + g, h);
    Assoc(e, f, g);
    Assoc(d, e + f, g);
    Assoc(c, d + e + f, g);
    Assoc(b, c + d + e + f, g);
    Assoc(a, b + c + d + e + f, g);
    Assoc(d, e, f);
    Assoc(c, d + e, f);
    Assoc(b, c + d + e, f);
    Assoc(a, b + c + d + e, f);
    Assoc(c, d, e);
    Assoc(b, c + d, e);
    Assoc(a, b + c + d, e);
    Assoc(b, c, d);
    Assoc(a, b + c, d);
    Assoc(a, b, c);
  }

  lemma NameFacts(name: string)
    requires name in Names
    ensures name != [] && AllIn(name, NameChar) && !IsSpace(name[0])
  {
  }

  /**
   * The matcher for the `before` group, anchored at the start of `s`.  On
   * success it returns the parts and what follows them; that remainder
   * never starts with whitespace, because every `\s*` is read greedily.
   */
  function MatchBefore(s: string): (r: Option<(BeforeParts, string)>)
    ensures r.Some? ==>
      && r.value.0.Valid()
      && s == r.value.0.Text() + r.value.1
      && (r.value.1 == [] || !IsSpace(r.value.1[0]))
  {
    var (indent, s1) := SplitRun(s, Space);
    if !(Opener <= s1) then None
    else
      var (gap, s2) := SplitRun(s1[|Opener|..], Space);
      if gap == [] then None
      else
        var (name, s3) := SplitRun(s2, NameChar);
        if name !in Names then None
        else
          var (pad, s4) := SplitRun(s3, Space);
          if !(Separator <= s4) then None
          else
            var (trail, rest) := SplitRun(s4[|Separator|..], Space);
            var p := BeforeParts(indent, gap, name, pad, trail);
            assert s == p.Text() + rest by {
              assert s1 == Opener + s1[|Opener|..];
              assert s4 == Separator + s4[|Separator|..];
              Reassociate(indent, Opener, gap, name, pad, Separator, trail, rest);
            }
            Some((p, rest))
  }

  /**
   * Completeness of `MatchBefore`: a valid `before` followed by anything
   * that does not start with whitespace is recognised, with exactly the
   * given parts.
   */
  lemma {:induction false} MatchBeforeComplete(p: BeforeParts, rest: string)
    requires p.Valid()
    requires rest == [] || !IsSpace(rest[0])
    ensures MatchBefore(p.Text() + rest) == Some((p, rest))
  {
    NameFacts(p.name);
    var s4 := Separator + (p.trail + rest);
    var s3 := p.pad + s4;
    var s2 := p.name + s3;
    var s1 := Opener + (p.gap + s2);
    Reassociate(p.indent, Opener, p.gap, p.name, p.pad, Separator, p.trail, rest);
    SplitRunUnique(p.indent, s1, Space);
    assert s1[|Opener|..] == p.gap + s2;
    SplitRunUnique(p.gap, s2, Space);
    assert s3 == [] || !InClass(s3[0], NameChar) by {
      if p.pad != [] {
        assert s3[0] == p.pad[0];
      } else {
        assert s3[0] == ':';
      }
    }
    SplitRunUnique(p.name, s3, NameChar);
    SplitRunUnique(p.pad, s4, Space);
    assert s4[|Separator|..] == p.trail + rest;
    SplitRunUnique(p.trail, rest, Space);
  }

  /** The full-line matcher: `DIRECTIVE_RE.fullmatch(line)`. */
  function MatchDirective(line: string): Option<DirectiveMatch> {
    match MatchBefore(line)
    case None => None
    case Some((p, rest)) =>
      if Sentinel <= rest then Some(DirectiveMatch(p, rest[|Sentinel|..])) else None
  }

  /** Soundness: what the matcher returns is a valid split of `line`. */
  lemma MatchDirectiveSound(line: string)
    ensures MatchDirective(line).Some? ==>
      var m := MatchDirective(line).value;
      m.parts.Valid() && line == m.Before() + Sentinel + m.after
  {
    match MatchBefore(line)
    case None =>
    case Some((p, rest)) =>
      if Sentinel <= rest {
        assert rest == Sentinel + rest[|Sentinel|..];
      }
  }

  /** Completeness: every split the grammar allows is the one the matcher returns. */
  lemma {:induction false} MatchDirectiveComplete(p: BeforeParts, after: string)
    requires p.Valid()
    ensures MatchDirective(p.Text() + Sentinel + after) == Some(DirectiveMatch(p, after))
  {
    MatchBeforeComplete(p, Sentinel + after);
    assert p.Text() + Sentinel + after == p.Text() + (Sentinel + after);
    assert (Sentinel + after)[|Sentinel|..] == after;
  }

  /** The matcher decides the declarative grammar exactly. */
  lemma MatchDirectiveDecides(line: string)
    ensures MatchDirective(line).Some? <==> IsDirectiveLine(line)
  {
    MatchDirectiveSound(line);
    if IsDirectiveLine(line) {
      var p: BeforeParts, after: string :| p.Valid() && line == DirectiveMatch(p, after).Before() + Sentinel + after;
      MatchDirectiveComplete(p, after);
    }
  }

  /**
   * A line that starts with a valid `before` but whose version field does
   * not begin with the sentinel is not a directive line: only the position
   * right after `::` and its whitespace is ever inspected.
   */
  lemma {:induction false} NoSentinelNoMatch(p: BeforeParts, rest: string)
    requires p.Valid()
    requires rest == [] || !IsSpace(rest[0])
    requires !(Sentinel <= rest)
    ensures MatchDirective(p.Text() + rest).None?
  {
    MatchBeforeComplete(p, rest);
  }

  /**
   * Only the five directive names are accepted: an opener followed by a
   * word of name characters that is not one of them never matches.
   */
  lemma {:induction false} OtherNameNoMatch(indent: string, gap: string, name: string, rest: string)
    requires AllIn(indent, Space)
    requires gap != [] && AllIn(gap, Space)
    requires name != [] && AllIn(name, NameChar) && name !in Names
    requires rest == [] || !InClass(rest[0], NameChar)
    ensures MatchDirective(indent + Opener + gap + name + rest).None?
  {
    var s2 := name + rest;
    var s1 := Opener + gap + s2;
    assert indent + Opener + gap + name + rest == indent + s1;
    SplitRunUnique(indent, s1, Space);
    assert s1[|Opener|..] == gap + s2;
    SplitRunUnique(gap, s2, Space);
    SplitRunUnique(name, rest, NameChar);
  }
}
