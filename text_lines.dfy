/**
 * Python's text-mode file I/O as update_version_next.py uses it.  Reading
 * translates every `\r\n` and every lone `\r` to `\n` (universal
 * newlines), and iterating over the file yields its lines, each up to and
 * including its `\n`; only the last line may lack one.  `writelines`
 * writes the lines end to end.
 *
 * A file's contents are a string of characters here: decoding and
 * encoding are not part of this model.
 */
module TextLines {

  /** The characters universal-newline reading treats as line breaks. */
  predicate IsBreak(c: char) {
    c == '\n' || c == '\r'
  }

  predicate NoLineBreak(s: string) {
    forall k :: 0 <= k < |s| ==> !IsBreak(s[k])
  }

  predicate NoReturn(s: string) {
    forall k :: 0 <= k < |s| ==> s[k] != '\r'
  }

  /** Universal-newline translation on reading: `\r\n` and `\r` become `\n`. */
  function Translate(text: string): (r: string)
    ensures NoReturn(r)
    ensures |r| <= |text|
    decreases |text|
  {
    if text == [] then []
    else if text[0] == '\r' then
      var rest := if |text| > 1 && text[1] == '\n' then text[2..] else text[1..];
      "\n" + Translate(rest)
    else
      [text[0]] + Translate(text[1..])
  }

  /** Text without a `\r` is left as it is by the translation. */
  lemma {:induction false} TranslateKeeps(text: string)
    requires NoReturn(text)
    ensures Translate(text) == text
    decreases |text|
  {
    if text != [] {
      TranslateKeeps(text[1..]);
      assert [text[0]] + text[1..] == text;
    }
  }

  /** The length of the first line of `text`: up to and including its first `\n`, or all of it. */
  function LineEnd(text: string): (n: nat)
    ensures n <= |text|
    ensures text != [] ==> n > 0
    ensures forall k :: 0 <= k < n - 1 ==> text[k] != '\n'
    ensures n < |text| ==> text[n - 1] == '\n'
  {
    if text == [] then 0
    else if text[0] == '\n' then 1
    else 1 + LineEnd(text[1..])
  }

  /** `for line in file` over translated text: the pieces after each `\n`, and a last piece without one. */
  function SplitLines(text: string): seq<string>
    decreases |text|
  {
    if text == [] then []
    else
      var n := LineEnd(text);
      [text[..n]] + SplitLines(text[n..])
  }

  /** The lines a text-mode read of a file with contents `text` yields. */
  function ReadLines(text: string): seq<string> {
    SplitLines(Translate(text))
  }

  /** `file.writelines(lines)`: the lines written end to end, nothing added between them. */
  function Join(lines: seq<string>): string {
    if lines == [] then [] else lines[0] + Join(lines[1..])
  }

  /**
   * One line as iteration over a text-mode file yields it: not empty, no
   * line break before its last character, and ending in `\n` unless it is
   * the last line of the file.
   */
  predicate IsReadLine(line: string, isLast: bool) {
    && line != []
    && NoLineBreak(line[..|line| - 1])
    && (line[|line| - 1] == '\n' || (isLast && !IsBreak(line[|line| - 1])))
  }

  /** A list of lines that a text-mode read can yield. */
  predicate AsRead(lines: seq<string>) {
    forall i :: 0 <= i < |lines| ==> IsReadLine(lines[i], i == |lines| - 1)
  }

  /** Splitting loses nothing: the pieces, written end to end, are the text. */
  lemma {:induction false} JoinSplitLines(text: string)
    ensures Join(SplitLines(text)) == text
    decreases |text|
  {
    if text != [] {
      var n := LineEnd(text);
      var pieces := SplitLines(text);
      JoinSplitLines(text[n..]);
      assert pieces == [text[..n]] + SplitLines(text[n..]);
      assert pieces[0] == text[..n];
      assert pieces[1..] == SplitLines(text[n..]);
      assert text[..n] + text[n..] == text;
    }
  }

  /** Every list a read yields is one `AsRead` admits. */
  lemma ReadLinesAsRead(text: string)
    ensures AsRead(ReadLines(text))
  {
    SplitLinesAsRead(Translate(text));
  }

  lemma {:induction false} SplitLinesAsRead(text: string)
    requires NoReturn(text)
    ensures AsRead(SplitLines(text))
    decreases |text|
  {
    if text != [] {
      var n := LineEnd(text);
      var line, tail := text[..n], text[n..];
      assert NoReturn(tail) by {
        forall k | 0 <= k < |tail| ensures tail[k] != '\r' {
          assert tail[k] == text[n + k];
        }
      }
      SplitLinesAsRead(tail);
      var rest := SplitLines(tail);
      assert rest == [] <==> n == |text|;
      assert IsReadLine(line, rest == []) by {
        var body := line[..n - 1];
        forall k | 0 <= k < |body| ensures !IsBreak(body[k]) {
          assert body[k] == text[k];
        }
        assert line[n - 1] == text[n - 1];
      }
      var lines := SplitLines(text);
      forall i | 0 <= i < |lines| ensures IsReadLine(lines[i], i == |lines| - 1) {
        if i > 0 {
          assert lines[i] == rest[i - 1];
        }
      }
    }
  }

  /** The first line of `line + rest` is `line` when `line` holds no `\n` before its end. */
  lemma {:induction false} LineEndOfLine(line: string, rest: string)
    requires line != []
    requires forall k :: 0 <= k < |line| - 1 ==> line[k] != '\n'
    requires line[|line| - 1] == '\n' || rest == []
    ensures LineEnd(line + rest) == |line|
    decreases |line|
  {
    if |line| > 1 {
      assert (line + rest)[1..] == line[1..] + rest;
      LineEndOfLine(line[1..], rest);
    }
  }

  /** The lines after the first of a list a read can yield can be yielded too. */
  lemma AsReadTail(lines: seq<string>)
    requires AsRead(lines) && lines != []
    ensures IsReadLine(lines[0], |lines| == 1)
    ensures AsRead(lines[1..])
  {
    var rest := lines[1..];
    forall i | 0 <= i < |rest| ensures IsReadLine(rest[i], i == |rest| - 1) {
      assert rest[i] == lines[i + 1];
    }
  }

  lemma {:induction false} JoinNoReturn(lines: seq<string>)
    requires AsRead(lines)
    ensures NoReturn(Join(lines))
  {
    if lines != [] {
      AsReadTail(lines);
      JoinNoReturn(lines[1..]);
      var line := lines[0];
      forall k | 0 <= k < |line| ensures line[k] != '\r' {
        if k < |line| - 1 {
          assert line[k] == line[..|line| - 1][k];
        }
      }
    }
  }

  /** Lines a read yields, once written, are read back as the same lines. */
  lemma {:induction false} SplitLinesJoin(lines: seq<string>)
    requires AsRead(lines)
    ensures SplitLines(Join(lines)) == lines
  {
    if lines != [] {
      AsReadTail(lines);
      var line, rest := lines[0], lines[1..];
      SplitLinesJoin(rest);
      var text := line + Join(rest);
      forall k | 0 <= k < |line| - 1 ensures line[k] != '\n' {
        assert line[k] == line[..|line| - 1][k];
      }
      LineEndOfLine(line, Join(rest));
      assert text[..|line|] == line;
      assert text[|line|..] == Join(rest);
      assert [line] + rest == lines;
    }
  }

  /** The round trip of writing lines and reading them back. */
  lemma ReadLinesJoin(lines: seq<string>)
    requires AsRead(lines)
    ensures ReadLines(Join(lines)) == lines
  {
    JoinNoReturn(lines);
    TranslateKeeps(Join(lines));
    SplitLinesJoin(lines);
  }
}
