/** Text as the generator builds it: a string builder, lines, and dotted names. */
module Text {

  /** The line terminator that AppendLine writes. */
  const NewLine: string := "\n"

  /** Each line followed by a terminator: the text a run of AppendLine calls produces. */
  function Terminated(lines: seq<string>): string
  {
    if lines == [] then "" else lines[0] + NewLine + Terminated(lines[1..])
  }

  lemma {:induction false} TerminatedAppend(a: seq<string>, b: seq<string>)
    ensures Terminated(a + b) == Terminated(a) + Terminated(b)
  {
    if a == [] {
      assert a + b == b;
    } else {
      assert (a + b)[1..] == a[1..] + b;
      TerminatedAppend(a[1..], b);
    }
  }

  /** Appending one terminated line to terminated text. */
  lemma TerminatedSnoc(lines: seq<string>, line: string)
    ensures Terminated(lines + [line]) == Terminated(lines) + line + NewLine
  {
    TerminatedAppend(lines, [line]);
    assert Terminated([line]) == line + NewLine + Terminated([]);
  }

  /** The text after a run of AppendLine calls, one per line, starting from the given text. */
  function AppendLines(text: string, lines: seq<string>): string
  {
    if lines == [] then text
    else AppendLines(text, lines[..|lines| - 1]) + lines[|lines| - 1] + NewLine
  }

  lemma AppendLinesSnoc(text: string, lines: seq<string>, line: string)
    ensures AppendLines(text, lines + [line]) == AppendLines(text, lines) + line + NewLine
  {
    assert (lines + [line])[..|lines|] == lines;
  }

  lemma {:induction false} AppendLinesConcat(text: string, a: seq<string>, b: seq<string>)
    ensures AppendLines(text, a + b) == AppendLines(AppendLines(text, a), b)
    decreases |b|
  {
    if b == [] {
      assert a + b == a;
    } else {
      var init := b[..|b| - 1];
      assert a + b == (a + init) + [b[|b| - 1]];
      AppendLinesSnoc(text, a + init, b[|b| - 1]);
      AppendLinesConcat(text, a, init);
    }
  }

  /** Appending lines one by one to empty text gives the lines, each terminated. */
  lemma {:induction false} AppendLinesTerminated(lines: seq<string>)
    ensures AppendLines("", lines) == Terminated(lines)
    decreases |lines|
  {
    if lines != [] {
      var init := lines[..|lines| - 1];
      assert lines == init + [lines[|lines| - 1]];
      AppendLinesTerminated(init);
      TerminatedSnoc(init, lines[|lines| - 1]);
    }
  }

  /** The lines joined by terminators, the last one left unterminated. */
  function JoinLines(lines: seq<string>): string
    requires lines != []
  {
    Terminated(lines[..|lines| - 1]) + lines[|lines| - 1]
  }

  /** Cuts text at every line terminator: the reading of a text as lines. */
  function SplitLines(s: string): (lines: seq<string>)
    ensures |lines| >= 1
  {
    if s == [] then [""]
    else
      var rest := SplitLines(s[1..]);
      if s[0] == '\n' then [""] + rest
      else [[s[0]] + rest[0]] + rest[1..]
  }

  lemma {:induction false} SplitSingleLine(line: string)
    requires '\n' !in line
    ensures SplitLines(line) == [line]
  {
    if line != [] {
      assert line[1..] + [] == line[1..];
      SplitSingleLine(line[1..]);
      assert [line[0]] + line[1..] == line;
    }
  }

  lemma {:induction false} SplitFirstLine(line: string, rest: string)
    requires '\n' !in line
    ensures SplitLines(line + NewLine + rest) == [line] + SplitLines(rest)
  {
    var s := line + NewLine + rest;
    if line == [] {
      assert s[0] == '\n' && s[1..] == rest;
    } else {
      assert s[0] == line[0] && s[0] != '\n';
      assert s[1..] == line[1..] + NewLine + rest;
      SplitFirstLine(line[1..], rest);
      assert [line[0]] + line[1..] == line;
    }
  }

  /** Reading joined lines back gives the lines, provided none of them contains a terminator. */
  lemma {:induction false} SplitJoin(lines: seq<string>)
    requires lines != []
    requires forall l :: l in lines ==> '\n' !in l
    ensures SplitLines(JoinLines(lines)) == lines
  {
    if |lines| == 1 {
      assert JoinLines(lines) == lines[0];
      SplitSingleLine(lines[0]);
    } else {
      var rest := lines[1..];
      assert lines[..|lines| - 1] == [lines[0]] + rest[..|rest| - 1];
      assert JoinLines(lines) == lines[0] + NewLine + JoinLines(rest);
      SplitFirstLine(lines[0], JoinLines(rest));
      SplitJoin(rest);
      assert [lines[0]] + rest == lines;
    }
  }

  predicate StartsWith(s: string, prefix: string)
  {
    |prefix| <= |s| && s[..|prefix|] == prefix
  }

  /** The lines that start with the prefix, in their original order. */
  function LinesStartingWith(lines: seq<string>, prefix: string): (selected: seq<string>)
    ensures |selected| <= |lines|
  {
    if lines == [] then []
    else (if StartsWith(lines[0], prefix) then [lines[0]] else []) + LinesStartingWith(lines[1..], prefix)
  }

  lemma {:induction false} LinesStartingWithAppend(a: seq<string>, b: seq<string>, prefix: string)
    ensures LinesStartingWith(a + b, prefix) == LinesStartingWith(a, prefix) + LinesStartingWith(b, prefix)
  {
    if a == [] {
      assert a + b == b;
    } else {
      var head := if StartsWith(a[0], prefix) then [a[0]] else [];
      assert (a + b)[0] == a[0];
      assert (a + b)[1..] == a[1..] + b;
      assert LinesStartingWith(a + b, prefix) == head + LinesStartingWith(a[1..] + b, prefix);
      LinesStartingWithAppend(a[1..], b, prefix);
      assert head + (LinesStartingWith(a[1..], prefix) + LinesStartingWith(b, prefix))
          == (head + LinesStartingWith(a[1..], prefix)) + LinesStartingWith(b, prefix);
    }
  }

  /** Text whose character at i differs from the prefix's does not start with the prefix. */
  lemma PrefixMismatch(s: string, prefix: string, i: nat)
    requires i < |prefix| && i < |s| && s[i] != prefix[i]
    ensures !StartsWith(s, prefix)
  {
    if |prefix| <= |s| {
      assert s[..|prefix|][i] == s[i];
    }
  }

  lemma {:induction false} AllStartingWith(lines: seq<string>, prefix: string)
    requires forall k :: 0 <= k < |lines| ==> StartsWith(lines[k], prefix)
    ensures LinesStartingWith(lines, prefix) == lines
  {
    if lines != [] {
      AllStartingWith(lines[1..], prefix);
      assert [lines[0]] + lines[1..] == lines;
    }
  }

  lemma {:induction false} NoneStartingWith(lines: seq<string>, prefix: string)
    requires forall k :: 0 <= k < |lines| ==> !StartsWith(lines[k], prefix)
    ensures LinesStartingWith(lines, prefix) == []
  {
    if lines != [] {
      NoneStartingWith(lines[1..], prefix);
    }
  }

  /** The parts joined with '.' between them. */
  function DotJoin(parts: seq<string>): string
    requires parts != []
  {
    if |parts| == 1 then parts[0] else parts[0] + "." + DotJoin(parts[1..])
  }

  lemma DotJoinCons(part: string, parts: seq<string>)
    requires parts != []
    ensures DotJoin([part] + parts) == part + "." + DotJoin(parts)
  {
    assert ([part] + parts)[1..] == parts;
  }
}
