/**
 * Line cleanup before parsing (`cleanMarkdownContent` in the converter class and in the
 * older script) and the password heuristic (`detectPasswordInLine`), which only warns.
 */
module Cleanup {
  import opened Text

  // ---------------------------------------------------------------------------------------
  // The line filters.

  function SkipSpace(s: string): (r: string)
    ensures |r| <= |s| && r == s[|s| - |r|..]
    ensures r == [] || !IsSpace(r[0])
    decreases |s|
  {
    if s != [] && IsSpace(s[0]) then SkipSpace(s[1..]) else s
  }

  function SkipBackslashes(s: string): (r: string)
    ensures |r| <= |s| && r == s[|s| - |r|..]
    ensures r == [] || r[0] != '\\'
    decreases |s|
  {
    if s != [] && s[0] == '\\' then SkipBackslashes(s[1..]) else s
  }

  /** `\\+\s*$` at the start of `u`. */
  predicate BackslashesThenSpace(u: string)
  {
    u != [] && u[0] == '\\' && AllSpace(SkipBackslashes(u))
  }

  /** `(\*\s*)?\\+\s*$` at the start of `t`. */
  predicate StarThenBackslashes(t: string)
  {
    BackslashesThenSpace(if t != [] && t[0] == '*' then SkipSpace(t[1..]) else t)
  }

  /** The converter's filter `^\s*(\*\s*)?\\+\s*$`: lines to drop. */
  predicate IsBackslashLine(line: string)
  {
    StarThenBackslashes(SkipSpace(line))
  }

  /** The older script's filter `^\s*\\+\s*$`: lines to drop. */
  predicate IsBareBackslashLine(line: string)
  {
    BackslashesThenSpace(SkipSpace(line))
  }

  predicate AllBackslash(s: string)
  {
    forall k :: 0 <= k < |s| ==> s[k] == '\\'
  }

  lemma {:induction false} SkipSpaceOver(a: string, rest: string)
    requires AllSpace(a) && (rest == [] || !IsSpace(rest[0]))
    ensures SkipSpace(a + rest) == rest
    decreases |a|
  {
    if a == [] {
      assert a + rest == rest;
    } else {
      assert (a + rest)[1..] == a[1..] + rest;
      SkipSpaceOver(a[1..], rest);
    }
  }

  lemma {:induction false} SkipBackslashesOver(b: string, rest: string)
    requires AllBackslash(b) && (rest == [] || rest[0] != '\\')
    ensures SkipBackslashes(b + rest) == rest
    decreases |b|
  {
    if b == [] {
      assert b + rest == rest;
    } else {
      assert (b + rest)[1..] == b[1..] + rest;
      SkipBackslashesOver(b[1..], rest);
    }
  }

  lemma BackslashesThenSpaceOf(b: string, d: string)
    requires b != [] && AllBackslash(b) && AllSpace(d)
    ensures BackslashesThenSpace(b + d)
  {
    assert d == [] || IsSpace(d[0]);
    SkipBackslashesOver(b, d);
  }

  /** Spaces, one or more backslashes and spaces make a line the converter drops. */
  lemma BackslashLineComplete(a: string, b: string, d: string)
    requires AllSpace(a) && AllSpace(d)
    requires b != [] && AllBackslash(b)
    ensures IsBackslashLine(a + b + d)
  {
    BackslashesThenSpaceOf(b, d);
    assert a + b + d == a + (b + d);
    SkipSpaceOver(a, b + d);
  }

  /** So do spaces, `*`, spaces, one or more backslashes and spaces. */
  lemma StarredBackslashLineComplete(a: string, a': string, b: string, d: string)
    requires AllSpace(a) && AllSpace(a') && AllSpace(d)
    requires b != [] && AllBackslash(b)
    ensures IsBackslashLine(a + "*" + a' + b + d)
  {
    BackslashesThenSpaceOf(b, d);
    var t := "*" + (a' + (b + d));
    assert a + "*" + a' + b + d == a + t;
    SkipSpaceOver(a, t);
    assert t[1..] == a' + (b + d);
    SkipSpaceOver(a', b + d);
  }

  lemma {:induction false} SkipSpacePrefix(s: string)
    ensures s == s[..|s| - |SkipSpace(s)|] + SkipSpace(s)
    ensures AllSpace(s[..|s| - |SkipSpace(s)|])
    decreases |s|
  {
    if s != [] && IsSpace(s[0]) {
      SkipSpacePrefix(s[1..]);
      assert SkipSpace(s) == SkipSpace(s[1..]);
      SpaceConsPrefix(s, SkipSpace(s));
    } else {
      assert s[..0] == [];
    }
  }

  /** One more leading space in front of a split into spaces and a rest. */
  lemma SpaceConsPrefix(s: string, r: string)
    requires s != [] && IsSpace(s[0]) && |r| < |s|
    requires s[1..] == s[1..][..|s| - 1 - |r|] + r && AllSpace(s[1..][..|s| - 1 - |r|])
    ensures s == s[..|s| - |r|] + r && AllSpace(s[..|s| - |r|])
  {
    var n := |s| - |r|;
    assert s[..n] == [s[0]] + s[1..][..n - 1];
    assert s == [s[0]] + s[1..];
  }

  lemma {:induction false} SkipBackslashesPrefix(s: string)
    ensures s == s[..|s| - |SkipBackslashes(s)|] + SkipBackslashes(s)
    ensures AllBackslash(s[..|s| - |SkipBackslashes(s)|])
    decreases |s|
  {
    if s != [] && s[0] == '\\' {
      SkipBackslashesPrefix(s[1..]);
      assert SkipBackslashes(s) == SkipBackslashes(s[1..]);
      BackslashConsPrefix(s, SkipBackslashes(s));
    } else {
      assert s[..0] == [];
    }
  }

  /** One more leading backslash in front of a split into backslashes and a rest. */
  lemma BackslashConsPrefix(s: string, r: string)
    requires s != [] && s[0] == '\\' && |r| < |s|
    requires s[1..] == s[1..][..|s| - 1 - |r|] + r && AllBackslash(s[1..][..|s| - 1 - |r|])
    ensures s == s[..|s| - |r|] + r && AllBackslash(s[..|s| - |r|])
  {
    var n := |s| - |r|;
    assert s[..n] == [s[0]] + s[1..][..n - 1];
    assert s == [s[0]] + s[1..];
  }

  /** A string is the spaces `SkipSpace` passes over followed by what it returns. */
  lemma SpaceSplit(s: string) returns (a: string)
    ensures s == a + SkipSpace(s) && AllSpace(a)
  {
    SkipSpacePrefix(s);
    a := s[..|s| - |SkipSpace(s)|];
  }

  lemma BackslashesThenSpaceSound(u: string) returns (b: string, d: string)
    requires BackslashesThenSpace(u)
    ensures b != [] && AllBackslash(b) && AllSpace(d) && u == b + d
  {
    d := SkipBackslashes(u);
    b := u[..|u| - |d|];
    SkipBackslashesPrefix(u);
  }

  /**
   * Every line the converter drops has one of those two shapes; `starred` says which, and
   * `a'` is empty for the first.
   */
  lemma BackslashLineSound(line: string) returns (starred: bool, a: string, a': string, b: string, d: string)
    requires IsBackslashLine(line)
    ensures AllSpace(a) && AllSpace(a') && AllSpace(d)
    ensures b != [] && AllBackslash(b)
    ensures starred ==> line == a + "*" + a' + b + d
    ensures !starred ==> line == a + b + d
  {
    var t := SkipSpace(line);
    a := SpaceSplit(line);
    starred := t != [] && t[0] == '*';
    if starred {
      var u := SkipSpace(t[1..]);
      a' := SpaceSplit(t[1..]);
      b, d := BackslashesThenSpaceSound(u);
      StarredParts(line, a, t, a', u, b, d);
    } else {
      a' := "";
      b, d := BackslashesThenSpaceSound(t);
      PlainParts(line, a, t, b, d);
    }
  }

  lemma PlainParts(line: string, a: string, t: string, b: string, d: string)
    requires line == a + t && t == b + d
    ensures line == a + b + d && AllSpace("")
  {
  }

  lemma StarredParts(line: string, a: string, t: string, a': string, u: string, b: string, d: string)
    requires line == a + t && t != [] && t[0] == '*' && t[1..] == a' + u && u == b + d
    ensures line == a + "*" + a' + b + d
  {
    assert t == "*" + t[1..];
  }

  /** The converter drops every line the older script drops, and more (`*\` for one). */
  lemma BareBackslashLineIsBackslashLine(line: string)
    requires IsBareBackslashLine(line)
    ensures IsBackslashLine(line)
  {
  }

  lemma StarredLineOnlyConverterDrops()
    ensures IsBackslashLine("*\\") && !IsBareBackslashLine("*\\")
  {
    var line := "*\\";
    assert !IsSpace(line[0]);
    assert SkipSpace(line) == line;
    var u := line[1..];
    assert u == "\\" && !IsSpace(u[0]);
    assert SkipSpace(u) == u;
    assert u[1..] == [];
    assert SkipBackslashes(u) == SkipBackslashes(u[1..]) == [];
  }

  // ---------------------------------------------------------------------------------------
  // The converter's per-line rewrite.

  /** `line.replace(/^\*\*\* /, '* ** ')`. */
  function ReplaceTripleStar(line: string): string
  {
    if "*** " <= line then "* ** " + line[4..] else line
  }

  /** The index where the run of characters other than `=` starting at `i` ends. */
  function RunEnd(s: string, i: nat): (e: nat)
    requires i <= |s|
    ensures i <= e <= |s| && (e == |s| || s[e] == '=')
    ensures forall k :: i <= k < e ==> s[k] != '='
    decreases |s| - i
  {
    if i == |s| || s[i] == '=' then i else RunEnd(s, i + 1)
  }

  /** Where a match of `==([^=]+)==` at the start of `s` puts its closing `==`. */
  function HighlightAt(s: string): (e: int)
    ensures e == -1 || (3 <= e && e + 2 <= |s|)
  {
    if |s| >= 2 && s[0] == '=' && s[1] == '=' then
      var e := RunEnd(s, 2);
      if e > 2 && e + 2 <= |s| && s[e + 1] == '=' then e else -1
    else -1
  }

  /** `s.replace(/==([^=]+)==/g, '$1')`. */
  function StripHighlights(s: string): string
    decreases |s|
  {
    if s == [] then []
    else
      var e := HighlightAt(s);
      if e >= 0 then s[2..e] + StripHighlights(s[e + 2..])
      else [s[0]] + StripHighlights(s[1..])
  }

  /** The converter's rewrite of a kept line. */
  function RewriteLine(line: string): string
  {
    StripHighlights(ReplaceTripleStar(line))
  }

  /** Text without `=` passes unchanged, and a prefix without `=` is kept in front. */
  lemma {:induction false} StripHighlightsPrefix(a: string, t: string)
    requires '=' !in a
    ensures StripHighlights(a + t) == a + StripHighlights(t)
    decreases |a|
  {
    if a == [] {
      assert a + t == t;
    } else {
      assert (a + t)[1..] == a[1..] + t;
      StripHighlightsPrefix(a[1..], t);
    }
  }

  /** `==x==` becomes `x` when `x` is not empty and holds no `=`. */
  lemma StripOneHighlight(x: string, t: string)
    requires x != [] && '=' !in x
    ensures StripHighlights("==" + x + "==" + t) == x + StripHighlights(t)
  {
    var s := "==" + x + "==" + t;
    assert forall k :: 2 <= k < 2 + |x| ==> s[k] == x[k - 2];
    assert s[2 + |x|] == '=';
    assert RunEnd(s, 2) == 2 + |x| by { RunEndAt(s, 2, 2 + |x|); }
    assert s[2..2 + |x|] == x;
    assert s[2 + |x| + 2..] == t;
  }

  lemma {:induction false} RunEndAt(s: string, i: nat, e: nat)
    requires i <= e < |s| && s[e] == '='
    requires forall k :: i <= k < e ==> s[k] != '='
    ensures RunEnd(s, i) == e
    decreases e - i
  {
    if i < e {
      RunEndAt(s, i + 1, e);
    }
  }

  /** Stripping never adds characters: every output character comes from the input. */
  lemma {:induction false} StripHighlightsChars(s: string)
    ensures |StripHighlights(s)| <= |s|
    ensures forall c :: c in StripHighlights(s) ==> c in s
    decreases |s|
  {
    if s != [] {
      var e := HighlightAt(s);
      if e >= 0 {
        StripHighlightsChars(s[e + 2..]);
        assert forall c :: c in s[2..e] ==> c in s;
        assert forall c :: c in s[e + 2..] ==> c in s;
      } else {
        StripHighlightsChars(s[1..]);
        assert forall c :: c in s[1..] ==> c in s;
      }
    }
  }

  /** A leading `*** ` becomes `* ** `; the rest of the line then loses its highlight marks. */
  lemma RewriteTripleStar(rest: string)
    ensures RewriteLine("*** " + rest) == "* ** " + StripHighlights(rest)
  {
    assert "*** " <= "*** " + rest;
    assert ("*** " + rest)[4..] == rest;
    StripHighlightsPrefix("* ** ", rest);
  }

  lemma RewriteLineChars(line: string)
    ensures forall c :: c in RewriteLine(line) ==> c in line || c == '*' || c == ' '
  {
    var t := ReplaceTripleStar(line);
    StripHighlightsChars(t);
    if "*** " <= line {
      forall c | c in t ensures c in line || c == '*' || c == ' ' {
        var k :| 0 <= k < |t| && t[k] == c;
        if k >= 5 { assert t[k] == line[k - 1]; }
      }
    }
  }

  // ---------------------------------------------------------------------------------------
  // Whole-content cleanup.

  /** Each line replaced, in order, by the lines `f` gives for it (a `filter` then `map`). */
  function FlatMapLines(lines: seq<string>, f: string -> seq<string>): seq<string>
    decreases |lines|
  {
    if lines == [] then [] else f(lines[0]) + FlatMapLines(lines[1..], f)
  }

  /** What the converter's cleanup makes of one line: nothing, or its rewrite. */
  function CleanLine(line: string): seq<string>
  {
    if IsBackslashLine(line) then [] else [RewriteLine(line)]
  }

  /** What the older script's cleanup makes of one line: nothing, or the line itself. */
  function KeepBareLine(line: string): seq<string>
  {
    if IsBareBackslashLine(line) then [] else [line]
  }

  /** The converter's cleanup, line by line. */
  function CleanLines(lines: seq<string>): seq<string>
  {
    FlatMapLines(lines, CleanLine)
  }

  /** The older script's cleanup, line by line. */
  function FilterBareBackslashLines(lines: seq<string>): seq<string>
  {
    FlatMapLines(lines, KeepBareLine)
  }

  lemma {:induction false} FlatMapAppend(a: seq<string>, b: seq<string>, f: string -> seq<string>)
    ensures FlatMapLines(a + b, f) == FlatMapLines(a, f) + FlatMapLines(b, f)
    decreases |a|
  {
    if a == [] {
      assert a + b == b;
    } else {
      assert (a + b)[1..] == a[1..] + b;
      FlatMapAppend(a[1..], b, f);
    }
  }

  lemma {:induction false} FlatMapShort(lines: seq<string>, f: string -> seq<string>)
    requires forall k :: 0 <= k < |lines| ==> |f(lines[k])| <= 1
    ensures |FlatMapLines(lines, f)| <= |lines|
    decreases |lines|
  {
    if lines != [] {
      assert |f(lines[0])| <= 1;
      FlatMapShort(lines[1..], f);
    }
  }

  lemma {:induction false} FlatMapNoNewline(lines: seq<string>, f: string -> seq<string>)
    requires forall k :: 0 <= k < |lines| ==> forall j :: 0 <= j < |f(lines[k])| ==> '\n' !in f(lines[k])[j]
    ensures forall k :: 0 <= k < |FlatMapLines(lines, f)| ==> '\n' !in FlatMapLines(lines, f)[k]
    decreases |lines|
  {
    if lines != [] {
      var head := f(lines[0]);
      assert forall j :: 0 <= j < |head| ==> '\n' !in head[j];
      FlatMapNoNewline(lines[1..], f);
      var tail := FlatMapLines(lines[1..], f);
      forall k | 0 <= k < |head + tail| ensures '\n' !in (head + tail)[k] {
        if k >= |head| {
          assert (head + tail)[k] == tail[k - |head|];
        }
      }
    }
  }

  /** The converter's `cleanMarkdownContent(content)`. */
  function CleanMarkdownContent(content: string): string
  {
    JoinWith(CleanLines(SplitOn(content, '\n')), '\n')
  }

  /** The older script's `cleanMarkdownContent(content)`. */
  function CleanMarkdownContentBare(content: string): string
  {
    JoinWith(FilterBareBackslashLines(SplitOn(content, '\n')), '\n')
  }

  /**
   * Cleanup treats lines one at a time: the lines of `a + b` clean to those of `a` then those
   * of `b`, and a single line disappears if it is a backslash line and is rewritten otherwise.
   */
  lemma {:induction false} CleanLinesAppend(a: seq<string>, b: seq<string>)
    ensures CleanLines(a + b) == CleanLines(a) + CleanLines(b)
    ensures |a| == 1 ==> CleanLines(a) == (if IsBackslashLine(a[0]) then [] else [RewriteLine(a[0])])
    decreases |a|
  {
    FlatMapAppend(a, b, CleanLine);
    if |a| == 1 {
      assert a[1..] == [];
    }
  }

  /**
   * The older filter also treats lines one at a time: the lines of `a + b` filter to those of
   * `a` then those of `b`, and a single line disappears if it is a bare backslash line and is
   * kept unchanged otherwise. Together these fix the order and the number of kept lines.
   */
  lemma {:induction false} FilterBareAppend(a: seq<string>, b: seq<string>)
    ensures FilterBareBackslashLines(a + b) == FilterBareBackslashLines(a) + FilterBareBackslashLines(b)
    ensures |a| == 1 ==> FilterBareBackslashLines(a) == (if IsBareBackslashLine(a[0]) then [] else a)
  {
    FlatMapAppend(a, b, KeepBareLine);
    if |a| == 1 {
      assert a[1..] == [];
      assert a == [a[0]];
    }
  }

  lemma CleanLinesLength(lines: seq<string>)
    ensures |CleanLines(lines)| <= |lines|
  {
    FlatMapShort(lines, CleanLine);
  }

  /** The older filter keeps exactly the lines that are not bare backslash lines, each unchanged. */
  lemma {:induction false} FilterBareKeeps(lines: seq<string>)
    ensures |FilterBareBackslashLines(lines)| <= |lines|
    ensures forall l :: l in FilterBareBackslashLines(lines) ==> l in lines && !IsBareBackslashLine(l)
    ensures forall l :: l in lines && !IsBareBackslashLine(l) ==> l in FilterBareBackslashLines(lines)
    decreases |lines|
  {
    if lines != [] {
      FilterBareKeeps(lines[1..]);
      assert forall l :: l in lines <==> l == lines[0] || l in lines[1..];
    }
  }

  lemma CleanLinesNoNewline(lines: seq<string>)
    requires forall k :: 0 <= k < |lines| ==> '\n' !in lines[k]
    ensures forall k :: 0 <= k < |CleanLines(lines)| ==> '\n' !in CleanLines(lines)[k]
  {
    forall k | 0 <= k < |lines|
      ensures forall j :: 0 <= j < |CleanLine(lines[k])| ==> '\n' !in CleanLine(lines[k])[j]
    {
      CleanLineNoNewline(lines[k]);
    }
    FlatMapNoNewline(lines, CleanLine);
  }

  lemma CleanLineNoNewline(line: string)
    requires '\n' !in line
    ensures forall j :: 0 <= j < |CleanLine(line)| ==> '\n' !in CleanLine(line)[j]
  {
    RewriteLineNoNewline(line);
    assert forall j :: 0 <= j < |CleanLine(line)| ==> CleanLine(line)[j] == RewriteLine(line);
  }

  lemma RewriteLineNoNewline(line: string)
    requires '\n' !in line
    ensures '\n' !in RewriteLine(line)
  {
    RewriteLineChars(line);
  }

  /**
   * The lines of the cleaned content are the cleaned lines of the content, unless cleanup
   * removed every line (the result is then the empty text).
   */
  lemma CleanContentLines(content: string)
    ensures var out := CleanLines(SplitOn(content, '\n'));
            out == [] ==> CleanMarkdownContent(content) == ""
    ensures var out := CleanLines(SplitOn(content, '\n'));
            out != [] ==> SplitOn(CleanMarkdownContent(content), '\n') == out
  {
    var out := CleanLines(SplitOn(content, '\n'));
    if out != [] {
      CleanLinesNoNewline(SplitOn(content, '\n'));
      SplitJoin(out, '\n');
    }
  }

  /** The older cleanup's lines are exactly the input lines it keeps. */
  lemma CleanContentBareLines(content: string)
    ensures var out := FilterBareBackslashLines(SplitOn(content, '\n'));
            out != [] ==> SplitOn(CleanMarkdownContentBare(content), '\n') == out
  {
    var lines := SplitOn(content, '\n');
    var out := FilterBareBackslashLines(lines);
    if out != [] {
      FilterBareKeeps(lines);
      forall k | 0 <= k < |out| ensures '\n' !in out[k] {
        assert out[k] in lines;
      }
      SplitJoin(out, '\n');
    }
  }

  // ---------------------------------------------------------------------------------------
  // The password heuristic.

  /** Case-insensitive comparison of one character with a lower-case ASCII letter. */
  predicate SameLetter(c: char, lower: char)
    requires 'a' <= lower <= 'z'
  {
    c == lower || c as int == lower as int - 32
  }

  /** `word` (lower-case letters) occurs at `i`, ignoring case. */
  predicate WordAt(s: string, i: nat, word: string)
    requires forall k :: 0 <= k < |word| ==> 'a' <= word[k] <= 'z'
  {
    i + |word| <= |s| && forall k :: 0 <= k < |word| ==> SameLetter(s[i + k], word[k])
  }

  /** The index after the run of `\s` characters starting at `i`. */
  function SpaceEnd(s: string, i: nat): (e: nat)
    requires i <= |s|
    ensures i <= e <= |s| && (e == |s| || !IsSpace(s[e]))
    ensures forall k :: i <= k < e ==> IsSpace(s[k])
    decreases |s| - i
  {
    if i < |s| && IsSpace(s[i]) then SpaceEnd(s, i + 1) else i
  }

  /** Where a keyword matched at `i` ends: `mot\s+de\s+passe`, `password`, `mdp` or `pwd`. */
  function KeywordEnd(s: string, i: nat): (e: int)
    requires i <= |s|
    ensures e == -1 || i < e <= |s|
  {
    if WordAt(s, i, "password") then i + 8
    else if WordAt(s, i, "mdp") || WordAt(s, i, "pwd") then i + 3
    else if WordAt(s, i, "mot") then
      var j := SpaceEnd(s, i + 3);
      if j > i + 3 && WordAt(s, j, "de") then
        var k := SpaceEnd(s, j + 2);
        if k > j + 2 && WordAt(s, k, "passe") then k + 5 else -1
      else -1
    else -1
  }

  /** `\s*[:=]\s*\S` at `j`. */
  predicate ValueFollows(s: string, j: nat)
    requires j <= |s|
  {
    var k := SpaceEnd(s, j);
    k < |s| && (s[k] == ':' || s[k] == '=') && SpaceEnd(s, k + 1) < |s|
  }

  predicate PasswordAt(s: string, i: nat)
    requires i <= |s|
  {
    var e := KeywordEnd(s, i);
    e >= 0 && ValueFollows(s, e)
  }

  /** `detectPasswordInLine(line)`: one of the two patterns matches somewhere in the line. */
  predicate DetectPasswordInLine(line: string)
  {
    exists i :: 0 <= i < |line| && PasswordAt(line, i)
  }

  lemma {:induction false} SpaceEndOver(s: string, i: nat, n: nat)
    requires i + n <= |s|
    requires forall k :: i <= k < i + n ==> IsSpace(s[k])
    requires i + n == |s| || !IsSpace(s[i + n])
    ensures SpaceEnd(s, i) == i + n
    decreases n
  {
    if n > 0 {
      SpaceEndOver(s, i + 1, n - 1);
    }
  }

  /** The short keywords `password`, `mdp` and `pwd`, in any case, followed by a value. */
  predicate ShortKeyword(kw: string)
  {
    (|kw| == 8 && WordAt(kw, 0, "password")) || (|kw| == 3 && (WordAt(kw, 0, "mdp") || WordAt(kw, 0, "pwd")))
  }

  lemma ShortKeywordEnd(s: string, i: nat, kw: string)
    requires ShortKeyword(kw) && i + |kw| <= |s| && s[i..i + |kw|] == kw
    ensures KeywordEnd(s, i) == i + |kw|
  {
    assert forall j :: 0 <= j < |kw| ==> s[i + j] == kw[j];
    if |kw| == 8 {
      assert WordAt(s, i, "password");
    } else {
      assert s[i] == kw[0] && s[i + 1] == kw[1];
      assert "mdp"[0] == 'm' && "pwd"[1] == 'w' && "password"[0] == 'p' && "password"[1] == 'a';
      assert !WordAt(s, i, "password") by {
        if WordAt(kw, 0, "mdp") {
          assert SameLetter(kw[0], "mdp"[0]);
        } else {
          assert SameLetter(kw[1], "pwd"[1]);
        }
      }
      assert WordAt(s, i, "mdp") || WordAt(s, i, "pwd");
    }
  }

  /** `mot\s+de\s+passe` in any case, with `de` at `j` and `passe` at `k`. */
  predicate LongKeywordAt(kw: string, j: nat, k: nat)
  {
    && 3 < j && j + 2 < k && k + 5 == |kw|
    && WordAt(kw, 0, "mot") && WordAt(kw, j, "de") && WordAt(kw, k, "passe")
    && (forall t :: 3 <= t < j ==> IsSpace(kw[t]))
    && (forall t :: j + 2 <= t < k ==> IsSpace(kw[t]))
  }

  /** The keywords of the two patterns: `password`, `mdp`, `pwd` and `mot\s+de\s+passe`. */
  predicate Keyword(kw: string)
  {
    ShortKeyword(kw) || exists j: nat, k: nat | j < k < |kw| :: LongKeywordAt(kw, j, k)
  }

  lemma LongKeywordEnd(s: string, i: nat, kw: string, j: nat, k: nat)
    requires LongKeywordAt(kw, j, k) && i + |kw| <= |s| && s[i..i + |kw|] == kw
    ensures KeywordEnd(s, i) == i + |kw|
  {
    LongKeywordWords(s, i, kw, j, k);
    LongKeywordSpaces(s, i, kw, j, k);
    NotShortAtMot(s, i);
    MotKeywordEndOf(s, i, i + j, i + k);
  }

  lemma LongKeywordWords(s: string, i: nat, kw: string, j: nat, k: nat)
    requires LongKeywordAt(kw, j, k) && i + |kw| <= |s| && s[i..i + |kw|] == kw
    ensures WordAt(s, i, "mot") && WordAt(s, i + j, "de") && WordAt(s, i + k, "passe")
  {
    WordAtShift(s, i, kw, 0, "mot");
    WordAtShift(s, i, kw, j, "de");
    WordAtShift(s, i, kw, k, "passe");
  }

  lemma LongKeywordSpaces(s: string, i: nat, kw: string, j: nat, k: nat)
    requires LongKeywordAt(kw, j, k) && i + |kw| <= |s| && s[i..i + |kw|] == kw
    ensures SpaceEnd(s, i + 3) == i + j && SpaceEnd(s, i + j + 2) == i + k
  {
    assert !IsSpace(kw[j]) by { assert SameLetter(kw[j], "de"[0]); }
    assert !IsSpace(kw[k]) by { assert SameLetter(kw[k], "passe"[0]); }
    SpaceRunShift(s, i, kw, 3, j - 3);
    SpaceRunShift(s, i, kw, j + 2, k - j - 2);
  }

  /** `KeywordEnd` at `i` when `mot`, spaces, `de`, spaces and `passe` are there. */
  lemma MotKeywordEndOf(s: string, i: nat, j: nat, k: nat)
    requires WordAt(s, i, "mot") && !WordAt(s, i, "password") && !WordAt(s, i, "mdp") && !WordAt(s, i, "pwd")
    requires j > i + 3 && SpaceEnd(s, i + 3) == j && WordAt(s, j, "de")
    requires k > j + 2 && SpaceEnd(s, j + 2) == k && WordAt(s, k, "passe")
    ensures KeywordEnd(s, i) == k + 5
  {
  }

  /** A run of spaces ended by a non-space in a slice ends at the same place in the whole. */
  lemma SpaceRunShift(s: string, i: nat, kw: string, from: nat, n: nat)
    requires i + |kw| <= |s| && s[i..i + |kw|] == kw && from + n < |kw|
    requires forall t :: from <= t < from + n ==> IsSpace(kw[t])
    requires !IsSpace(kw[from + n])
    ensures SpaceEnd(s, i + from) == i + from + n
  {
    assert forall t :: i + from <= t <= i + from + n ==> s[t] == kw[t - i];
    SpaceEndOver(s, i + from, n);
  }

  /** A case-insensitive word found in a slice is found at the same place in the whole. */
  lemma WordAtShift(s: string, i: nat, kw: string, off: nat, word: string)
    requires forall t :: 0 <= t < |word| ==> 'a' <= word[t] <= 'z'
    requires i + |kw| <= |s| && s[i..i + |kw|] == kw && off + |word| <= |kw| && WordAt(kw, off, word)
    ensures WordAt(s, i + off, word)
  {
    forall t | 0 <= t < |word| ensures SameLetter(s[i + off + t], word[t]) {
      assert s[i + off + t] == kw[off + t];
    }
  }

  /** A word starting `mo`, in any case, is none of the short keywords. */
  lemma NotShortAtMot(s: string, i: nat)
    requires WordAt(s, i, "mot")
    ensures !WordAt(s, i, "password") && !WordAt(s, i, "mdp") && !WordAt(s, i, "pwd")
  {
    assert SameLetter(s[i], "mot"[0]) && SameLetter(s[i + 1], "mot"[1]);
    assert "password"[0] == 'p' && "mdp"[1] == 'd' && "pwd"[0] == 'p';
  }

  /** Whatever `KeywordEnd` accepts at `i` is a keyword. */
  lemma KeywordSound(s: string, i: nat)
    requires i <= |s| && KeywordEnd(s, i) >= 0
    ensures Keyword(s[i..KeywordEnd(s, i)])
  {
    var e := KeywordEnd(s, i);
    if WordAt(s, i, "password") {
      WordAtSub(s, i, e, 0, "password");
    } else if WordAt(s, i, "mdp") {
      WordAtSub(s, i, e, 0, "mdp");
    } else if WordAt(s, i, "pwd") {
      WordAtSub(s, i, e, 0, "pwd");
    } else {
      var j, k := MotKeywordEnd(s, i);
      MotKeywordSound(s, i, j, k);
    }
  }

  lemma MotKeywordSound(s: string, i: nat, j: nat, k: nat)
    requires i + 3 < j && j + 2 < k && k + 5 <= |s|
    requires SpaceEnd(s, i + 3) == j && SpaceEnd(s, j + 2) == k
    requires WordAt(s, i, "mot") && WordAt(s, j, "de") && WordAt(s, k, "passe")
    ensures Keyword(s[i..k + 5])
  {
    var e := k + 5;
    MotWordsSub(s, i, j, k);
    SpaceSub(s, i, e, 3, j - i);
    SpaceSub(s, i, e, j - i + 2, k - i);
    assert LongKeywordAt(s[i..e], j - i, k - i);
  }

  lemma MotWordsSub(s: string, i: nat, j: nat, k: nat)
    requires i + 3 < j && j + 2 < k && k + 5 <= |s|
    requires WordAt(s, i, "mot") && WordAt(s, j, "de") && WordAt(s, k, "passe")
    ensures WordAt(s[i..k + 5], 0, "mot") && WordAt(s[i..k + 5], j - i, "de") && WordAt(s[i..k + 5], k - i, "passe")
  {
    WordAtSub(s, i, k + 5, 0, "mot");
    WordAtSub(s, i, k + 5, j - i, "de");
    WordAtSub(s, i, k + 5, k - i, "passe");
  }

  /** Where `de` and `passe` are when `KeywordEnd` matched `mot\s+de\s+passe` at `i`. */
  lemma MotKeywordEnd(s: string, i: nat) returns (j: nat, k: nat)
    requires i <= |s| && KeywordEnd(s, i) >= 0
    requires !WordAt(s, i, "password") && !WordAt(s, i, "mdp") && !WordAt(s, i, "pwd")
    ensures i + 3 < j && j + 2 < k && KeywordEnd(s, i) == k + 5 <= |s|
    ensures SpaceEnd(s, i + 3) == j && SpaceEnd(s, j + 2) == k
    ensures WordAt(s, i, "mot") && WordAt(s, j, "de") && WordAt(s, k, "passe")
  {
    j := SpaceEnd(s, i + 3);
    k := SpaceEnd(s, j + 2);
  }

  /** A case-insensitive word found in the whole is found at the same place in a slice. */
  lemma WordAtSub(s: string, i: nat, e: nat, off: nat, word: string)
    requires forall t :: 0 <= t < |word| ==> 'a' <= word[t] <= 'z'
    requires i + off + |word| <= e <= |s| && WordAt(s, i + off, word)
    ensures WordAt(s[i..e], off, word)
  {
    forall t | 0 <= t < |word| ensures SameLetter(s[i..e][off + t], word[t]) {
      assert s[i..e][off + t] == s[i + off + t];
    }
  }

  /** The run of spaces that `SpaceEnd` skips, seen in a slice. */
  lemma SpaceSub(s: string, i: nat, e: nat, from: nat, to: nat)
    requires i + from <= i + to <= e <= |s| && SpaceEnd(s, i + from) == i + to
    ensures forall t :: from <= t < to ==> IsSpace(s[i..e][t])
  {
    forall t | from <= t < to ensures IsSpace(s[i..e][t]) {
      assert s[i..e][t] == s[i + t];
    }
  }

  /** Keyword, optional spaces, `:` or `=`, optional spaces and a character that is not a space. */
  predicate PasswordShape(line: string, pre: string, kw: string, a1: string, sep: char, a2: string, c: char, rest: string)
  {
    && Keyword(kw) && AllSpace(a1) && AllSpace(a2) && (sep == ':' || sep == '=') && !IsSpace(c)
    && line == pre + kw + (a1 + [sep] + a2 + [c]) + rest
  }

  lemma ValueFollowsOf(s: string, e: nat, a1: string, sep: char, a2: string, c: char)
    requires AllSpace(a1) && AllSpace(a2) && (sep == ':' || sep == '=') && !IsSpace(c)
    requires e + |a1| + |a2| + 2 <= |s| && s[e..e + |a1| + |a2| + 2] == a1 + [sep] + a2 + [c]
    ensures ValueFollows(s, e)
  {
    var k := e + |a1|;
    ValueChars(s, e, a1, sep, a2, c);
    SpaceEndOver(s, e, |a1|);
    SpaceEndOver(s, k + 1, |a2|);
  }

  lemma ValueChars(s: string, e: nat, a1: string, sep: char, a2: string, c: char)
    requires AllSpace(a1) && AllSpace(a2)
    requires e + |a1| + |a2| + 2 <= |s| && s[e..e + |a1| + |a2| + 2] == a1 + [sep] + a2 + [c]
    ensures var k := e + |a1|;
            && (forall j :: e <= j < k ==> IsSpace(s[j]))
            && s[k] == sep
            && (forall j :: k + 1 <= j < k + 1 + |a2| ==> IsSpace(s[j]))
            && s[k + 1 + |a2|] == c
  {
    var k := e + |a1|;
    var w := a1 + [sep] + a2 + [c];
    assert forall j :: e <= j < k ==> s[j] == w[j - e] == a1[j - e];
    assert s[k] == w[|a1|] == sep;
    assert forall j :: k + 1 <= j < k + 1 + |a2| ==> s[j] == w[j - e] == a2[j - k - 1];
    assert s[k + 1 + |a2|] == w[|a1| + 1 + |a2|] == c;
  }

  /**
   * A line holding a keyword, optional spaces, `:` or `=`, optional spaces and a
   * character that is not a space is flagged, whatever comes before and after.
   */
  lemma PasswordComplete(pre: string, kw: string, a1: string, sep: char, a2: string, c: char, rest: string)
    requires Keyword(kw) && AllSpace(a1) && AllSpace(a2)
    requires sep == ':' || sep == '='
    requires !IsSpace(c)
    ensures DetectPasswordInLine(pre + kw + (a1 + [sep] + a2 + [c]) + rest)
  {
    var w := a1 + [sep] + a2 + [c];
    var s := pre + kw + w + rest;
    ConcatSlices(pre, kw, w, rest);
    KeywordAtComplete(s, |pre|, kw, a1, sep, a2, c);
  }

  lemma ConcatSlices(pre: string, kw: string, w: string, rest: string)
    ensures var s := pre + kw + w + rest;
            && s[|pre|..|pre| + |kw|] == kw
            && s[|pre| + |kw|..|pre| + |kw| + |w|] == w
  {
  }

  lemma KeywordAtComplete(s: string, i: nat, kw: string, a1: string, sep: char, a2: string, c: char)
    requires Keyword(kw) && AllSpace(a1) && AllSpace(a2) && (sep == ':' || sep == '=') && !IsSpace(c)
    requires i + |kw| + |a1| + |a2| + 2 <= |s| && s[i..i + |kw|] == kw
    requires s[i + |kw|..i + |kw| + |a1| + |a2| + 2] == a1 + [sep] + a2 + [c]
    ensures i < |s| && PasswordAt(s, i)
  {
    ValueFollowsOf(s, i + |kw|, a1, sep, a2, c);
    if ShortKeyword(kw) {
      ShortKeywordEnd(s, i, kw);
    } else {
      var j: nat, k: nat :| LongKeywordAt(kw, j, k);
      LongKeywordEnd(s, i, kw, j, k);
    }
  }

  /** A flagged line has the shape of the two patterns somewhere in it. */
  lemma PasswordSound(line: string)
    requires DetectPasswordInLine(line)
    ensures exists pre, kw, a1, sep, a2, c, rest :: PasswordShape(line, pre, kw, a1, sep, a2, c, rest)
  {
    var i :| 0 <= i < |line| && PasswordAt(line, i);
    var pre, kw, a1, sep, a2, c, rest := ShapeAt(line, i);
  }

  /** The pieces of a line that the patterns match at `i`. */
  lemma ShapeAt(line: string, i: nat) returns (pre: string, kw: string, a1: string, sep: char, a2: string, c: char, rest: string)
    requires i <= |line| && PasswordAt(line, i)
    ensures PasswordShape(line, pre, kw, a1, sep, a2, c, rest)
  {
    var e := KeywordEnd(line, i);
    KeywordSound(line, i);
    var k, k2 := ValueSplit(line, e);
    ValueParts(line, i, e, k, k2);
    pre, kw, a1, sep, a2, c, rest := line[..i], line[i..e], line[e..k], line[k], line[k + 1..k2], line[k2], line[k2 + 1..];
  }

  /** Where the separator and the first character of the value are, when a value follows `e`. */
  lemma ValueSplit(line: string, e: nat) returns (k: nat, k2: nat)
    requires e <= |line| && ValueFollows(line, e)
    ensures e <= k < k2 < |line| && (line[k] == ':' || line[k] == '=') && !IsSpace(line[k2])
    ensures AllSpace(line[e..k]) && AllSpace(line[k + 1..k2])
  {
    k := SpaceEnd(line, e);
    k2 := SpaceEnd(line, k + 1);
    var a1, a2 := line[e..k], line[k + 1..k2];
    assert forall t :: 0 <= t < |a1| ==> a1[t] == line[e + t];
    assert forall t :: 0 <= t < |a2| ==> a2[t] == line[k + 1 + t];
  }

  lemma ValueParts(line: string, i: nat, e: nat, k: nat, k2: nat)
    requires i <= e <= k < k2 < |line|
    ensures line == line[..i] + line[i..e] + (line[e..k] + [line[k]] + line[k + 1..k2] + [line[k2]]) + line[k2 + 1..]
  {
    var w := line[e..k] + [line[k]] + line[k + 1..k2] + [line[k2]];
    assert w == line[e..k2 + 1];
    assert line == line[..i] + line[i..e] + line[e..k2 + 1] + line[k2 + 1..];
  }

  /** A line without `:` and `=` is never flagged. */
  lemma NoSeparatorNoPassword(line: string)
    requires ':' !in line && '=' !in line
    ensures !DetectPasswordInLine(line)
  {
    forall i | 0 <= i < |line| ensures !PasswordAt(line, i) {
      var e := KeywordEnd(line, i);
      if e >= 0 {
        var k := SpaceEnd(line, e);
        assert k < |line| ==> line[k] in line;
      }
    }
  }

  lemma PasswordWithValue()
    ensures DetectPasswordInLine("password: hunter2")
  {
    var s := "password: hunter2";
    assert WordAt(s, 0, "password");
    assert SpaceEnd(s, 8) == 8;
    assert SpaceEnd(s, 10) == 10 by { assert SpaceEnd(s, 9) == 10; }
    assert PasswordAt(s, 0);
  }

  lemma PasswordWithoutValue()
    ensures !DetectPasswordInLine("The password policy requires...")
  {
    NoSeparatorNoPassword("The password policy requires...");
  }
}
