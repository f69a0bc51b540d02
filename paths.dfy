/**
 * The POSIX flavour of Node's `path` module as the migration uses it:
 * `normalize`, two-argument `join`, `basename` and `dirname`.
 * `normalize` collapses empty and `.` segments and resolves `..` against the segment
 * before it; a relative path keeps the `..` segments that climb above its start.
 */
module Paths {
  import opened Text

  /** A directory-entry name as a directory listing returns it. */
  predicate IsName(n: string)
  {
    n != "" && '/' !in n && n != "." && n != ".."
  }

  /** `..` resolution over the segments, left to right. */
  function Resolve(parts: seq<string>, allowAboveRoot: bool): seq<string>
    decreases |parts|
  {
    if parts == [] then []
    else
      var acc := Resolve(parts[..|parts| - 1], allowAboveRoot);
      var seg := parts[|parts| - 1];
      if seg == "" || seg == "." then acc
      else if seg == ".." then
        if acc != [] && acc[|acc| - 1] != ".." then acc[..|acc| - 1]
        else if allowAboveRoot then acc + [".."]
        else acc
      else acc + [seg]
  }

  /** Segments of a normalized path: no empty, `.` or `/`-holding segment, `..` only as a leading run. */
  predicate Canonical(segs: seq<string>, allowAboveRoot: bool)
  {
    && (forall k :: 0 <= k < |segs| ==> segs[k] != "" && segs[k] != "." && '/' !in segs[k])
    && (forall i, j :: 0 <= i < j < |segs| && segs[j] == ".." ==> segs[i] == "..")
    && (!allowAboveRoot ==> forall k :: 0 <= k < |segs| ==> segs[k] != "..")
  }

  /** Writes segments back as a path. */
  function Render(isAbsolute: bool, segs: seq<string>, trailingSeparator: bool): string
  {
    var body := JoinWith(segs, '/');
    if body == "" then (if isAbsolute then "/" else if trailingSeparator then "./" else ".")
    else (if isAbsolute then "/" else "") + body + (if trailingSeparator then "/" else "")
  }

  predicate IsAbsolute(p: string)
  {
    p != "" && p[0] == '/'
  }

  /** The resolved segments of `p`. */
  function Segments(p: string): seq<string>
  {
    Resolve(SplitOn(p, '/'), !IsAbsolute(p))
  }

  /** `path.normalize(p)`. */
  function Normalize(p: string): string
  {
    if p == "" then "."
    else Render(IsAbsolute(p), Segments(p), p[|p| - 1] == '/')
  }

  /** `path.join(a, b)`: the non-empty arguments joined by `/`, then normalized. */
  function Join(a: string, b: string): string
  {
    Normalize(if a == "" then b else if b == "" then a else a + "/" + b)
  }

  /** `p` without its trailing `/` characters. */
  function TrimTrailingSlashes(p: string): string
    decreases |p|
  {
    if p != [] && p[|p| - 1] == '/' then TrimTrailingSlashes(p[..|p| - 1]) else p
  }

  /** The text after the last `/` of `p`. */
  function AfterLastSlash(p: string): (r: string)
    ensures '/' !in r
    decreases |p|
  {
    if p == [] || p[|p| - 1] == '/' then [] else AfterLastSlash(p[..|p| - 1]) + [p[|p| - 1]]
  }

  /** `path.basename(p)`: the last segment, trailing separators ignored. */
  function Basename(p: string): string
  {
    AfterLastSlash(TrimTrailingSlashes(p))
  }

  /** Node's `dirname` scan from the end down to index 1: trailing `/`, then a name. */
  function SkipSlashes(p: string, i: int): (e: int)
    requires i < |p|
    ensures e == -1 || (1 <= e <= i && p[e] == '/')
    decreases i
  {
    if i < 1 then -1 else if p[i] == '/' then SkipSlashes(p, i - 1) else SkipName(p, i - 1)
  }

  function SkipName(p: string, i: int): (e: int)
    requires i < |p|
    ensures e == -1 || (1 <= e <= i && p[e] == '/')
    decreases i
  {
    if i < 1 then -1 else if p[i] == '/' then i else SkipName(p, i - 1)
  }

  /** `path.dirname(p)`. */
  function Dirname(p: string): string
  {
    if p == "" then "."
    else
      var hasRoot := p[0] == '/';
      var e := SkipSlashes(p, |p| - 1);
      if e == -1 then (if hasRoot then "/" else ".")
      else if hasRoot && e == 1 then "//"
      else p[..e]
  }

  // ---------------------------------------------------------------------------------------
  // Resolution yields canonical segments, and is the identity on them.

  lemma {:induction false} ResolveCanonical(parts: seq<string>, allowAboveRoot: bool)
    requires forall k :: 0 <= k < |parts| ==> '/' !in parts[k]
    ensures Canonical(Resolve(parts, allowAboveRoot), allowAboveRoot)
    decreases |parts|
  {
    if parts != [] {
      ResolveCanonical(parts[..|parts| - 1], allowAboveRoot);
    }
  }

  lemma {:induction false} ResolveIdentity(segs: seq<string>, allowAboveRoot: bool)
    requires Canonical(segs, allowAboveRoot)
    ensures Resolve(segs, allowAboveRoot) == segs
    decreases |segs|
  {
    if segs != [] {
      var init := segs[..|segs| - 1];
      assert Canonical(init, allowAboveRoot);
      ResolveIdentity(init, allowAboveRoot);
      if segs[|segs| - 1] == ".." && init != [] {
        assert init[|init| - 1] == "..";
      }
    }
  }

  lemma {:induction false} ResolveLeadingEmpty(parts: seq<string>, allowAboveRoot: bool)
    ensures Resolve([""] + parts, allowAboveRoot) == Resolve(parts, allowAboveRoot)
    decreases |parts|
  {
    if parts != [] {
      var init := parts[..|parts| - 1];
      assert ([""] + parts)[..|parts|] == [""] + init;
      ResolveLeadingEmpty(init, allowAboveRoot);
    }
  }

  lemma ResolveTrailingEmpty(parts: seq<string>, allowAboveRoot: bool)
    ensures Resolve(parts + [""], allowAboveRoot) == Resolve(parts, allowAboveRoot)
  {
    assert (parts + [""])[..|parts|] == parts;
  }

  lemma ResolveAppendName(parts: seq<string>, n: string, allowAboveRoot: bool)
    requires IsName(n)
    ensures Resolve(parts + [n], allowAboveRoot) == Resolve(parts, allowAboveRoot) + [n]
  {
    assert (parts + [n])[..|parts|] == parts;
  }

  // ---------------------------------------------------------------------------------------
  // Reading a rendered path back.

  lemma {:induction false} JoinWithCons(x: string, xs: seq<string>, sep: char)
    requires |xs| >= 1
    ensures JoinWith([x] + xs, sep) == x + [sep] + JoinWith(xs, sep)
    decreases |xs|
  {
    if |xs| > 1 {
      var init := xs[..|xs| - 1];
      assert ([x] + xs)[..|xs|] == [x] + init;
      JoinWithCons(x, init, sep);
    }
  }

  lemma {:induction false} JoinWithFirst(xs: seq<string>, sep: char)
    requires |xs| >= 1 && xs[0] != ""
    ensures JoinWith(xs, sep) != "" && JoinWith(xs, sep)[0] == xs[0][0]
    decreases |xs|
  {
    if |xs| > 1 {
      JoinWithFirst(xs[..|xs| - 1], sep);
    }
  }

  lemma JoinWithLast(xs: seq<string>, sep: char)
    requires |xs| >= 1 && xs[|xs| - 1] != ""
    ensures JoinWith(xs, sep) != ""
    ensures JoinWith(xs, sep)[|JoinWith(xs, sep)| - 1] == xs[|xs| - 1][|xs[|xs| - 1]| - 1]
  {
  }

  /** The parts that splitting a rendered non-empty path at `/` gives. */
  function RenderedParts(isAbsolute: bool, segs: seq<string>, trailingSeparator: bool): seq<string>
  {
    (if isAbsolute then [""] else []) + segs + (if trailingSeparator then [""] else [])
  }

  lemma RenderedPartsJoin(isAbsolute: bool, segs: seq<string>, trailingSeparator: bool)
    requires |segs| >= 1 && segs[0] != ""
    ensures JoinWith(RenderedParts(isAbsolute, segs, trailingSeparator), '/')
            == Render(isAbsolute, segs, trailingSeparator)
  {
    JoinWithFirst(segs, '/');
    var withRoot := (if isAbsolute then [""] else []) + segs;
    if isAbsolute {
      JoinWithCons("", segs, '/');
    } else {
      assert withRoot == segs;
    }
    if trailingSeparator {
      assert RenderedParts(isAbsolute, segs, trailingSeparator) == withRoot + [""];
      assert (withRoot + [""])[..|withRoot|] == withRoot;
    } else {
      assert RenderedParts(isAbsolute, segs, trailingSeparator) == withRoot;
    }
  }

  /** A path rendered from canonical segments parses back to the same flags and segments. */
  lemma RenderParse(isAbsolute: bool, segs: seq<string>, trailingSeparator: bool)
    requires |segs| >= 1 && Canonical(segs, !isAbsolute)
    ensures var r := Render(isAbsolute, segs, trailingSeparator);
            && r != ""
            && IsAbsolute(r) == isAbsolute
            && (r[|r| - 1] == '/') == trailingSeparator
            && Segments(r) == segs
  {
    RenderSplit(isAbsolute, segs, trailingSeparator);
    ResolveRendered(isAbsolute, segs, trailingSeparator);
  }

  /** A rendered path splits at `/` into its parts, and its first and last characters give its flags. */
  lemma RenderSplit(isAbsolute: bool, segs: seq<string>, trailingSeparator: bool)
    requires |segs| >= 1 && Canonical(segs, !isAbsolute)
    ensures var r := Render(isAbsolute, segs, trailingSeparator);
            && r != ""
            && IsAbsolute(r) == isAbsolute
            && (r[|r| - 1] == '/') == trailingSeparator
            && SplitOn(r, '/') == RenderedParts(isAbsolute, segs, trailingSeparator)
  {
    var r := Render(isAbsolute, segs, trailingSeparator);
    var parts := RenderedParts(isAbsolute, segs, trailingSeparator);
    JoinWithFirst(segs, '/');
    JoinWithLast(segs, '/');
    RenderedPartsJoin(isAbsolute, segs, trailingSeparator);
    assert forall k :: 0 <= k < |parts| ==> '/' !in parts[k];
    SplitJoin(parts, '/');
  }

  /** Resolving the parts of a rendered path gives its segments back. */
  lemma ResolveRendered(isAbsolute: bool, segs: seq<string>, trailingSeparator: bool)
    requires |segs| >= 1 && Canonical(segs, !isAbsolute)
    ensures Resolve(RenderedParts(isAbsolute, segs, trailingSeparator), !isAbsolute) == segs
  {
    var parts := RenderedParts(isAbsolute, segs, trailingSeparator);
    var withRoot := (if isAbsolute then [""] else []) + segs;
    if trailingSeparator {
      assert parts == withRoot + [""];
      ResolveTrailingEmpty(withRoot, !isAbsolute);
    } else {
      assert parts == withRoot;
    }
    if isAbsolute {
      ResolveLeadingEmpty(segs, !isAbsolute);
    } else {
      assert withRoot == segs;
    }
    ResolveIdentity(segs, !isAbsolute);
  }


  /** The three results of normalizing a path with no segment left are fixed points. */
  lemma NormalizeRoot()
    ensures Normalize("/") == "/"
  {
    SplitAppendSep("", '/');
    assert "" + "/" == "/";
    assert SplitOn("/", '/') == ["", ""];
    assert Resolve(["", ""], false) == [] by { assert ["", ""][..1] == [""]; assert [""][..0] == []; }
  }

  lemma NormalizeDot()
    ensures Normalize(".") == "."
  {
    SplitAppend("", ".", '/');
    assert "" + "." == ".";
    assert SplitOn(".", '/') == ["."];
    assert Resolve(["."], true) == [] by { assert ["."][..0] == []; }
  }

  lemma NormalizeDotSlash()
    ensures Normalize("./") == "./"
  {
    SplitAppend("", ".", '/');
    assert "" + "." == ".";
    assert SplitOn(".", '/') == ["."];
    SplitAppendSep(".", '/');
    assert SplitOn("./", '/') == [".", ""];
    assert Resolve(["."], true) == [] by { assert ["."][..0] == []; }
    assert Resolve([".", ""], true) == [] by { assert [".", ""][..1] == ["."]; }
  }

  /** `path.normalize` is idempotent. */
  lemma NormalizeIdempotent(p: string)
    ensures Normalize(Normalize(p)) == Normalize(p)
  {
    if p == "" {
      NormalizeDot();
    } else {
      var segs := Segments(p);
      var trailing := p[|p| - 1] == '/';
      if segs != [] {
        SegmentsCanonical(p);
        RenderParse(IsAbsolute(p), segs, trailing);
      } else {
        NormalizeEmptySegments(IsAbsolute(p), trailing);
      }
    }
  }

  lemma NormalizeEmptySegments(isAbsolute: bool, trailing: bool)
    ensures var r := Render(isAbsolute, [], trailing); Normalize(r) == r
  {
    if isAbsolute {
      NormalizeRoot();
    } else if trailing {
      NormalizeDotSlash();
    } else {
      NormalizeDot();
    }
  }

  // ---------------------------------------------------------------------------------------
  // Joining a directory-entry name.

  /** `join(d, n)` for an entry name: the segments of `d` followed by `n`, never a trailing `/`. */
  lemma JoinName(d: string, n: string)
    requires IsName(n)
    ensures Join(d, n) == Render(IsAbsolute(d), Segments(d) + [n], false)
  {
    if d == "" {
      JoinNameEmpty(n);
    } else {
      JoinNameNonEmpty(d, n);
    }
  }

  lemma JoinNameEmpty(n: string)
    requires IsName(n)
    ensures Join("", n) == Render(false, Segments("") + [n], false)
  {
    SegmentsEmpty();
    SegmentsName(n);
    assert n[|n| - 1] != '/' by { assert n[|n| - 1] in n; }
    assert !IsAbsolute(n) by { assert n[0] in n; }
  }

  /** An entry name is a single relative segment. */
  lemma SegmentsName(n: string)
    requires IsName(n)
    ensures Segments(n) == [n]
  {
    SplitNoSep(n, '/');
    assert !IsAbsolute(n) by { assert n[0] in n; }
    assert [n][..0] == [];
    assert Resolve([n], true) == Resolve([], true) + [n];
  }

  lemma SegmentsEmpty()
    ensures Segments("") == []
  {
    assert SplitOn("", '/') == [""];
    assert Resolve([""], true) == [] by { assert [""][..0] == []; }
  }

  lemma JoinNameNonEmpty(d: string, n: string)
    requires IsName(n) && d != ""
    ensures Join(d, n) == Render(IsAbsolute(d), Segments(d) + [n], false)
  {
    var s := d + "/" + n;
    assert Join(d, n) == Normalize(s);
    SplitAppendSep(d, '/');
    SplitAppend(d + "/", n, '/');
    var sp := SplitOn(d, '/');
    assert SplitOn(s, '/') == sp + [n] by {
      assert (sp + [""])[..|sp|] == sp;
      assert "" + n == n;
    }
    ResolveAppendName(sp, n, !IsAbsolute(d));
    assert IsAbsolute(s) == IsAbsolute(d);
    assert s[|s| - 1] == n[|n| - 1];
  }

  lemma SegmentsCanonical(p: string)
    ensures Canonical(Segments(p), !IsAbsolute(p))
  {
    assert forall k :: 0 <= k < |SplitOn(p, '/')| ==> '/' !in SplitOn(p, '/')[k];
    ResolveCanonical(SplitOn(p, '/'), !IsAbsolute(p));
  }

  /** Joining a name adds exactly that segment and keeps the path absolute or relative. */
  lemma JoinNameSegments(d: string, n: string)
    requires IsName(n)
    ensures IsAbsolute(Join(d, n)) == IsAbsolute(d)
    ensures Segments(Join(d, n)) == Segments(d) + [n]
  {
    JoinName(d, n);
    SegmentsCanonical(d);
    var segs := Segments(d) + [n];
    assert Canonical(segs, !IsAbsolute(d));
    RenderParse(IsAbsolute(d), segs, false);
  }

  /** The basename of `join(d, n)` is the name. */
  lemma BasenameJoin(d: string, n: string)
    requires IsName(n)
    ensures Basename(Join(d, n)) == n
  {
    JoinName(d, n);
    var pre := RenderLast(IsAbsolute(d), Segments(d), n);
    var r := Join(d, n);
    assert TrimTrailingSlashes(r) == r;
    AfterLastSlashSuffix(pre, n);
  }

  /** A path rendered with a last segment `n` and no trailing `/` is a prefix ending in `/` (or empty), then `n`. */
  lemma RenderLast(isAbsolute: bool, segs: seq<string>, n: string) returns (pre: string)
    requires n != ""
    ensures Render(isAbsolute, segs + [n], false) == pre + n
    ensures pre == [] || pre[|pre| - 1] == '/'
  {
    var body := JoinWith(segs + [n], '/');
    JoinWithLast(segs + [n], '/');
    if segs == [] {
      assert body == n;
      pre := if isAbsolute then "/" else "";
    } else {
      JoinLast(segs + [n], '/');
      assert (segs + [n])[..|segs|] == segs;
      assert body == JoinWith(segs, '/') + "/" + n;
      pre := (if isAbsolute then "/" else "") + JoinWith(segs, '/') + "/";
    }
  }

  lemma {:induction false} AfterLastSlashSuffix(pre: string, n: string)
    requires '/' !in n
    requires pre == [] || pre[|pre| - 1] == '/'
    ensures AfterLastSlash(pre + n) == n
    decreases |n|
  {
    if n == [] {
      assert pre + n == pre;
    } else {
      var n' := n[..|n| - 1];
      assert (pre + n)[..|pre + n| - 1] == pre + n';
      AfterLastSlashSuffix(pre, n');
      assert n' + [n[|n| - 1]] == n;
    }
  }

  lemma NameSuffix(n: string, suffix: string)
    requires IsName(n) && '/' !in suffix
    ensures IsName(n + suffix)
  {
    if suffix != "" {
      assert (n + suffix)[|n|..] == suffix;
    } else {
      assert n + suffix == n;
    }
    forall k | 0 <= k < |n + suffix| ensures (n + suffix)[k] != '/' {
      if k < |n| { assert (n + suffix)[k] == n[k]; } else { assert (n + suffix)[k] == suffix[k - |n|]; }
    }
  }

  lemma JoinWithLastSuffix(segs: seq<string>, x: string, suffix: string, sep: char)
    ensures JoinWith(segs + [x], sep) + suffix == JoinWith(segs + [x + suffix], sep)
  {
    if segs != [] {
      assert (segs + [x])[..|segs|] == segs;
      assert (segs + [x + suffix])[..|segs|] == segs;
    }
  }

  /** The key `join(d, D) + ".md"` is the path `join(d, D + ".md")` of the folder's sibling file. */
  lemma JoinNameSuffix(d: string, n: string, suffix: string)
    requires IsName(n) && '/' !in suffix
    ensures IsName(n + suffix)
    ensures Join(d, n) + suffix == Join(d, n + suffix)
  {
    NameSuffix(n, suffix);
    JoinName(d, n);
    JoinName(d, n + suffix);
    RenderSuffix(IsAbsolute(d), Segments(d), n, suffix);
  }

  lemma RenderSuffix(isAbsolute: bool, segs: seq<string>, n: string, suffix: string)
    requires n != ""
    ensures Render(isAbsolute, segs + [n], false) + suffix == Render(isAbsolute, segs + [n + suffix], false)
  {
    var j1 := JoinWith(segs + [n], '/');
    var j2 := JoinWith(segs + [n + suffix], '/');
    JoinWithLastSuffix(segs, n, suffix, '/');
    JoinWithLast(segs + [n], '/');
    assert j1 != "" && j2 != "";
    var root := if isAbsolute then "/" else "";
    assert Render(isAbsolute, segs + [n], false) == root + j1 + "";
    assert Render(isAbsolute, segs + [n + suffix], false) == root + j2 + "";
    AppendAfter(root, j1, suffix, j2);
  }

  lemma AppendAfter(root: string, j1: string, suffix: string, j2: string)
    requires j1 + suffix == j2
    ensures root + j1 + "" + suffix == root + j2 + ""
  {
    assert root + j1 + "" + suffix == root + (j1 + suffix);
  }

  /** Two names joined to the same directory give the same path only if they are equal. */
  lemma JoinNameInjective(d: string, a: string, b: string)
    requires IsName(a) && IsName(b)
    requires Join(d, a) == Join(d, b)
    ensures a == b
  {
    JoinNameSegments(d, a);
    JoinNameSegments(d, b);
    assert Segments(d) + [a] == Segments(d) + [b];
    assert (Segments(d) + [a])[|Segments(d)|] == a;
  }
}
