/**
 * `String.prototype.replace` with a string pattern: only the first occurrence is replaced,
 * and the replacement string is scanned for `$` patterns (GetSubstitution in ECMAScript,
 * with no capture groups).
 */
module Replace {
  import opened Wrappers

  predicate OccursAt(s: string, pat: string, j: nat)
  {
    j + |pat| <= |s| && s[j..j + |pat|] == pat
  }

  function IndexFrom(s: string, pat: string, j: nat): (r: Option<nat>)
    requires j <= |s|
    ensures r.Some? ==> j <= r.value && OccursAt(s, pat, r.value)
    ensures r.Some? ==> forall k :: j <= k < r.value ==> !OccursAt(s, pat, k)
    ensures r.None? ==> forall k :: j <= k <= |s| ==> !OccursAt(s, pat, k)
    decreases |s| - j
  {
    if OccursAt(s, pat, j) then Some(j)
    else if j == |s| then None
    else IndexFrom(s, pat, j + 1)
  }

  /** `s.indexOf(pat)`: the first occurrence, if any. */
  function IndexOf(s: string, pat: string): (r: Option<nat>)
    ensures r.Some? ==> OccursAt(s, pat, r.value) && forall k :: 0 <= k < r.value ==> !OccursAt(s, pat, k)
    ensures r.None? ==> forall k :: 0 <= k <= |s| ==> !OccursAt(s, pat, k)
  {
    IndexFrom(s, pat, 0)
  }

  /**
   * GetSubstitution with no capture groups: `$$` is `$`, `` $& `` the match, `` $` `` the text
   * before it and `$'` the text after it; any other `$` stands for itself.
   */
  function Substitution(matched: string, before: string, after: string, repl: string): string
    decreases |repl|
  {
    if repl == [] then []
    else if repl[0] == '$' && |repl| >= 2 && repl[1] == '$' then "$" + Substitution(matched, before, after, repl[2..])
    else if repl[0] == '$' && |repl| >= 2 && repl[1] == '&' then matched + Substitution(matched, before, after, repl[2..])
    else if repl[0] == '$' && |repl| >= 2 && repl[1] == '`' then before + Substitution(matched, before, after, repl[2..])
    else if repl[0] == '$' && |repl| >= 2 && repl[1] == '\'' then after + Substitution(matched, before, after, repl[2..])
    else [repl[0]] + Substitution(matched, before, after, repl[1..])
  }

  /** `s.replace(pat, repl)` with `pat` and `repl` strings. */
  function ReplaceFirst(s: string, pat: string, repl: string): string
  {
    match IndexOf(s, pat)
    case None => s
    case Some(i) => s[..i] + Substitution(pat, s[..i], s[i + |pat|..], repl) + s[i + |pat|..]
  }

  /** The first occurrence of `pat` replaced by `repl` taken literally. */
  function ReplaceFirstLiteral(s: string, pat: string, repl: string): (r: string)
    ensures IndexOf(s, pat).None? ==> r == s
    ensures IndexOf(s, pat).Some? ==>
      var i := IndexOf(s, pat).value;
      |r| == |s| - |pat| + |repl| && r[..i] == s[..i] && r[i..i + |repl|] == repl && r[i + |repl|..] == s[i + |pat|..]
  {
    match IndexOf(s, pat)
    case None => s
    case Some(i) => s[..i] + repl + s[i + |pat|..]
  }

  /** A replacement without `$` is taken literally. */
  lemma {:induction false} SubstitutionPlain(matched: string, before: string, after: string, repl: string)
    requires '$' !in repl
    ensures Substitution(matched, before, after, repl) == repl
    decreases |repl|
  {
    if repl != [] {
      SubstitutionPlain(matched, before, after, repl[1..]);
      assert [repl[0]] + repl[1..] == repl;
    }
  }

  lemma ReplaceFirstPlain(s: string, pat: string, repl: string)
    requires '$' !in repl
    ensures ReplaceFirst(s, pat, repl) == ReplaceFirstLiteral(s, pat, repl)
  {
    if IndexOf(s, pat).Some? {
      var i := IndexOf(s, pat).value;
      SubstitutionPlain(pat, s[..i], s[i + |pat|..], repl);
    }
  }

  /** Replacing an occurrence by itself, literally, changes nothing. */
  lemma ReplaceLiteralSelf(s: string, pat: string)
    ensures ReplaceFirstLiteral(s, pat, pat) == s
  {
    if IndexOf(s, pat).Some? {
      var i := IndexOf(s, pat).value;
      assert s[i..i + |pat|] == pat;
      assert s == s[..i] + s[i..i + |pat|] + s[i + |pat|..];
    }
  }

  /** The first occurrence sits after a prefix in which the pattern does not start. */
  lemma ReplaceLiteralAt(pre: string, pat: string, post: string, repl: string)
    requires forall k :: 0 <= k < |pre| ==> !OccursAt(pre + pat + post, pat, k)
    ensures ReplaceFirstLiteral(pre + pat + post, pat, repl) == pre + repl + post
  {
    var s := pre + pat + post;
    assert OccursAt(s, pat, |pre|) by { assert s[|pre|..|pre| + |pat|] == pat; }
    var i := IndexOf(s, pat).value;
    assert i == |pre|;
    assert s[..i] == pre && s[i + |pat|..] == post;
  }

  /** The same, for a text known to be made of the three parts. */
  lemma ReplaceLiteralIn(s: string, pre: string, pat: string, post: string, repl: string)
    requires s == pre + pat + post
    requires forall k :: 0 <= k < |pre| ==> !OccursAt(s, pat, k)
    ensures ReplaceFirstLiteral(s, pat, repl) == pre + repl + post
  {
    ReplaceLiteralAt(pre, pat, post, repl);
  }

  /** Replacing a whole text: the replacement is expanded with nothing before or after. */
  lemma ReplaceWhole(s: string, repl: string)
    ensures ReplaceFirst(s, s, repl) == Substitution(s, "", "", repl)
  {
    IndexOfWhole(s);
    assert s[..0] == [] && s[|s|..] == [];
  }

  lemma IndexOfWhole(s: string)
    ensures IndexOf(s, s) == Some(0)
  {
    assert OccursAt(s, s, 0);
  }

  /** Replacing `$$` by itself with `replace` gives `$`: the `$` patterns make it change. */
  lemma DollarSelfReplace()
    ensures ReplaceFirst("$$", "$$", "$$") == "$"
  {
    assert OccursAt("$$", "$$", 0);
    assert IndexOf("$$", "$$") == Some(0);
    assert "$$"[2..] == [];
    assert Substitution("$$", "", "", "$$") == "$" + Substitution("$$", "", "", "");
  }
}
