/**
 * Internal links: the `\[([^\]]+)\]\(([^)]+)\)` scan, the classification and normalisation
 * of link targets, the first-match page lookup, and the two link rewrites (the converter's
 * `processMarkdownLinks` and the older script's `replace` callback).
 */
module Links {
  import opened Wrappers
  import opened Text
  import opened Paths
  import opened UriEncoding
  import opened PageMaps
  import opened Replace

  // ---------------------------------------------------------------------------------------
  // The link pattern.

  datatype LinkMatch = LinkMatch(start: nat, text: string, url: string, end: nat)

  /** The markdown source of a link: `[text](url)`. */
  function LinkSource(text: string, url: string): string
  {
    "[" + text + "](" + url + ")"
  }

  /** A link the pattern accepts: non-empty text without `]`, non-empty target without `)`. */
  predicate WellFormed(text: string, url: string)
  {
    text != [] && url != [] && ']' !in text && ')' !in url
  }

  /** The first index from `i` holding `c`, or the end of `s`. */
  function RunUntil(s: string, i: nat, c: char): (e: nat)
    requires i <= |s|
    ensures i <= e <= |s| && (e == |s| || s[e] == c)
    ensures forall k :: i <= k < e ==> s[k] != c
    decreases |s| - i
  {
    if i == |s| || s[i] == c then i else RunUntil(s, i + 1, c)
  }

  /** A match of the link pattern starting at `i`. */
  function LinkAt(s: string, i: nat): (r: Option<LinkMatch>)
    requires i <= |s|
    ensures r.Some? ==> r.value.start == i && i < r.value.end <= |s|
    ensures r.Some? ==> WellFormed(r.value.text, r.value.url)
  {
    if i < |s| && s[i] == '[' then LinkAfterText(s, i, RunUntil(s, i + 1, ']')) else None
  }

  /** The rest of a match whose text runs from `i + 1` to the `]` (or the end) at `j`. */
  function LinkAfterText(s: string, i: nat, j: nat): (r: Option<LinkMatch>)
    requires i < j <= |s|
    requires forall m :: i + 1 <= m < j ==> s[m] != ']'
    ensures r.Some? ==> r.value.start == i && i < r.value.end <= |s|
    ensures r.Some? ==> WellFormed(r.value.text, r.value.url)
  {
    if j > i + 1 && j + 1 < |s| && s[j + 1] == '(' then LinkWithTarget(s, i, j, RunUntil(s, j + 2, ')'))
    else None
  }

  /** The match once the target runs from `j + 2` to the `)` (or the end) at `k`. */
  function LinkWithTarget(s: string, i: nat, j: nat, k: nat): (r: Option<LinkMatch>)
    requires i + 1 < j && j + 2 <= k <= |s|
    requires forall m :: i + 1 <= m < j ==> s[m] != ']'
    requires forall m :: j + 2 <= m < k ==> s[m] != ')'
    ensures r.Some? ==> r.value.start == i && i < r.value.end <= |s|
    ensures r.Some? ==> WellFormed(r.value.text, r.value.url)
    ensures r.Some? ==> r.value.text == s[i + 1..j] && r.value.url == s[j + 2..k] && r.value.end == k + 1
  {
    if k > j + 2 && k < |s| then
      var text := s[i + 1..j];
      var url := s[j + 2..k];
      assert forall t :: 0 <= t < |text| ==> text[t] == s[i + 1 + t];
      assert forall t :: 0 <= t < |url| ==> url[t] == s[j + 2 + t];
      Some(LinkMatch(i, text, url, k + 1))
    else None
  }

  /** What a match spans is the source of a link with its text and target. */
  lemma LinkAtSpan(s: string, i: nat)
    requires i <= |s| && LinkAt(s, i).Some?
    ensures var l := LinkAt(s, i).value; s[i..l.end] == LinkSource(l.text, l.url)
  {
    var j := RunUntil(s, i + 1, ']');
    assert LinkAt(s, i) == LinkAfterText(s, i, j);
    var k := RunUntil(s, j + 2, ')');
    assert LinkAfterText(s, i, j) == LinkWithTarget(s, i, j, k);
    LinkSourceSlices(s, i, j, k);
  }

  /** A `[`, a run, `](`, a run and `)` make the source of a link. */
  lemma LinkSourceSlices(s: string, i: nat, j: nat, k: nat)
    requires i < j && j + 2 <= k < |s|
    requires s[i] == '[' && s[j] == ']' && s[j + 1] == '(' && s[k] == ')'
    ensures s[i..k + 1] == LinkSource(s[i + 1..j], s[j + 2..k])
  {
    assert s[i..k + 1] == [s[i]] + s[i + 1..j] + [s[j], s[j + 1]] + s[j + 2..k] + [s[k]];
  }

  /** The matches of the global pattern from `i` on, left to right (`matchAll`). */
  function MatchAll(s: string, i: nat): seq<LinkMatch>
    requires i <= |s|
    decreases |s| - i
  {
    if i == |s| then []
    else match LinkAt(s, i)
      case Some(l) => [l] + MatchAll(s, l.end)
      case None => MatchAll(s, i + 1)
  }

  /** `matchAll` lists non-overlapping matches of the pattern from left to right. */
  lemma {:induction false} MatchAllChain(s: string, i: nat)
    requires i <= |s|
    ensures MatchChain(s, i, MatchAll(s, i))
    decreases |s| - i
  {
    if i < |s| {
      match LinkAt(s, i)
      case Some(l) =>
        MatchAllChain(s, l.end);
        assert ([l] + MatchAll(s, l.end))[1..] == MatchAll(s, l.end);
      case None =>
        MatchAllChain(s, i + 1);
    }
  }

  /**
   * `ms` lists, in order, matches found at or after `i`: each is the pattern's match at its own
   * start, and each starts at or after the end of the one before.
   */
  predicate MatchChain(s: string, i: nat, ms: seq<LinkMatch>)
    decreases |ms|
  {
    ms == [] || (i <= ms[0].start < |s| && LinkAt(s, ms[0].start) == Some(ms[0]) && MatchChain(s, ms[0].end, ms[1..]))
  }


  /** Where the text and the target sit in a link's source. */
  lemma LinkSourceChars(text: string, url: string)
    ensures var l := LinkSource(text, url);
            && |l| == |text| + |url| + 4
            && l[0] == '[' && l[|text| + 1] == ']' && l[|text| + 2] == '(' && l[|l| - 1] == ')'
            && (forall t :: 0 <= t < |text| ==> l[1 + t] == text[t])
            && (forall t :: 0 <= t < |url| ==> l[|text| + 3 + t] == url[t])
  {
  }

  /** The unfolding of `LinkAt` at the positions of `[`, `](` and `)`. */
  lemma LinkAtParts(s: string, i: nat, j: nat, k: nat)
    requires i + 1 < j && j + 2 < k < |s|
    requires s[i] == '[' && s[j] == ']' && s[j + 1] == '(' && s[k] == ')'
    requires forall m :: i + 1 <= m < j ==> s[m] != ']'
    requires forall m :: j + 2 <= m < k ==> s[m] != ')'
    ensures LinkAt(s, i) == Some(LinkMatch(i, s[i + 1..j], s[j + 2..k], k + 1))
  {
    RunUntilAt(s, i + 1, j, ']');
    RunUntilAt(s, j + 2, k, ')');
    assert LinkAt(s, i) == LinkAfterText(s, i, j) == LinkWithTarget(s, i, j, k);
  }

  /** Every well-formed link is matched where it starts. */
  lemma LinkAtSource(pre: string, text: string, url: string, post: string)
    requires WellFormed(text, url)
    ensures var s := pre + LinkSource(text, url) + post;
            LinkAt(s, |pre|) == Some(LinkMatch(|pre|, text, url, |pre| + |LinkSource(text, url)|))
  {
    var l := LinkSource(text, url);
    var s := pre + l + post;
    assert s[|pre|..|pre| + |l|] == l;
    LinkAtOccurrence(s, |pre|, text, url);
  }

  /** The same, for an occurrence of the link's source at `i`. */
  lemma LinkAtOccurrence(s: string, i: nat, text: string, url: string)
    requires WellFormed(text, url)
    requires i + |LinkSource(text, url)| <= |s| && s[i..i + |LinkSource(text, url)|] == LinkSource(text, url)
    ensures LinkAt(s, i) == Some(LinkMatch(i, text, url, i + |LinkSource(text, url)|))
  {
    LinkOccurrenceChars(s, i, text, url);
    LinkAtParts(s, i, i + 1 + |text|, i + 3 + |text| + |url|);
  }

  /** Where the delimiters, the text and the target of an occurrence of a link's source sit. */
  lemma LinkOccurrenceChars(s: string, i: nat, text: string, url: string)
    requires WellFormed(text, url)
    requires i + |LinkSource(text, url)| <= |s| && s[i..i + |LinkSource(text, url)|] == LinkSource(text, url)
    ensures var j := i + 1 + |text|; var k := j + 2 + |url|;
            && k + 1 == i + |LinkSource(text, url)|
            && s[i] == '[' && s[j] == ']' && s[j + 1] == '(' && s[k] == ')'
            && (forall m :: i + 1 <= m < j ==> s[m] != ']')
            && (forall m :: j + 2 <= m < k ==> s[m] != ')')
            && s[i + 1..j] == text && s[j + 2..k] == url
  {
    var l := LinkSource(text, url);
    LinkSourceChars(text, url);
    forall t | 0 <= t < |l|
      ensures s[i + t] == l[t]
    {
      assert s[i..i + |l|][t] == l[t];
    }
    var j := i + 1 + |text|;
    var k := j + 2 + |url|;
    assert s[i] == '[' && s[j] == ']' && s[j + 1] == '(' && s[k] == ')' by {
      assert s[i + 0] == l[0];
      assert s[i + (|text| + 1)] == l[|text| + 1];
      assert s[i + (|text| + 2)] == l[|text| + 2];
      assert s[i + (|l| - 1)] == l[|l| - 1];
    }
    forall t | 0 <= t < |text|
      ensures s[i + 1 + t] == text[t]
    {
      assert s[i + (1 + t)] == l[1 + t];
    }
    forall t | 0 <= t < |url|
      ensures s[j + 2 + t] == url[t]
    {
      assert s[i + (|text| + 3 + t)] == l[|text| + 3 + t];
    }
    assert s[i + 1..j] == text;
    assert s[j + 2..k] == url;
    forall m | i + 1 <= m < j
      ensures s[m] != ']'
    {
      assert s[i + 1 + (m - i - 1)] == text[m - i - 1];
    }
    forall m | j + 2 <= m < k
      ensures s[m] != ')'
    {
      assert s[j + 2 + (m - j - 2)] == url[m - j - 2];
    }
  }

  lemma {:induction false} RunUntilAt(s: string, i: nat, e: nat, c: char)
    requires i <= e < |s| && s[e] == c
    requires forall k :: i <= k < e ==> s[k] != c
    ensures RunUntil(s, i, c) == e
    decreases e - i
  {
    if i < e {
      RunUntilAt(s, i + 1, e, c);
    }
  }

  /** No match starts where there is no `[`. */
  lemma MatchAllSkip(s: string, i: nat, j: nat)
    requires i <= j <= |s|
    requires forall k :: i <= k < j ==> s[k] != '['
    ensures MatchAll(s, i) == MatchAll(s, j)
  {
    NextOpenPast(s, i, j);
    MatchAllToOpen(s, i, j);
  }

  /** The first `[` at or after `i`, or the end of `s`. */
  function NextOpen(s: string, i: nat): (r: nat)
    requires i <= |s|
    ensures i <= r <= |s| && (r < |s| ==> s[r] == '[')
    decreases |s| - i
  {
    if i == |s| || s[i] == '[' then i else NextOpen(s, i + 1)
  }

  lemma {:induction false} NextOpenPast(s: string, i: nat, j: nat)
    requires i <= j <= |s|
    requires forall k :: i <= k < j ==> s[k] != '['
    ensures j <= NextOpen(s, i)
    decreases j - i
  {
    if i < j {
      NextOpenPast(s, i + 1, j);
    }
  }

  lemma {:induction false} MatchAllToOpen(s: string, i: nat, j: nat)
    requires i <= |s| && i <= j <= NextOpen(s, i)
    ensures MatchAll(s, i) == MatchAll(s, j)
    decreases j - i
  {
    if i < j {
      MatchAllPlainStep(s, i);
      MatchAllToOpen(s, i + 1, j);
    }
  }

  lemma MatchAllPlainStep(s: string, i: nat)
    requires i < |s| && s[i] != '['
    ensures MatchAll(s, i) == MatchAll(s, i + 1)
  {
    assert LinkAt(s, i).None?;
  }

  /** A text with exactly one `[`, opening a well-formed link, has exactly that one match. */
  lemma MatchOneLink(pre: string, text: string, url: string, post: string)
    requires WellFormed(text, url) && '[' !in pre && '[' !in post
    ensures var s := pre + LinkSource(text, url) + post;
            MatchAll(s, 0) == [LinkMatch(|pre|, text, url, |pre| + |LinkSource(text, url)|)]
  {
    var l := LinkSource(text, url);
    var s := pre + l + post;
    var e := |pre| + |l|;
    Around(pre, l, post);
    MatchAllSkip(s, 0, |pre|);
    LinkAtSource(pre, text, url, post);
    MatchAllAt(s, |pre|);
    MatchAllSkip(s, e, |s|);
  }

  /** The unfolding of `MatchAll` where a link matches. */
  lemma MatchAllAt(s: string, i: nat)
    requires i < |s| && LinkAt(s, i).Some?
    ensures MatchAll(s, i) == [LinkAt(s, i).value] + MatchAll(s, LinkAt(s, i).value.end)
  {
  }

  // ---------------------------------------------------------------------------------------
  // Link targets.

  const OriginDomain := "outline.incubateur.anct.gouv.fr"

  /** Links the rewrite tries to map to a page: relative, absolute, or on the origin domain. */
  predicate IsCandidate(url: string)
  {
    StartsWith(url, "./") || StartsWith(url, "/") || Contains(url, OriginDomain)
  }

  /**
   * `normalizeOutlinePath(url, currentFile)`. `pathname` stands for `new URL(url).pathname`;
   * `None` means the URL constructor throws, which propagates to the caller.
   */
  function NormalizeOutlinePath(url: string, currentFile: string, pathname: string -> Option<string>): (r: Option<string>)
    ensures r.None? ==> Contains(url, OriginDomain) && pathname(url).None?
    ensures !IsCandidate(url) ==> r == Some(url)
  {
    if Contains(url, OriginDomain) then
      match pathname(url)
      case None => None
      case Some(p) => Some(Normalize(p))
    else if StartsWith(url, "./") then Some(Normalize(Join(Dirname(currentFile), url)))
    else if StartsWith(url, "/") then Some(Normalize(url))
    else Some(url)
  }

  /** An origin-domain link maps to the normalised path of its URL. */
  lemma OriginTarget(url: string, currentFile: string, pathname: string -> Option<string>)
    requires Contains(url, OriginDomain) && pathname(url).Some?
    ensures NormalizeOutlinePath(url, currentFile, pathname) == Some(Normalize(pathname(url).value))
    ensures Normalize(Normalize(pathname(url).value)) == Normalize(pathname(url).value)
  {
    NormalizeIdempotent(pathname(url).value);
  }

  /** A `./` link maps to its join with the current file's directory, which is already normal. */
  lemma RelativeTarget(url: string, currentFile: string, pathname: string -> Option<string>)
    requires !Contains(url, OriginDomain) && StartsWith(url, "./")
    ensures NormalizeOutlinePath(url, currentFile, pathname) == Some(Join(Dirname(currentFile), url))
    ensures Normalize(Join(Dirname(currentFile), url)) == Join(Dirname(currentFile), url)
  {
    var j := Join(Dirname(currentFile), url);
    var d := Dirname(currentFile);
    assert j == Normalize(if d == "" then url else if url == "" then d else d + "/" + url);
    NormalizeIdempotent(if d == "" then url else if url == "" then d else d + "/" + url);
  }

  /** A `/` link maps to its normal form. */
  lemma AbsoluteTarget(url: string, currentFile: string, pathname: string -> Option<string>)
    requires !Contains(url, OriginDomain) && !StartsWith(url, "./") && StartsWith(url, "/")
    ensures NormalizeOutlinePath(url, currentFile, pathname) == Some(Normalize(url))
    ensures Normalize(Normalize(url)) == Normalize(url)
  {
    NormalizeIdempotent(url);
  }

  // ---------------------------------------------------------------------------------------
  // Page lookup.

  /** A key designates the page a path links to when its encoded basename occurs in the path. */
  predicate KeyMatches(path: string, key: string)
  {
    Contains(path, EncodeURIComponent(Basename(key)))
  }

  /** The index of the first entry from `i` on whose key matches, or -1. */
  function FirstMatchFrom(path: string, m: Entries, i: nat): (r: int)
    requires i <= |m|
    ensures r == -1 || (i <= r < |m| && KeyMatches(path, m[r].0))
    ensures forall j :: i <= j < |m| && (r == -1 || j < r) ==> !KeyMatches(path, m[j].0)
    decreases |m| - i
  {
    if i == |m| then -1
    else if KeyMatches(path, m[i].0) then i
    else
      var r := FirstMatchFrom(path, m, i + 1);
      assert forall j :: i < j < |m| && (r == -1 || j < r) ==> !KeyMatches(path, m[j].0);
      r
  }

  /** The first entry, in insertion order, whose key matches. */
  function FirstMapped(path: string, m: Entries): (r: Option<PageMapping>)
    ensures r.None? <==> forall j :: 0 <= j < |m| ==> !KeyMatches(path, m[j].0)
    ensures r.Some? ==> exists j :: 0 <= j < |m| && KeyMatches(path, m[j].0) && r.value == m[j].1
                                    && forall l :: 0 <= l < j ==> !KeyMatches(path, m[l].0)
  {
    var j := FirstMatchFrom(path, m, 0);
    if j == -1 then None else Some(m[j].1)
  }

  /** `findMappedPage(normalizedPath)`: a loop over the map's entries with an early return. */
  method FindMappedPage(path: string, m: Entries) returns (r: Option<PageMapping>)
    ensures r == FirstMapped(path, m)
  {
    var i := 0;
    while i < |m|
      invariant 0 <= i <= |m|
      invariant FirstMatchFrom(path, m, 0) == FirstMatchFrom(path, m, i)
    {
      if KeyMatches(path, m[i].0) {
        return Some(m[i].1);
      }
      i := i + 1;
    }
    return None;
  }

  // ---------------------------------------------------------------------------------------
  // The converter's `processMarkdownLinks`.

  const FallbackNote := " - Impossible de reconstruire ce lien dans la migration vers Notion"

  /** The text a matched link is replaced with; `None` when the target's URL cannot be parsed. */
  function LinkReplacement(l: LinkMatch, mdFilePath: string, m: Entries, pathname: string -> Option<string>): Option<string>
  {
    if IsCandidate(l.url) then
      match NormalizeOutlinePath(l.url, mdFilePath, pathname)
      case None => None
      case Some(p) =>
        match FirstMapped(p, m)
        case Some(page) => Some(LinkSource(l.text, page.url))
        case None => Some(l.text + " - " + l.url + FallbackNote)
    else Some(LinkSource(l.text, l.url))
  }

  /**
   * The matches, in order, each replaced at the first occurrence of its source text in the
   * content as rewritten so far, the replacement taken literally.
   */
  function RewriteLinks(s: string, ms: seq<LinkMatch>, mdFilePath: string, m: Entries,
                        pathname: string -> Option<string>): Option<string>
    decreases |ms|
  {
    if ms == [] then Some(s)
    else match LinkReplacement(ms[0], mdFilePath, m, pathname)
      case None => None
      case Some(rep) =>
        RewriteLinks(ReplaceFirstLiteral(s, LinkSource(ms[0].text, ms[0].url), rep), ms[1..], mdFilePath, m, pathname)
  }

  /** The same rewrite with `String.prototype.replace`, whose replacement string expands `$` patterns. */
  function RewriteLinksAsWritten(s: string, ms: seq<LinkMatch>, mdFilePath: string, m: Entries,
                                 pathname: string -> Option<string>): Option<string>
    decreases |ms|
  {
    if ms == [] then Some(s)
    else match LinkReplacement(ms[0], mdFilePath, m, pathname)
      case None => None
      case Some(rep) =>
        RewriteLinksAsWritten(ReplaceFirst(s, LinkSource(ms[0].text, ms[0].url), rep), ms[1..], mdFilePath, m, pathname)
  }

  /** The body of the loop in `processMarkdownLinks`: what one matched link becomes. */
  method ReplacementFor(l: LinkMatch, mdFilePath: string, m: Entries, pathname: string -> Option<string>)
    returns (r: Option<string>)
    ensures r == LinkReplacement(l, mdFilePath, m, pathname)
  {
    var replacement := LinkSource(l.text, l.url);
    if IsCandidate(l.url) {
      var normalized := NormalizeOutlinePath(l.url, mdFilePath, pathname);
      if normalized.None? {
        return None;
      }
      var mapped := FindMappedPage(normalized.value, m);
      if mapped.Some? {
        replacement := LinkSource(l.text, mapped.value.url);
      } else {
        replacement := l.text + " - " + l.url + FallbackNote;
      }
    }
    return Some(replacement);
  }

  /**
   * `processMarkdownLinks(content, mdFilePath)`; `None` when normalising a target throws.
   * The loop replaces each link found in the original content, in order.
   */
  method ProcessMarkdownLinks(content: string, mdFilePath: string, m: Entries, pathname: string -> Option<string>)
    returns (r: Option<string>)
    ensures r == RewriteLinks(content, MatchAll(content, 0), mdFilePath, m, pathname)
  {
    var matches := MatchAll(content, 0);
    var processed := content;
    var i := 0;
    while i < |matches|
      invariant 0 <= i <= |matches|
      invariant RewriteLinks(content, matches, mdFilePath, m, pathname)
                == RewriteLinks(processed, matches[i..], mdFilePath, m, pathname)
    {
      var l := matches[i];
      var replacement := ReplacementFor(l, mdFilePath, m, pathname);
      if replacement.None? {
        return None;
      }
      assert matches[i..][0] == l && matches[i..][1..] == matches[i + 1..];
      processed := ReplaceFirstLiteral(processed, LinkSource(l.text, l.url), replacement.value);
      i := i + 1;
    }
    return Some(processed);
  }

  /** Content without `[` has no link and comes back unchanged. */
  lemma NoLinkUnchanged(content: string, mdFilePath: string, m: Entries, pathname: string -> Option<string>)
    requires '[' !in content
    ensures MatchAll(content, 0) == []
    ensures RewriteLinks(content, MatchAll(content, 0), mdFilePath, m, pathname) == Some(content)
  {
    MatchAllSkip(content, 0, |content|);
  }

  /** Links that are not candidates are left as they are, wherever they sit. */
  lemma {:induction false} NonCandidatesUnchanged(s: string, ms: seq<LinkMatch>, mdFilePath: string, m: Entries,
                                                  pathname: string -> Option<string>)
    requires forall k :: 0 <= k < |ms| ==> !IsCandidate(ms[k].url)
    ensures RewriteLinks(s, ms, mdFilePath, m, pathname) == Some(s)
    decreases |ms|
  {
    if ms != [] {
      ReplaceLiteralSelf(s, LinkSource(ms[0].text, ms[0].url));
      NonCandidatesUnchanged(s, ms[1..], mdFilePath, m, pathname);
    }
  }

  /**
   * One link amid text without `[`: a mapped candidate points at its page, an unmapped one
   * becomes the French note, and any other link stays.
   */
  lemma RewriteOneLink(pre: string, text: string, url: string, post: string, mdFilePath: string, m: Entries,
                       pathname: string -> Option<string>)
    requires WellFormed(text, url) && '[' !in pre && '[' !in post
    ensures var content := pre + LinkSource(text, url) + post;
            var r := RewriteLinks(content, MatchAll(content, 0), mdFilePath, m, pathname);
            var target := NormalizeOutlinePath(url, mdFilePath, pathname);
            && (!IsCandidate(url) ==> r == Some(content))
            && (IsCandidate(url) && target.None? ==> r.None?)
            && (IsCandidate(url) && target.Some? && FirstMapped(target.value, m).Some? ==>
                  r == Some(pre + LinkSource(text, FirstMapped(target.value, m).value.url) + post))
            && (IsCandidate(url) && target.Some? && FirstMapped(target.value, m).None? ==>
                  r == Some(pre + (text + " - " + url + FallbackNote) + post))
  {
    var content := pre + LinkSource(text, url) + post;
    MatchOneLink(pre, text, url, post);
    var l := LinkMatch(|pre|, text, url, |pre| + |LinkSource(text, url)|);
    var rep := LinkReplacement(l, mdFilePath, m, pathname);
    if rep.Some? {
      forall k | 0 <= k < |pre| ensures !OccursAt(content, LinkSource(text, url), k) {
        assert content[k] == pre[k];
      }
      ReplaceLiteralAt(pre, LinkSource(text, url), post, rep.value);
    }
  }

  /** A text's only `$` signs at its start: GetSubstitution expands the leading `$$` to `$`. */
  lemma SubstitutionDoubleDollar(matched: string, before: string, after: string, rest: string)
    requires '$' !in rest
    ensures Substitution(matched, before, after, "[" + "$$" + rest) == "[" + "$" + rest
  {
    var r := "[" + "$$" + rest;
    var t := "$$" + rest;
    assert r[0] == '[' && r[1..] == t;
    assert Substitution(matched, before, after, r) == ['['] + Substitution(matched, before, after, t);
    assert t[0] == '$' && t[1] == '$' && t[2..] == rest;
    assert Substitution(matched, before, after, t) == "$" + Substitution(matched, before, after, rest);
    SubstitutionPlain(matched, before, after, rest);
    assert "[" + "$" + rest == ['['] + ("$" + rest);
  }

  /** A single matched link: the rewrite as written replaces it with the expanded replacement. */
  lemma RewriteAsWrittenOne(s: string, l: LinkMatch, mdFilePath: string, m: Entries, pathname: string -> Option<string>)
    requires LinkSource(l.text, l.url) == s && LinkReplacement(l, mdFilePath, m, pathname) == Some(s)
    ensures RewriteLinksAsWritten(s, [l], mdFilePath, m, pathname) == Some(Substitution(s, "", "", s))
  {
    ReplaceWhole(s, s);
    assert [l][1..] == [];
  }

  lemma DollarSubstitution(url: string)
    requires '$' !in url
    ensures var s := LinkSource("$$", url); Substitution(s, "", "", s) == LinkSource("$", url)
  {
    var s := LinkSource("$$", url);
    var rest := "](" + url + ")";
    assert '$' !in rest by {
      assert forall k :: 0 <= k < |rest| ==> rest[k] == ']' || rest[k] == '(' || rest[k] == ')' || rest[k] in url;
    }
    assert s == "[" + "$$" + rest;
    SubstitutionDoubleDollar(s, "", "", rest);
  }

  /**
   * With `replace` as written, a link that is not a candidate and whose text is `$$` is
   * altered (`[$$](url)` becomes `[$](url)`), although the rewrite means to leave it unchanged.
   */
  lemma DollarLinkAltered(url: string, mdFilePath: string, m: Entries, pathname: string -> Option<string>)
    requires WellFormed("$$", url) && !IsCandidate(url) && '$' !in url && '[' !in url
    ensures var s := LinkSource("$$", url);
            RewriteLinksAsWritten(s, MatchAll(s, 0), mdFilePath, m, pathname) == Some(LinkSource("$", url))
  {
    var s := LinkSource("$$", url);
    var l := LinkMatch(0, "$$", url, |s|);
    MatchOnlyLink("$$", url);
    assert LinkReplacement(l, mdFilePath, m, pathname) == Some(s);
    RewriteAsWrittenOne(s, l, mdFilePath, m, pathname);
    DollarSubstitution(url);
  }

  /** A text that is one link has that one match. */
  lemma MatchOnlyLink(text: string, url: string)
    requires WellFormed(text, url) && '[' !in url
    ensures MatchAll(LinkSource(text, url), 0) == [LinkMatch(0, text, url, |LinkSource(text, url)|)]
  {
    var s := LinkSource(text, url);
    assert s == "" + s + "";
    MatchOneLink("", text, url, "");
  }

  /** The literal rewrite leaves the same link as it is. */
  lemma DollarLinkKept(url: string, mdFilePath: string, m: Entries, pathname: string -> Option<string>)
    requires WellFormed("$$", url) && !IsCandidate(url) && '[' !in url
    ensures var s := LinkSource("$$", url);
            RewriteLinks(s, MatchAll(s, 0), mdFilePath, m, pathname) == Some(s)
  {
    var s := LinkSource("$$", url);
    MatchOnlyLink("$$", url);
    ReplaceLiteralSelf(s, s);
  }

  // ---------------------------------------------------------------------------------------
  // The older script's callback: every link that is not mapped is reduced to its text.

  function OldLinkReplacement(l: LinkMatch, mdFilePath: string, m: Entries, pathname: string -> Option<string>): Option<string>
  {
    if IsCandidate(l.url) then
      match NormalizeOutlinePath(l.url, mdFilePath, pathname)
      case None => None
      case Some(p) =>
        match FirstMapped(p, m)
        case Some(page) => Some(LinkSource(l.text, page.url))
        case None => Some(l.text)
    else Some(l.text)
  }

  function Prepend(a: string, r: Option<string>): Option<string>
  {
    if r.Some? then Some(a + r.value) else None
  }

  /**
   * `content.replace(/\[([^\]]+)\]\(([^)]+)\)/g, callback)` from position `i`: each match is
   * replaced by what the callback returns (taken literally), the rest is copied.
   */
  function ReplaceLinksOld(s: string, i: nat, mdFilePath: string, m: Entries, pathname: string -> Option<string>): Option<string>
    requires i <= |s|
    decreases |s| - i
  {
    if i == |s| then Some([])
    else match LinkAt(s, i)
      case Some(l) =>
        (match OldLinkReplacement(l, mdFilePath, m, pathname)
         case None => None
         case Some(rep) => Prepend(rep, ReplaceLinksOld(s, l.end, mdFilePath, m, pathname)))
      case None => Prepend([s[i]], ReplaceLinksOld(s, i + 1, mdFilePath, m, pathname))
  }

  /** Text without `[` is copied as it is. */
  lemma {:induction false} OldCopiesPlainText(s: string, i: nat, mdFilePath: string, m: Entries, pathname: string -> Option<string>)
    requires i <= |s| && forall k :: i <= k < |s| ==> s[k] != '['
    ensures ReplaceLinksOld(s, i, mdFilePath, m, pathname) == Some(s[i..])
    decreases |s| - i
  {
    if i < |s| {
      OldCopiesPlainText(s, i + 1, mdFilePath, m, pathname);
      OldPlainStep(s, i, mdFilePath, m, pathname);
      SliceCons(s, i, |s|);
    } else {
      assert s[i..] == [];
    }
  }

  lemma {:induction false} OldCopiesPrefix(s: string, i: nat, j: nat, mdFilePath: string, m: Entries,
                                           pathname: string -> Option<string>)
    requires i <= j <= |s| && forall k :: i <= k < j ==> s[k] != '['
    ensures ReplaceLinksOld(s, i, mdFilePath, m, pathname) == Prepend(s[i..j], ReplaceLinksOld(s, j, mdFilePath, m, pathname))
    decreases j - i
  {
    var r := ReplaceLinksOld(s, j, mdFilePath, m, pathname);
    if i < j {
      OldCopiesPrefix(s, i + 1, j, mdFilePath, m, pathname);
      OldPlainStep(s, i, mdFilePath, m, pathname);
      PrependTwice([s[i]], s[i + 1..j], r);
      SliceCons(s, i, j);
      assert ReplaceLinksOld(s, i, mdFilePath, m, pathname) == Prepend([s[i]], Prepend(s[i + 1..j], r));
    } else if r.Some? {
      assert s[i..j] + r.value == r.value;
    }
  }

  /** The callback replace copies a character that opens no link. */
  lemma OldPlainStep(s: string, i: nat, mdFilePath: string, m: Entries, pathname: string -> Option<string>)
    requires i < |s| && s[i] != '['
    ensures ReplaceLinksOld(s, i, mdFilePath, m, pathname) == Prepend([s[i]], ReplaceLinksOld(s, i + 1, mdFilePath, m, pathname))
  {
    assert LinkAt(s, i).None?;
  }

  lemma PrependTwice(a: string, b: string, r: Option<string>)
    ensures Prepend(a, Prepend(b, r)) == Prepend(a + b, r)
  {
    if r.Some? {
      assert a + (b + r.value) == (a + b) + r.value;
    }
  }


  /** One link amid text without `[`: mapped candidates point at the page, every other link becomes its text. */
  lemma OldRewriteOneLink(pre: string, text: string, url: string, post: string, mdFilePath: string, m: Entries,
                          pathname: string -> Option<string>)
    requires WellFormed(text, url) && '[' !in pre && '[' !in post
    ensures var content := pre + LinkSource(text, url) + post;
            var rep := OldLinkReplacement(LinkMatch(|pre|, text, url, |pre| + |LinkSource(text, url)|), mdFilePath, m, pathname);
            && (rep.None? ==> ReplaceLinksOld(content, 0, mdFilePath, m, pathname).None?)
            && (rep.Some? ==> ReplaceLinksOld(content, 0, mdFilePath, m, pathname) == Some(pre + (rep.value + post)))
  {
    var l := LinkSource(text, url);
    var content := pre + l + post;
    var e := |pre| + |l|;
    Around(pre, l, post);
    LinkAtSource(pre, text, url, post);
    OldRewriteAt(content, |pre|, LinkMatch(|pre|, text, url, e), mdFilePath, m, pathname);
  }

  /** The callback replace over a text whose only `[` opens the link `lm` at `i`. */
  lemma OldRewriteAt(s: string, i: nat, lm: LinkMatch, mdFilePath: string, m: Entries, pathname: string -> Option<string>)
    requires i < lm.end <= |s| && LinkAt(s, i) == Some(lm)
    requires forall k :: 0 <= k < i ==> s[k] != '['
    requires forall k :: lm.end <= k < |s| ==> s[k] != '['
    ensures var rep := OldLinkReplacement(lm, mdFilePath, m, pathname);
            && (rep.None? ==> ReplaceLinksOld(s, 0, mdFilePath, m, pathname).None?)
            && (rep.Some? ==> ReplaceLinksOld(s, 0, mdFilePath, m, pathname) == Some(s[..i] + (rep.value + s[lm.end..])))
  {
    OldCopiesPrefix(s, 0, i, mdFilePath, m, pathname);
    OldCopiesPlainText(s, lm.end, mdFilePath, m, pathname);
    OldAtLink(s, i, mdFilePath, m, pathname);
    assert s[0..i] == s[..i];
  }

  /** How a text splits around a part in its middle. */
  lemma Around(pre: string, l: string, post: string)
    requires '[' !in pre && '[' !in post
    ensures var s := pre + l + post; var e := |pre| + |l|;
            && s[0..|pre|] == pre && s[e..] == post
            && (forall k :: 0 <= k < |pre| ==> s[k] != '[')
            && (forall k :: e <= k < |s| ==> s[k] != '[')
  {
    var s := pre + l + post;
    var e := |pre| + |l|;
    assert forall k :: 0 <= k < |pre| ==> s[k] == pre[k];
    assert forall k :: e <= k < |s| ==> s[k] == post[k - e];
  }

  /** The unfolding of the callback replace where a link matches. */
  lemma OldAtLink(s: string, i: nat, mdFilePath: string, m: Entries, pathname: string -> Option<string>)
    requires i < |s| && LinkAt(s, i).Some?
    ensures var l := LinkAt(s, i).value;
            var rep := OldLinkReplacement(l, mdFilePath, m, pathname);
            && (rep.None? ==> ReplaceLinksOld(s, i, mdFilePath, m, pathname).None?)
            && (rep.Some? ==> ReplaceLinksOld(s, i, mdFilePath, m, pathname) == Prepend(rep.value, ReplaceLinksOld(s, l.end, mdFilePath, m, pathname)))
  {
  }

  /** The same, spelled out by case. */
  lemma OldRewriteOneLinkCases(pre: string, text: string, url: string, post: string, mdFilePath: string, m: Entries,
                               pathname: string -> Option<string>)
    requires WellFormed(text, url) && '[' !in pre && '[' !in post
    ensures var content := pre + LinkSource(text, url) + post;
            var r := ReplaceLinksOld(content, 0, mdFilePath, m, pathname);
            var target := NormalizeOutlinePath(url, mdFilePath, pathname);
            && (IsCandidate(url) && target.None? ==> r.None?)
            && (IsCandidate(url) && target.Some? && FirstMapped(target.value, m).Some? ==>
                  r == Some(pre + LinkSource(text, FirstMapped(target.value, m).value.url) + post))
            && (!IsCandidate(url) || (target.Some? && FirstMapped(target.value, m).None?) ==>
                  r == Some(pre + text + post))
  {
    OldRewriteOneLink(pre, text, url, post, mdFilePath, m, pathname);
    var l := LinkMatch(|pre|, text, url, |pre| + |LinkSource(text, url)|);
    var rep := OldLinkReplacement(l, mdFilePath, m, pathname);
    if rep.Some? {
      assert pre + (rep.value + post) == pre + rep.value + post;
    }
  }

  // ---------------------------------------------------------------------------------------
  // Both rewrites over any content: the text between the matches is copied and each match
  // gives way to its replacement.

  /**
   * The text from `i` with each match of `ms` replaced by what `rep` gives for it and the
   * text around the matches copied; `None` as soon as `rep` gives `None`.
   */
  function Splice(s: string, i: nat, ms: seq<LinkMatch>, rep: LinkMatch -> Option<string>): Option<string>
    requires i <= |s| && MatchChain(s, i, ms)
    decreases |ms|
  {
    if ms == [] then Some(s[i..])
    else match rep(ms[0])
      case None => None
      case Some(r) => Prepend(s[i..ms[0].start] + r, Splice(s, ms[0].end, ms[1..], rep))
  }

  /** The older script's callback as a function of the match. */
  function OldRep(mdFilePath: string, m: Entries, pathname: string -> Option<string>): LinkMatch -> Option<string>
  {
    l => OldLinkReplacement(l, mdFilePath, m, pathname)
  }

  /** The converter's replacement as a function of the match. */
  function NewRep(mdFilePath: string, m: Entries, pathname: string -> Option<string>): LinkMatch -> Option<string>
  {
    l => LinkReplacement(l, mdFilePath, m, pathname)
  }

  /** A character that opens no match in front of the matches that follow it is copied. */
  lemma SpliceShift(s: string, i: nat, ms: seq<LinkMatch>, rep: LinkMatch -> Option<string>)
    requires i < |s| && MatchChain(s, i + 1, ms)
    ensures MatchChain(s, i, ms) && Splice(s, i, ms, rep) == Prepend([s[i]], Splice(s, i + 1, ms, rep))
  {
    if ms == [] {
      assert s[i..] == [s[i]] + s[i + 1..];
    } else if rep(ms[0]).Some? {
      var r := rep(ms[0]).value;
      var tail := Splice(s, ms[0].end, ms[1..], rep);
      assert s[i..ms[0].start] == [s[i]] + s[i + 1..ms[0].start];
      PrependThree([s[i]], s[i + 1..ms[0].start], r, tail);
    }
  }

  /**
   * The older script's callback `replace` over any content: its result is the content with
   * every match of the pattern, from left to right, replaced by the callback's value, and the
   * text between the matches copied.
   */
  lemma {:induction false} OldSplicedAll(s: string, i: nat, mdFilePath: string, m: Entries, pathname: string -> Option<string>)
    requires i <= |s|
    ensures MatchChain(s, i, MatchAll(s, i))
    ensures ReplaceLinksOld(s, i, mdFilePath, m, pathname) == Splice(s, i, MatchAll(s, i), OldRep(mdFilePath, m, pathname))
    decreases |s| - i, 1
  {
    MatchAllChain(s, i);
    if i == |s| {
      assert s[i..] == [];
    } else if LinkAt(s, i).Some? {
      OldSplicedLink(s, i, mdFilePath, m, pathname);
    } else {
      OldSplicedPlain(s, i, mdFilePath, m, pathname);
    }
  }

  lemma {:induction false} OldSplicedLink(s: string, i: nat, mdFilePath: string, m: Entries, pathname: string -> Option<string>)
    requires i < |s| && LinkAt(s, i).Some?
    ensures MatchChain(s, i, MatchAll(s, i))
    ensures ReplaceLinksOld(s, i, mdFilePath, m, pathname) == Splice(s, i, MatchAll(s, i), OldRep(mdFilePath, m, pathname))
    decreases |s| - i, 0
  {
    var l := LinkAt(s, i).value;
    var rep := OldRep(mdFilePath, m, pathname);
    MatchAllChain(s, i);
    MatchAllAt(s, i);
    OldAtLink(s, i, mdFilePath, m, pathname);
    OldSplicedAll(s, l.end, mdFilePath, m, pathname);
    var ms := MatchAll(s, i);
    assert ms[0] == l && ms[1..] == MatchAll(s, l.end);
    assert rep(l) == OldLinkReplacement(l, mdFilePath, m, pathname);
    if rep(l).Some? {
      var r := rep(l).value;
      assert s[i..l.start] + r == r;
      assert Splice(s, i, ms, rep) == Prepend(r, Splice(s, l.end, MatchAll(s, l.end), rep));
    }
  }

  lemma {:induction false} OldSplicedPlain(s: string, i: nat, mdFilePath: string, m: Entries, pathname: string -> Option<string>)
    requires i < |s| && LinkAt(s, i).None?
    ensures MatchChain(s, i, MatchAll(s, i))
    ensures ReplaceLinksOld(s, i, mdFilePath, m, pathname) == Splice(s, i, MatchAll(s, i), OldRep(mdFilePath, m, pathname))
    decreases |s| - i, 0
  {
    assert MatchAll(s, i) == MatchAll(s, i + 1);
    OldSplicedAll(s, i + 1, mdFilePath, m, pathname);
    SpliceShift(s, i, MatchAll(s, i + 1), OldRep(mdFilePath, m, pathname));
  }

  /**
   * When its turn comes in the converter's loop, each link is the first occurrence of its own
   * source in the content rewritten so far, or is replaced by its own source. `done` is the
   * rewritten text in front of `s[i..]`.
   */
  predicate FirstAtMatches(done: string, s: string, i: nat, ms: seq<LinkMatch>, rep: LinkMatch -> Option<string>)
    decreases |ms|
  {
    ms == [] ||
    (&& i <= ms[0].start <= ms[0].end <= |s|
     && (|| rep(ms[0]) == Some(LinkSource(ms[0].text, ms[0].url))
         || forall q :: 0 <= q < |done| + ms[0].start - i ==> !OccursAt(done + s[i..], LinkSource(ms[0].text, ms[0].url), q))
     && (rep(ms[0]).Some? ==> FirstAtMatches(done + s[i..ms[0].start] + rep(ms[0]).value, s, ms[0].end, ms[1..], rep)))
  }

  /** One step of the converter's loop replaces the link at its own place. */
  lemma ReplaceAtLink(done: string, s: string, i: nat, ms: seq<LinkMatch>, rep: LinkMatch -> Option<string>)
    requires i <= |s| && MatchChain(s, i, ms) && ms != [] && rep(ms[0]).Some?
    requires FirstAtMatches(done, s, i, ms, rep)
    ensures ReplaceFirstLiteral(done + s[i..], LinkSource(ms[0].text, ms[0].url), rep(ms[0]).value)
            == done + s[i..ms[0].start] + rep(ms[0]).value + s[ms[0].end..]
  {
    var l := ms[0];
    var r := rep(l).value;
    var src := LinkSource(l.text, l.url);
    var x := done + s[i..];
    var pre := done + s[i..l.start];
    SplitAtLink(done, s, i, l);
    if r == src {
      ReplaceLiteralSelf(x, src);
    } else {
      ReplaceLiteralIn(x, pre, src, s[l.end..], r);
    }
  }

  /** The rewritten text and the rest of the content, split around a match. */
  lemma SplitAtLink(done: string, s: string, i: nat, l: LinkMatch)
    requires i <= l.start < |s| && LinkAt(s, l.start) == Some(l)
    ensures done + s[i..] == done + s[i..l.start] + LinkSource(l.text, l.url) + s[l.end..]
  {
    LinkAtSpan(s, l.start);
    assert s[i..] == s[i..l.start] + s[l.start..l.end] + s[l.end..];
  }

  /** The unfolding of `RewriteLinks` at a match with a replacement. */
  lemma RewriteLinksAt(x: string, ms: seq<LinkMatch>, mdFilePath: string, m: Entries, pathname: string -> Option<string>)
    requires ms != [] && LinkReplacement(ms[0], mdFilePath, m, pathname).Some?
    ensures var r := LinkReplacement(ms[0], mdFilePath, m, pathname).value;
            RewriteLinks(x, ms, mdFilePath, m, pathname)
            == RewriteLinks(ReplaceFirstLiteral(x, LinkSource(ms[0].text, ms[0].url), r), ms[1..], mdFilePath, m, pathname)
  {
  }

  /** The unfolding of `Splice` at a match with a replacement. */
  lemma SpliceAt(s: string, i: nat, ms: seq<LinkMatch>, rep: LinkMatch -> Option<string>)
    requires i <= |s| && MatchChain(s, i, ms) && ms != [] && rep(ms[0]).Some?
    ensures MatchChain(s, ms[0].end, ms[1..]) && ms[0].end <= |s|
    ensures Splice(s, i, ms, rep) == Prepend(s[i..ms[0].start] + rep(ms[0]).value, Splice(s, ms[0].end, ms[1..], rep))
  {
  }

  /**
   * The converter's loop from the match list `ms` on, with `done` already rewritten: under
   * `FirstAtMatches`, each match gives way to its replacement and the text between is copied.
   */
  lemma {:induction false} RewriteLinksSpliced(done: string, s: string, i: nat, ms: seq<LinkMatch>, mdFilePath: string,
                                               m: Entries, pathname: string -> Option<string>)
    requires i <= |s| && MatchChain(s, i, ms)
    requires FirstAtMatches(done, s, i, ms, NewRep(mdFilePath, m, pathname))
    ensures RewriteLinks(done + s[i..], ms, mdFilePath, m, pathname)
            == Prepend(done, Splice(s, i, ms, NewRep(mdFilePath, m, pathname)))
    decreases |ms|, 1
  {
    if ms != [] && LinkReplacement(ms[0], mdFilePath, m, pathname).Some? {
      RewriteLinksSplicedStep(done, s, i, ms, mdFilePath, m, pathname);
    } else if ms != [] {
      assert NewRep(mdFilePath, m, pathname)(ms[0]).None?;
    }
  }

  lemma {:induction false} RewriteLinksSplicedStep(done: string, s: string, i: nat, ms: seq<LinkMatch>, mdFilePath: string,
                                                   m: Entries, pathname: string -> Option<string>)
    requires i <= |s| && MatchChain(s, i, ms) && ms != [] && LinkReplacement(ms[0], mdFilePath, m, pathname).Some?
    requires FirstAtMatches(done, s, i, ms, NewRep(mdFilePath, m, pathname))
    ensures RewriteLinks(done + s[i..], ms, mdFilePath, m, pathname)
            == Prepend(done, Splice(s, i, ms, NewRep(mdFilePath, m, pathname)))
    decreases |ms|, 0
  {
    var rep := NewRep(mdFilePath, m, pathname);
    var l := ms[0];
    var r := LinkReplacement(l, mdFilePath, m, pathname).value;
    assert rep(l) == Some(r);
    var next := done + s[i..l.start] + r;
    ReplaceAtLink(done, s, i, ms, rep);
    RewriteLinksAt(done + s[i..], ms, mdFilePath, m, pathname);
    SpliceAt(s, i, ms, rep);
    RewriteLinksSpliced(next, s, l.end, ms[1..], mdFilePath, m, pathname);
    PrependThree(done, s[i..l.start], r, Splice(s, l.end, ms[1..], rep));
  }

  lemma PrependThree(a: string, b: string, c: string, t: Option<string>)
    ensures Prepend(a, Prepend(b + c, t)) == Prepend(a + b + c, t)
  {
    PrependTwice(a, b + c, t);
    assert a + (b + c) == a + b + c;
  }

  /**
   * The converter's `processMarkdownLinks` over any content in which `FirstAtMatches` holds:
   * every match, from left to right, is replaced by its replacement and the text between the
   * matches is copied.
   */
  lemma RewriteSpliced(content: string, mdFilePath: string, m: Entries, pathname: string -> Option<string>)
    requires FirstAtMatches("", content, 0, MatchAll(content, 0), NewRep(mdFilePath, m, pathname))
    ensures MatchChain(content, 0, MatchAll(content, 0))
    ensures RewriteLinks(content, MatchAll(content, 0), mdFilePath, m, pathname)
            == Splice(content, 0, MatchAll(content, 0), NewRep(mdFilePath, m, pathname))
  {
    MatchAllChain(content, 0);
    RewriteLinksSpliced("", content, 0, MatchAll(content, 0), mdFilePath, m, pathname);
    assert "" + content[0..] == content;
    var sp := Splice(content, 0, MatchAll(content, 0), NewRep(mdFilePath, m, pathname));
    if sp.Some? {
      assert "" + sp.value == sp.value;
    }
  }

  /** A replacement that holds no `$` is one that `replace` takes literally. */
  predicate NoDollar(r: Option<string>)
  {
    r.Some? ==> '$' !in r.value
  }

  /**
   * The rewrite as written and the literal one agree when no replacement holds `$`: the
   * finding on `$` patterns is the only difference between them.
   */
  lemma {:induction false} RewriteLinksPlain(s: string, ms: seq<LinkMatch>, mdFilePath: string, m: Entries,
                                             pathname: string -> Option<string>)
    requires forall k :: 0 <= k < |ms| ==> NoDollar(LinkReplacement(ms[k], mdFilePath, m, pathname))
    ensures RewriteLinksAsWritten(s, ms, mdFilePath, m, pathname) == RewriteLinks(s, ms, mdFilePath, m, pathname)
    decreases |ms|
  {
    if ms != [] {
      var rep := LinkReplacement(ms[0], mdFilePath, m, pathname);
      assert NoDollar(rep);
      if rep.Some? {
        var src := LinkSource(ms[0].text, ms[0].url);
        ReplaceFirstPlain(s, src, rep.value);
        assert forall k :: 0 <= k < |ms[1..]| ==> ms[1..][k] == ms[k + 1];
        RewriteLinksPlain(ReplaceFirst(s, src, rep.value), ms[1..], mdFilePath, m, pathname);
      }
    }
  }
}
