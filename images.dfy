/**
 * The image rewrite of `processMarkdownContent`: every image whose path starts with
 * `uploads/` or `public/` is uploaded and pointed at the uploaded file's URL; the link
 * rewrite then runs on the result. The upload is an oracle from the image's file path to
 * the URL it was stored at (`None` when the upload fails, which the source catches).
 */
module Images {
  import opened Wrappers
  import opened Text
  import opened Paths
  import opened UriEncoding
  import opened PageMaps
  import opened Replace
  import opened Links

  // ---------------------------------------------------------------------------------------
  // The pattern `!\[(.*?)\]\((uploads\/[^)]+?|public\/[^)]+?)(?:\s+"([^"]*)")?\)`.

  /** One match: where it starts and ends, the text it spans, and its three groups. */
  datatype ImageMatch = ImageMatch(start: nat, source: string, alt: string, path: string, title: Option<string>, end: nat)

  const UploadsPrefix := "uploads/"
  const PublicPrefix := "public/"

  /**
   * The length of the directory prefix (`uploads/` or `public/`) that `s` holds at `p`, or 0:
   * the first alternative of the path group is tried first.
   */
  function PrefixAt(s: string, p: nat): (n: nat)
    ensures n == 0 || n == |UploadsPrefix| || n == |PublicPrefix|
    ensures n > 0 ==> p + n <= |s|
  {
    if p + 8 <= |s| && s[p] == 'u' && s[p + 1] == 'p' && s[p + 2] == 'l' && s[p + 3] == 'o'
       && s[p + 4] == 'a' && s[p + 5] == 'd' && s[p + 6] == 's' && s[p + 7] == '/' then 8
    else if p + 7 <= |s| && s[p] == 'p' && s[p + 1] == 'u' && s[p + 2] == 'b' && s[p + 3] == 'l'
       && s[p + 4] == 'i' && s[p + 5] == 'c' && s[p + 6] == '/' then 7
    else 0
  }

  /** `PrefixAt` is the `startsWith` test of the two directory prefixes. */
  lemma PrefixAtStartsWith(s: string)
    ensures PrefixAt(s, 0) == |UploadsPrefix| <==> StartsWith(s, UploadsPrefix)
    ensures PrefixAt(s, 0) == |PublicPrefix| <==> StartsWith(s, PublicPrefix)
  {
    if |s| >= 8 && StartsWith(s, UploadsPrefix) {
      assert s[..8] == UploadsPrefix;
    }
    if |s| >= 7 && StartsWith(s, PublicPrefix) {
      assert s[..7] == PublicPrefix;
    }
    if PrefixAt(s, 0) == 8 {
      assert s[..8] == UploadsPrefix;
    }
    if PrefixAt(s, 0) == 7 {
      assert s[..7] == PublicPrefix;
    }
  }

  /** The prefix test only looks at the first eight characters. */
  lemma PrefixAtSlice(s: string, p: nat, q: nat)
    requires p + 8 <= q <= |s|
    ensures PrefixAt(s[p..q], 0) == PrefixAt(s, p)
  {
    var t := s[p..q];
    assert forall k :: 0 <= k < 8 ==> t[k] == s[p + k];
  }

  /** What the path group can hold: a directory prefix, then at least one character, and no `)`. */
  predicate IsImagePath(path: string)
  {
    var n := PrefixAt(path, 0);
    n > 0 && |path| > n && forall k :: 0 <= k < |path| ==> path[k] != ')'
  }

  /** The first index from `i` that is not white space, or the end of `s`. */
  function SpacesEnd(s: string, i: nat): (e: nat)
    requires i <= |s|
    ensures i <= e <= |s| && (e == |s| || !IsSpace(s[e]))
    ensures forall k :: i <= k < e ==> IsSpace(s[k])
    decreases |s| - i
  {
    if i == |s| || !IsSpace(s[i]) then i else SpacesEnd(s, i + 1)
  }

  /**
   * `(?:\s+"([^"]*)")?\)` at `q`: the title when the optional group matched, and where the
   * match ends. Backtracking cannot help either group: white space is not `"`.
   */
  function TailAt(s: string, q: nat): (r: Option<(Option<string>, nat)>)
    requires q <= |s|
    ensures r.Some? ==> q < r.value.1 <= |s|
  {
    if q < |s| && s[q] == ')' then Some((None, q + 1))
    else
      var a := SpacesEnd(s, q);
      if a > q && a < |s| && s[a] == '"' then
        var b := RunUntil(s, a + 1, '"');
        if b + 1 < |s| && s[b + 1] == ')' then Some((Some(s[a + 1..b]), b + 2))
        else None
      else None
  }

  /** The lazy `[^)]+?` from its shortest end `q` on: where the path ends, or -1. */
  function PathEnd(s: string, q: nat): (e: int)
    requires q <= |s|
    ensures e == -1 || q <= e <= |s|
    decreases |s| - q
  {
    if TailAt(s, q).Some? then q
    else if q < |s| && s[q] != ')' then PathEnd(s, q + 1)
    else -1
  }

  lemma {:induction false} PathEndFound(s: string, q: nat)
    requires q <= |s| && PathEnd(s, q) != -1
    ensures TailAt(s, PathEnd(s, q)).Some?
    ensures forall k :: q <= k < PathEnd(s, q) ==> s[k] != ')'
    decreases |s| - q
  {
    if TailAt(s, q).None? {
      PathEndFound(s, q + 1);
    }
  }

  /** The path group and the rest of the pattern at `p`: where the path ends, or -1. */
  function TargetAt(s: string, p: nat): (q: int)
    requires p <= |s|
    ensures q == -1 || p < q <= |s|
  {
    var n := PrefixAt(s, p);
    if n > 0 && p + n < |s| && s[p + n] != ')' then PathEnd(s, p + n + 1) else -1
  }

  lemma TargetFound(s: string, p: nat, q: int)
    requires p <= |s|
    requires q == TargetAt(s, p)
    requires q != -1
    ensures p < q <= |s| && TailAt(s, q).Some? && IsImagePath(s[p..q])
  {
    var n := PrefixAt(s, p);
    assert n > 0 && s[p + n] != ')' && q == PathEnd(s, p + n + 1);
    PathEndFound(s, p + n + 1);
    PrefixAtSlice(s, p, q);
    assert forall k :: p <= k < p + n ==> s[k] != ')';
    var path := s[p..q];
    assert forall k :: 0 <= k < |path| ==> path[k] == s[p + k];
  }

  /** The lazy `.*?` of the alt text from its end `a` on: where the alt text ends, or -1. */
  function AltEnd(s: string, a: nat): (e: int)
    requires a <= |s|
    ensures e == -1 || a <= e < |s| - 1
    decreases |s| - a
  {
    if a + 1 < |s| && s[a] == ']' && s[a + 1] == '(' && TargetAt(s, a + 2) != -1 then a
    else if a < |s| && !IsLineTerminator(s[a]) then AltEnd(s, a + 1)
    else -1
  }

  lemma {:induction false} AltEndFound(s: string, a: nat, e: int)
    requires a <= |s| && e == AltEnd(s, a) && e != -1
    ensures a <= e < |s| - 1 && s[e] == ']' && s[e + 1] == '(' && TargetAt(s, e + 2) != -1
    decreases |s| - a
  {
    if !(a + 1 < |s| && s[a] == ']' && s[a + 1] == '(' && TargetAt(s, a + 2) != -1) {
      AltEndFound(s, a + 1, e);
    }
  }

  /** A match of the image pattern starting at `i`. */
  function ImageAt(s: string, i: nat): (r: Option<ImageMatch>)
    requires i <= |s|
    ensures r.Some? ==> var m := r.value; m.start == i && i < m.end <= |s| && m.source == s[i..m.end]
    ensures r.Some? ==> IsImagePath(r.value.path)
  {
    if i + 1 < |s| && s[i] == '!' && s[i + 1] == '[' then ImageAfterAlt(s, i, AltEnd(s, i + 2)) else None
  }

  /** The rest of a match at `i` once the lazy alt text has ended at `a` (-1: it never does). */
  function ImageAfterAlt(s: string, i: nat, a: int): (r: Option<ImageMatch>)
    requires i + 2 <= |s| && (a == -1 || i + 2 <= a < |s| - 1)
    ensures r.Some? ==> var m := r.value; m.start == i && i < m.end <= |s| && m.source == s[i..m.end]
    ensures r.Some? ==> IsImagePath(r.value.path)
  {
    if a == -1 then None
    else
      var q := TargetAt(s, a + 2);
      if q == -1 then None
      else
        TargetFound(s, a + 2, q);
        ImageWithPath(s, i, a, q)
  }

  /** The match at `i` once the path has ended at `q`: the tail decides. */
  function ImageWithPath(s: string, i: nat, a: nat, q: nat): (r: Option<ImageMatch>)
    requires i + 2 <= a && a + 2 < q <= |s|
    ensures r.Some? ==> var m := r.value; m.start == i && i < m.end <= |s| && m.source == s[i..m.end]
    ensures r.Some? ==> r.value.path == s[a + 2..q]
  {
    match TailAt(s, q)
    case None => None
    case Some(tail) => Some(ImageMatch(i, s[i..tail.1], s[i + 2..a], s[a + 2..q], tail.0, tail.1))
  }

  /** The matches of the global pattern from `i` on, left to right (`matchAll`). */
  function ImagesFrom(s: string, i: nat): (ms: seq<ImageMatch>)
    requires i <= |s|
    ensures forall k :: 0 <= k < |ms| ==> i <= ms[k].start < ms[k].end <= |s| && IsImagePath(ms[k].path)
    ensures forall k :: 0 <= k < |ms| - 1 ==> ms[k].end <= ms[k + 1].start
    decreases |s| - i
  {
    if i == |s| then []
    else match ImageAt(s, i)
      case Some(im) => [im] + ImagesFrom(s, im.end)
      case None => ImagesFrom(s, i + 1)
  }

  // ---------------------------------------------------------------------------------------
  // What an image becomes.

  /** The markdown of an image pointing at `url`, with its title when it has a non-empty one. */
  function UploadedImage(alt: string, url: string, title: Option<string>): string
  {
    if title.Some? && title.value != "" then "![" + alt + "](" + url + " \"" + title.value + "\")"
    else "![" + alt + "](" + url + ")"
  }

  /**
   * The replacement for one matched image; `None` when its path is not valid percent-encoding
   * (the URIError is thrown outside the `try` and rejects the whole conversion).
   */
  function ImageReplacement(im: ImageMatch, mdFilePath: string, upload: string -> Option<string>): Option<string>
  {
    match DecodeURIComponent(im.path)
    case None => None
    case Some(decoded) =>
      if StartsWith(decoded, UploadsPrefix) || StartsWith(decoded, PublicPrefix) then
        match upload(Join(Dirname(mdFilePath), decoded))
        case Some(url) => if url != "" then Some(UploadedImage(im.alt, url, im.title)) else Some(im.source)
        case None => Some(im.source)
      else Some(im.source)
  }

  /** The matches, in order, each replaced at the first occurrence of its text, taken literally. */
  function RewriteImages(s: string, ms: seq<ImageMatch>, mdFilePath: string, upload: string -> Option<string>): Option<string>
    decreases |ms|
  {
    if ms == [] then Some(s)
    else match ImageReplacement(ms[0], mdFilePath, upload)
      case None => None
      case Some(rep) => RewriteImages(ReplaceFirstLiteral(s, ms[0].source, rep), ms[1..], mdFilePath, upload)
  }

  /** The images rewritten, then the links. */
  function MarkdownContent(content: string, mdFilePath: string, m: Entries, pathname: string -> Option<string>,
                           upload: string -> Option<string>): Option<string>
  {
    match RewriteImages(content, ImagesFrom(content, 0), mdFilePath, upload)
    case None => None
    case Some(c) => RewriteLinks(c, MatchAll(c, 0), mdFilePath, m, pathname)
  }

  /** `processMarkdownContent(content, mdFilePath)`: the loop over the images, then the link rewrite. */
  method ProcessMarkdownContent(content: string, mdFilePath: string, m: Entries, pathname: string -> Option<string>,
                                upload: string -> Option<string>)
    returns (r: Option<string>)
    ensures r == MarkdownContent(content, mdFilePath, m, pathname, upload)
  {
    var matches := ImagesFrom(content, 0);
    var processed := content;
    var i := 0;
    while i < |matches|
      invariant 0 <= i <= |matches|
      invariant RewriteImages(content, matches, mdFilePath, upload)
                == RewriteImages(processed, matches[i..], mdFilePath, upload)
    {
      var im := matches[i];
      var decoded := DecodeURIComponent(im.path);
      if decoded.None? {
        return None;
      }
      var replacement := im.source;
      if StartsWith(decoded.value, UploadsPrefix) || StartsWith(decoded.value, PublicPrefix) {
        var url := upload(Join(Dirname(mdFilePath), decoded.value));
        if url.Some? && url.value != "" {
          replacement := UploadedImage(im.alt, url.value, im.title);
        }
      }
      assert matches[i..][0] == im && matches[i..][1..] == matches[i + 1..];
      processed := ReplaceFirstLiteral(processed, im.source, replacement);
      i := i + 1;
    }
    r := ProcessMarkdownLinks(processed, mdFilePath, m, pathname);
  }

  // ---------------------------------------------------------------------------------------
  // Decoding keeps the directory prefix.

  /** Text without `%` decodes to itself, whatever follows it. */
  lemma {:induction false} DecodePlainPrefix(a: string, r: string)
    requires forall k :: 0 <= k < |a| ==> a[k] != '%'
    ensures DecodeURIComponent(a + r) == Prepend(a, DecodeURIComponent(r))
    decreases |a|
  {
    var d := DecodeURIComponent(r);
    if a == [] {
      assert a + r == r;
      if d.Some? {
        assert a + d.value == d.value;
      }
    } else {
      var t := a + r;
      assert t[0] == a[0] && t[0] != '%';
      assert t[1..] == a[1..] + r;
      DecodePlainPrefix(a[1..], r);
      assert DecodeURIComponent(t) == Prepend([a[0]], DecodeURIComponent(t[1..]));
      if d.Some? {
        assert [a[0]] + (a[1..] + d.value) == a + d.value;
      }
    }
  }
  /**
   * A matched path decodes to its directory prefix followed by the decoding of the rest, so
   * the decoded path always passes the `startsWith` test and every decodable image is uploaded.
   */
  lemma DecodedKeepsPrefix(path: string)
    requires IsImagePath(path) && DecodeURIComponent(path).Some?
    ensures var d := DecodeURIComponent(path).value;
            StartsWith(d, UploadsPrefix) || StartsWith(d, PublicPrefix)
  {
    var n := PrefixAt(path, 0);
    PrefixAtStartsWith(path);
    var pre := path[..n];
    assert pre == UploadsPrefix || pre == PublicPrefix;
    assert forall k :: 0 <= k < |pre| ==> pre[k] != '%';
    assert path == pre + path[n..];
    DecodePlainPrefix(pre, path[n..]);
  }

  /**
   * A matched image is rejected exactly when its path cannot be decoded; it points at the
   * uploaded URL when the upload gives a non-empty one, and is otherwise left as it is.
   */
  lemma ImageReplacementCases(im: ImageMatch, mdFilePath: string, upload: string -> Option<string>)
    requires IsImagePath(im.path)
    ensures var r := ImageReplacement(im, mdFilePath, upload);
            var d := DecodeURIComponent(im.path);
            && (r.None? <==> d.None?)
            && (d.Some? ==>
                  var url := upload(Join(Dirname(mdFilePath), d.value));
                  && (url.Some? && url.value != "" ==> r == Some(UploadedImage(im.alt, url.value, im.title)))
                  && (url.None? || url.value == "" ==> r == Some(im.source)))
  {
    if DecodeURIComponent(im.path).Some? {
      DecodedKeepsPrefix(im.path);
    }
  }

  /** An image whose upload fails. */
  predicate UploadFails(im: ImageMatch, mdFilePath: string, upload: string -> Option<string>)
  {
    var d := DecodeURIComponent(im.path);
    d.Some? && var url := upload(Join(Dirname(mdFilePath), d.value)); url.None? || url.value == ""
  }

  predicate UploadsFail(ms: seq<ImageMatch>, mdFilePath: string, upload: string -> Option<string>)
  {
    forall k :: 0 <= k < |ms| ==> UploadFails(ms[k], mdFilePath, upload)
  }

  /** When every upload fails, the images are left as they are. */
  lemma {:induction false} FailedUploadsUnchanged(s: string, ms: seq<ImageMatch>, mdFilePath: string,
                                                  upload: string -> Option<string>)
    requires forall k :: 0 <= k < |ms| ==> IsImagePath(ms[k].path) && UploadFails(ms[k], mdFilePath, upload)
    ensures RewriteImages(s, ms, mdFilePath, upload) == Some(s)
    decreases |ms|
  {
    if ms != [] {
      ImageReplacementCases(ms[0], mdFilePath, upload);
      ReplaceLiteralSelf(s, ms[0].source);
      FailedUploadsUnchanged(s, ms[1..], mdFilePath, upload);
    }
  }

  // ---------------------------------------------------------------------------------------
  // Every plain image is matched.

  lemma {:induction false} AltEndSkip(s: string, a: nat, b: nat)
    requires a <= b <= |s|
    requires forall k :: a <= k < b ==> s[k] != ']' && !IsLineTerminator(s[k])
    ensures AltEnd(s, a) == AltEnd(s, b)
    decreases b - a
  {
    if a < b {
      AltEndSkip(s, a + 1, b);
    }
  }

  lemma {:induction false} PathEndSkip(s: string, q: nat, e: nat)
    requires q <= e <= |s|
    requires forall k :: q <= k < e ==> s[k] != ')' && !IsSpace(s[k])
    ensures PathEnd(s, q) == PathEnd(s, e)
    decreases e - q
  {
    if q < e {
      assert SpacesEnd(s, q) == q;
      PathEndSkip(s, q + 1, e);
    }
  }

  /** A path without white space, closed by `)`, is matched with no title. */
  lemma TargetAtPlain(s: string, p: nat, q: nat)
    requires p <= q < |s| && s[q] == ')'
    requires IsImagePath(s[p..q]) && forall k :: p <= k < q ==> !IsSpace(s[k])
    ensures TargetAt(s, p) == q && TailAt(s, q) == Some((None, q + 1))
  {
    var path := s[p..q];
    var n := PrefixAt(path, 0);
    PrefixAtSlice(s, p, q);
    assert forall k :: p <= k < q ==> s[k] == path[k - p];
    assert s[p + n] == path[n];
    PathEndSkip(s, p + n + 1, q);
  }

  /** Where the parts of a plain image sit in its markdown. */
  lemma PlainImageChars(alt: string, path: string)
    ensures var src := UploadedImage(alt, path, None);
            var a := 2 + |alt|;
            && |src| == a + 3 + |path|
            && src[0] == '!' && src[1] == '[' && src[a] == ']' && src[a + 1] == '(' && src[|src| - 1] == ')'
            && (forall t :: 0 <= t < |alt| ==> src[2 + t] == alt[t])
            && (forall t :: 0 <= t < |path| ==> src[a + 2 + t] == path[t])
  {
    var src := UploadedImage(alt, path, None);
    assert src == "![" + alt + "](" + path + ")";
  }

  /** Where the parts of a plain image sit in a text that holds it at `i`. */
  lemma ImageSourceChars(s: string, i: nat, alt: string, path: string, a: nat, q: nat)
    requires i + |UploadedImage(alt, path, None)| <= |s|
    requires s[i..i + |UploadedImage(alt, path, None)|] == UploadedImage(alt, path, None)
    requires a == i + 2 + |alt| && q == a + 2 + |path|
    ensures q < |s| && i + |UploadedImage(alt, path, None)| == q + 1
    ensures s[i] == '!' && s[i + 1] == '[' && s[a] == ']' && s[a + 1] == '(' && s[q] == ')'
    ensures forall k :: i + 2 <= k < a ==> s[k] == alt[k - i - 2]
    ensures forall k :: a + 2 <= k < q ==> s[k] == path[k - a - 2]
    ensures ImageMatch(i, s[i..q + 1], s[i + 2..a], s[a + 2..q], None, q + 1)
            == ImageMatch(i, UploadedImage(alt, path, None), alt, path, None, q + 1)
  {
    var src := UploadedImage(alt, path, None);
    PlainImageChars(alt, path);
    assert forall k :: 0 <= k < |src| ==> s[i + k] == src[k];
    assert forall k :: i + 2 <= k < a ==> s[k] == src[2 + (k - i - 2)];
    assert forall k :: a + 2 <= k < q ==> s[k] == src[(a - i) + 2 + (k - a - 2)];
    assert s[i + 2..a] == alt;
    assert s[a + 2..q] == path;
  }

  /**
   * The markdown of an image without a title, whose alt text has no `]` and no line break and
   * whose path has no white space, is matched wherever it occurs, with its alt text and path
   * as the groups: the images the rewrite writes are found again by the same pattern.
   */
  lemma ImageAtSource(s: string, i: nat, alt: string, path: string)
    requires forall k :: 0 <= k < |alt| ==> alt[k] != ']' && !IsLineTerminator(alt[k])
    requires IsImagePath(path) && forall k :: 0 <= k < |path| ==> !IsSpace(path[k])
    requires i + |UploadedImage(alt, path, None)| <= |s|
    requires s[i..i + |UploadedImage(alt, path, None)|] == UploadedImage(alt, path, None)
    ensures ImageAt(s, i) == Some(ImageMatch(i, UploadedImage(alt, path, None), alt, path, None,
                                             i + |UploadedImage(alt, path, None)|))
  {
    var a := i + 2 + |alt|;
    var q := a + 2 + |path|;
    ImageSourceChars(s, i, alt, path, a, q);
    assert s[a + 2..q] == path;
    ImageAtPlain(s, i, a, q);
  }

  /** The image pattern at `i`, with the alt text ending at `a` and the path at `q`. */
  lemma ImageAtPlain(s: string, i: nat, a: nat, q: nat)
    requires i + 2 <= a && a + 2 <= q < |s|
    requires s[i] == '!' && s[i + 1] == '[' && s[a] == ']' && s[a + 1] == '(' && s[q] == ')'
    requires forall k :: i + 2 <= k < a ==> s[k] != ']' && !IsLineTerminator(s[k])
    requires IsImagePath(s[a + 2..q]) && forall k :: a + 2 <= k < q ==> !IsSpace(s[k])
    ensures ImageAt(s, i) == Some(ImageMatch(i, s[i..q + 1], s[i + 2..a], s[a + 2..q], None, q + 1))
  {
    AltEndSkip(s, i + 2, a);
    TargetAtPlain(s, a + 2, q);
    AltEndHere(s, a);
    ImageAtUnfold(s, i, a, q);
  }

  /** `ImageAt` once the alt text, the path and the tail are known. */
  lemma ImageAtUnfold(s: string, i: nat, a: nat, q: nat)
    requires i + 2 <= a && a + 2 <= q < |s| && s[i] == '!' && s[i + 1] == '['
    requires AltEnd(s, i + 2) == a && TargetAt(s, a + 2) == q && TailAt(s, q) == Some((None, q + 1))
    ensures ImageAt(s, i) == Some(ImageMatch(i, s[i..q + 1], s[i + 2..a], s[a + 2..q], None, q + 1))
  {
  }

  lemma AltEndHere(s: string, a: nat)
    requires a + 1 < |s| && s[a] == ']' && s[a + 1] == '(' && TargetAt(s, a + 2) != -1
    ensures AltEnd(s, a) == a
  {
  }

  lemma {:induction false} ImagesFromSkip(s: string, i: nat, j: nat)
    requires i <= j <= |s|
    requires forall k :: i <= k < j ==> s[k] != '!'
    ensures ImagesFrom(s, i) == ImagesFrom(s, j)
    decreases j - i
  {
    if i < j {
      assert ImageAt(s, i).None?;
      assert ImagesFrom(s, i) == ImagesFrom(s, i + 1);
      ImagesFromSkip(s, i + 1, j);
    }
  }

  /** Content without `!` has no image: only the link rewrite changes it. */
  lemma NoImageOnlyLinks(content: string, mdFilePath: string, m: Entries, pathname: string -> Option<string>,
                         upload: string -> Option<string>)
    requires '!' !in content
    ensures ImagesFrom(content, 0) == []
    ensures MarkdownContent(content, mdFilePath, m, pathname, upload)
            == RewriteLinks(content, MatchAll(content, 0), mdFilePath, m, pathname)
  {
    ImagesFromSkip(content, 0, |content|);
  }

  /**
   * One matched image amid text without `!`: the content becomes the text around it with the
   * image's replacement in its place.
   */
  lemma RewriteImageAt(pre: string, im: ImageMatch, post: string, mdFilePath: string, upload: string -> Option<string>)
    requires forall k :: 0 <= k < |pre| ==> pre[k] != '!'
    requires im.source != [] && im.source[0] == '!'
    ensures var rep := ImageReplacement(im, mdFilePath, upload);
            && (rep.None? ==> RewriteImages(pre + im.source + post, [im], mdFilePath, upload).None?)
            && (rep.Some? ==> RewriteImages(pre + im.source + post, [im], mdFilePath, upload) == Some(pre + rep.value + post))
  {
    var content := pre + im.source + post;
    var rep := ImageReplacement(im, mdFilePath, upload);
    if rep.Some? {
      forall k | 0 <= k < |pre| ensures !OccursAt(content, im.source, k) {
        assert content[k] == pre[k];
      }
      ReplaceLiteralAt(pre, im.source, post, rep.value);
      assert [im][1..] == [];
    }
  }

  /** When no image's upload succeeds, processing the content only rewrites its links. */
  lemma FailedUploadsOnlyLinks(content: string, mdFilePath: string, m: Entries, pathname: string -> Option<string>,
                               upload: string -> Option<string>)
    requires UploadsFail(ImagesFrom(content, 0), mdFilePath, upload)
    ensures MarkdownContent(content, mdFilePath, m, pathname, upload)
            == RewriteLinks(content, MatchAll(content, 0), mdFilePath, m, pathname)
  {
    var ms := ImagesFrom(content, 0);
    assert forall k :: 0 <= k < |ms| ==> IsImagePath(ms[k].path) && UploadFails(ms[k], mdFilePath, upload);
    FailedUploadsUnchanged(content, ms, mdFilePath, upload);
  }
}
