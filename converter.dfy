/**
 * `convertMarkdownToNotionBlocks`: cleans the markdown, rewrites its images and links, hands
 * the result to the markdown-to-blocks parser, folds the `:::` callouts and pads the rows of
 * every top-level table.
 */
module Converter {
  import opened Wrappers
  import opened Blocks
  import opened Tables
  import opened Cleanup
  import opened PageMaps
  import opened Images
  import opened Callouts

  /** Text of the single paragraph returned when the parser throws. */
  const ErrorPrefix: string := "Error converting content: "

  /** A table gets its rows normalised; `table_width` and every other block are kept as they are. */
  function NormalizeTable(b: Block): Block
  {
    if b.Table? then b.(rows := NormalizeTableRows(b.rows)) else b
  }

  /** The `Promise.all(blocksWithCallouts.map(...))` step over the top-level blocks. */
  function NormalizeTables(bs: seq<Block>): seq<Block>
  {
    seq(|bs|, k requires 0 <= k < |bs| => NormalizeTable(bs[k]))
  }

  /**
   * The whole conversion. `None` is a rejected promise: a failed decode or link resolution
   * happens before the `try`. A parser error becomes one paragraph carrying its message.
   */
  function Convert(content: string, mdFilePath: string, m: Entries, pathname: string -> Option<string>,
                   upload: string -> Option<string>, parse: string -> Result<seq<Block>>): Option<seq<Block>>
  {
    match MarkdownContent(CleanMarkdownContent(content), mdFilePath, m, pathname, upload)
    case None => None
    case Some(processed) =>
      match parse(processed)
      case Err(msg) => Some([TextParagraph(ErrorPrefix + msg)])
      case Ok(blocks) => Some(NormalizeTables(CalloutBlocks(blocks)))
  }

  /** Normalising one more block appends its normal form. */
  lemma NormalizeTablesSnoc(bs: seq<Block>, i: nat)
    requires i < |bs|
    ensures NormalizeTables(bs[..i + 1]) == NormalizeTables(bs[..i]) + [NormalizeTable(bs[i])]
  {
    var a := NormalizeTables(bs[..i + 1]);
    var b := NormalizeTables(bs[..i]) + [NormalizeTable(bs[i])];
    assert |a| == |b|;
    forall k | 0 <= k < |a|
      ensures a[k] == b[k]
    {
      if k < i {
        assert bs[..i + 1][k] == bs[..i][k];
      }
    }
  }

  /** `convertMarkdownToNotionBlocks(content, mdFilePath)`, with the parser as a parameter. */
  method ConvertMarkdownToNotionBlocks(content: string, mdFilePath: string, m: Entries,
                                       pathname: string -> Option<string>, upload: string -> Option<string>,
                                       parse: string -> Result<seq<Block>>)
    returns (r: Option<seq<Block>>)
    ensures r == Convert(content, mdFilePath, m, pathname, upload, parse)
  {
    var cleaned := CleanMarkdownContent(content);
    var processed := ProcessMarkdownContent(cleaned, mdFilePath, m, pathname, upload);
    if processed.None? {
      return None;
    }
    match parse(processed.value)
    case Err(msg) =>
      r := Some([TextParagraph(ErrorPrefix + msg)]);
    case Ok(blocks) =>
      var withCallouts := ProcessCalloutBlocks(blocks);
      var out := NormalizeTablesLoop(withCallouts);
      r := Some(out);
  }

  /** The `map` over the blocks that normalises each table. */
  method NormalizeTablesLoop(bs: seq<Block>) returns (out: seq<Block>)
    ensures out == NormalizeTables(bs)
  {
    out := [];
    var i := 0;
    while i < |bs|
      invariant 0 <= i <= |bs|
      invariant out == NormalizeTables(bs[..i])
    {
      NormalizeTablesSnoc(bs, i);
      out := out + [NormalizeTable(bs[i])];
      i := i + 1;
    }
    assert bs[..i] == bs;
  }

  /** A table whose rows came out of `normalizeTableRowBlocks`. */
  predicate NormalTable(b: Block)
  {
    b.Table? ==> b.rows == [] || (|b.rows[0].cells| > 0 && Rectangular(b.rows, |b.rows[0].cells|))
  }

  /**
   * Table normalisation keeps the list's length and every block's kind: a table stays a table
   * with its width and header flags, so the "Table conversion failed" paragraph never appears.
   * Its rows come out empty exactly when every row was empty, and otherwise rectangular with
   * each original row as a prefix. Blocks other than tables, callouts included, are untouched.
   */
  lemma NormalizeTablesShape(bs: seq<Block>)
    ensures var r := NormalizeTables(bs);
      && |r| == |bs|
      && (forall k :: 0 <= k < |bs| && !bs[k].Table? ==> r[k] == bs[k])
      && (forall k :: 0 <= k < |bs| && bs[k].Table? ==>
            && r[k].Table?
            && r[k].tableWidth == bs[k].tableWidth
            && r[k].hasColumnHeader == bs[k].hasColumnHeader
            && r[k].hasRowHeader == bs[k].hasRowHeader
            && (r[k].rows == [] <==> AllEmptyRows(bs[k].rows))
            && (r[k].rows != [] ==> |r[k].rows| == |bs[k].rows|)
            && (forall i :: 0 <= i < |r[k].rows| ==> bs[k].rows[i].cells <= r[k].rows[i].cells))
      && (forall k :: 0 <= k < |bs| ==> NormalTable(r[k]))
  {
    var r := NormalizeTables(bs);
    forall k | 0 <= k < |bs| && bs[k].Table?
      ensures r[k].rows == [] <==> AllEmptyRows(bs[k].rows)
      ensures r[k].rows != [] ==> |r[k].rows| == |bs[k].rows|
      ensures forall i :: 0 <= i < |r[k].rows| ==> bs[k].rows[i].cells <= r[k].rows[i].cells
      ensures NormalTable(r[k])
    {
      NormalizeShape(bs[k].rows);
    }
  }

  /** Normalising the tables a second time changes nothing. */
  lemma NormalizeTablesIdempotent(bs: seq<Block>)
    ensures NormalizeTables(NormalizeTables(bs)) == NormalizeTables(bs)
  {
    var r := NormalizeTables(bs);
    forall k | 0 <= k < |bs|
      ensures NormalizeTable(r[k]) == r[k]
    {
      if bs[k].Table? {
        NormalizeIdempotent(bs[k].rows);
      }
    }
  }

  /** Padding table rows adds no marker: a table is neither a paragraph nor a callout. */
  lemma NormalizeTablesClean(bs: seq<Block>)
    requires AllClean(bs)
    ensures AllClean(NormalizeTables(bs))
  {
    var r := NormalizeTables(bs);
    forall k | 0 <= k < |r|
      ensures Clean(r[k])
    {
      if bs[k].Table? {
        assert FirstContent(r[k]).None?;
      } else {
        assert r[k] == bs[k];
      }
    }
  }

  /**
   * The three outcomes: rejection exactly when the image or link rewrite fails; a parser error
   * gives one paragraph holding the message; a parse gives at most as many blocks as were
   * parsed, every top-level table normalised and, unless the parser itself produced a callout
   * holding one, no `:::` marker left at the top level or inside a callout.
   */
  lemma ConvertOutcomes(content: string, mdFilePath: string, m: Entries, pathname: string -> Option<string>,
                        upload: string -> Option<string>, parse: string -> Result<seq<Block>>)
    ensures var processed := MarkdownContent(CleanMarkdownContent(content), mdFilePath, m, pathname, upload);
      var r := Convert(content, mdFilePath, m, pathname, upload, parse);
      && (r.None? <==> processed.None?)
      && (processed.Some? && parse(processed.value).Err? ==>
            r == Some([Paragraph([RichText(ErrorPrefix + parse(processed.value).message, None, DefaultAnnotations)])]))
      && (processed.Some? && parse(processed.value).Ok? ==>
            && |r.value| <= |parse(processed.value).value|
            && (CalloutsClean(parse(processed.value).value) ==> AllClean(r.value))
            && (forall k :: 0 <= k < |r.value| ==> NormalTable(r.value[k])))
  {
    var processed := MarkdownContent(CleanMarkdownContent(content), mdFilePath, m, pathname, upload);
    if processed.Some? && parse(processed.value).Ok? {
      var blocks := parse(processed.value).value;
      var c := CalloutBlocks(blocks);
      NoLonger(blocks);
      NormalizeTablesShape(c);
      if CalloutsClean(blocks) {
        NoMarkersOut(blocks);
        NormalizeTablesClean(c);
      }
    }
  }
}
