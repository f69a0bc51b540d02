/**
 * `src/notionProcessor.ts`: filling a page with converted blocks in batches of 100, and
 * creating an empty page or a folder page while recording it in the shared page map. The
 * Notion client is a set of function parameters: each returns the response of one call,
 * or `None` (or `false`) when the call throws.
 */
module NotionProcessor {
  import opened Wrappers
  import opened Blocks
  import opened Paths
  import opened PageMaps
  import opened Converter

  /** What a successful page creation answers. */
  datatype Created = Created(id: string, url: string)

  /** One `appendBlocks(pageId, chunk)` call and whether it resolved (a rejection is only logged). */
  datatype AppendCall = AppendCall(pageId: string, chunk: seq<Block>, succeeded: bool)

  const ChunkSize: nat := 100

  function Min(a: int, b: int): int
  {
    if a <= b then a else b
  }

  // ---------------------------------------------------------------------------------------
  // Chunking.

  /** The batches, in order: full batches of 100, then what is left. */
  function Chunks(bs: seq<Block>): seq<seq<Block>>
    decreases |bs|
  {
    if bs == [] then []
    else if |bs| <= ChunkSize then [bs]
    else [bs[..ChunkSize]] + Chunks(bs[ChunkSize..])
  }

  /** The batches put back together. */
  function Flatten(cs: seq<seq<Block>>): seq<Block>
    decreases |cs|
  {
    if cs == [] then [] else cs[0] + Flatten(cs[1..])
  }

  /** The batches concatenate back to the block list, in order. */
  lemma {:induction false} ChunksConcat(bs: seq<Block>)
    ensures Flatten(Chunks(bs)) == bs
    decreases |bs|
  {
    if |bs| > ChunkSize {
      var rest := Chunks(bs[ChunkSize..]);
      ChunksConcat(bs[ChunkSize..]);
      assert ([bs[..ChunkSize]] + rest)[1..] == rest;
      assert bs == bs[..ChunkSize] + bs[ChunkSize..];
    } else if bs != [] {
      assert [bs][1..] == [];
      assert bs + [] == bs;
    }
  }

  /**
   * There are ceil(n / 100) batches, none of them empty, none over 100 blocks, and all but
   * the last exactly 100; an empty list gives none at all.
   */
  lemma {:induction false} ChunksSizes(bs: seq<Block>)
    ensures |Chunks(bs)| == (|bs| + ChunkSize - 1) / ChunkSize
    ensures Chunks(bs) == [] <==> bs == []
    ensures forall k :: 0 <= k < |Chunks(bs)| ==> 0 < |Chunks(bs)[k]| <= ChunkSize
    ensures forall k :: 0 <= k < |Chunks(bs)| - 1 ==> |Chunks(bs)[k]| == ChunkSize
    decreases |bs|
  {
    if |bs| > ChunkSize {
      var rest := Chunks(bs[ChunkSize..]);
      ChunksSizes(bs[ChunkSize..]);
      var cs := [bs[..ChunkSize]] + rest;
      assert Chunks(bs) == cs;
      assert forall k :: 1 <= k < |cs| ==> cs[k] == rest[k - 1];
    }
  }

  /** The batch starting at `i` is `blocks.slice(i, i + 100)`, the end clamped to the length. */
  lemma ChunksFrom(bs: seq<Block>, i: nat)
    requires i < |bs|
    ensures Chunks(bs[i..]) == [bs[i..Min(i + ChunkSize, |bs|)]] + Chunks(bs[Min(i + ChunkSize, |bs|)..])
  {
    var t := bs[i..];
    if |t| <= ChunkSize {
      assert Min(i + ChunkSize, |bs|) == |bs|;
      assert bs[i..|bs|] == t;
      assert bs[|bs|..] == [];
      assert [t] + [] == [t];
    } else {
      assert t[..ChunkSize] == bs[i..i + ChunkSize];
      assert t[ChunkSize..] == bs[i + ChunkSize..];
    }
  }

  /** One turn of the chunking loop: the batch at `i` joins those already built. */
  lemma ChunkStep(chunks: seq<seq<Block>>, blocks: seq<Block>, i: nat)
    requires i < |blocks|
    requires chunks + Chunks(blocks[i..]) == Chunks(blocks)
    ensures (chunks + [blocks[i..Min(i + ChunkSize, |blocks|)]]) + Chunks(blocks[Min(i + ChunkSize, |blocks|)..]) == Chunks(blocks)
  {
    ChunksFrom(blocks, i);
    var c := blocks[i..Min(i + ChunkSize, |blocks|)];
    var rest := Chunks(blocks[Min(i + ChunkSize, |blocks|)..]);
    assert chunks + ([c] + rest) == (chunks + [c]) + rest;
  }

  /** The first loop of `processNotionContent`. */
  method ChunkBlocks(blocks: seq<Block>) returns (chunks: seq<seq<Block>>)
    ensures chunks == Chunks(blocks)
  {
    chunks := [];
    var i := 0;
    while i < |blocks|
      invariant 0 <= i
      invariant chunks + Chunks(blocks[Min(i, |blocks|)..]) == Chunks(blocks)
    {
      assert Min(i, |blocks|) == i;
      ChunkStep(chunks, blocks, i);
      chunks := chunks + [blocks[i..Min(i + ChunkSize, |blocks|)]];
      i := i + ChunkSize;
    }
    assert blocks[|blocks|..] == [];
    assert chunks + [] == chunks;
  }

  /**
   * The second loop: one append per batch, in order, always to `notionId`; `appendSucceeds(k)`
   * is how the `k`-th call ends, and a failure does not stop the batches after it.
   */
  method AppendChunks(notionId: string, chunks: seq<seq<Block>>, appendSucceeds: nat -> bool)
    returns (calls: seq<AppendCall>)
    ensures |calls| == |chunks|
    ensures forall k :: 0 <= k < |calls| ==> calls[k] == AppendCall(notionId, chunks[k], appendSucceeds(k))
  {
    calls := [];
    for k := 0 to |chunks|
      invariant |calls| == k
      invariant forall j :: 0 <= j < k ==> calls[j] == AppendCall(notionId, chunks[j], appendSucceeds(j))
    {
      calls := calls + [AppendCall(notionId, chunks[k], appendSucceeds(k))];
    }
  }

  /**
   * `processNotionContent(content, fullPath, notionId, ...)`: a conversion that rejects makes
   * no call; otherwise every batch of the converted blocks is appended to `notionId`, in order.
   */
  method ProcessNotionContent(content: string, fullPath: string, notionId: string, m: Entries,
                              pathname: string -> Option<string>, upload: string -> Option<string>,
                              parse: string -> Result<seq<Block>>, appendSucceeds: nat -> bool)
    returns (r: Option<seq<AppendCall>>)
    ensures r.None? <==> Convert(content, fullPath, m, pathname, upload, parse).None?
    ensures r.Some? ==>
      var chunks := Chunks(Convert(content, fullPath, m, pathname, upload, parse).value);
      && |r.value| == |chunks|
      && forall k :: 0 <= k < |r.value| ==> r.value[k] == AppendCall(notionId, chunks[k], appendSucceeds(k))
  {
    var blocks := ConvertMarkdownToNotionBlocks(content, fullPath, m, pathname, upload, parse);
    if blocks.None? {
      return None;
    }
    var chunks := ChunkBlocks(blocks.value);
    var calls := AppendChunks(notionId, chunks, appendSucceeds);
    r := Some(calls);
  }

  /** The blocks sent by a run of append calls, in order. */
  function Sent(calls: seq<AppendCall>): seq<Block>
    decreases |calls|
  {
    if calls == [] then [] else calls[0].chunk + Sent(calls[1..])
  }

  /**
   * Whatever the appends answer, the calls carry every block exactly once and in order, to
   * `notionId` alone; no block means no call.
   */
  lemma {:induction false} AppendsCarryBlocks(notionId: string, blocks: seq<Block>, appendSucceeds: nat -> bool,
                                              calls: seq<AppendCall>)
    requires |calls| == |Chunks(blocks)|
    requires forall k :: 0 <= k < |calls| ==> calls[k] == AppendCall(notionId, Chunks(blocks)[k], appendSucceeds(k))
    ensures Sent(calls) == blocks
    ensures calls == [] <==> blocks == []
    ensures forall k :: 0 <= k < |calls| ==> calls[k].pageId == notionId && 0 < |calls[k].chunk| <= ChunkSize
  {
    ChunksConcat(blocks);
    ChunksSizes(blocks);
    SentFlatten(calls, Chunks(blocks));
  }

  lemma {:induction false} SentFlatten(calls: seq<AppendCall>, cs: seq<seq<Block>>)
    requires |calls| == |cs|
    requires forall k :: 0 <= k < |calls| ==> calls[k].chunk == cs[k]
    ensures Sent(calls) == Flatten(cs)
    decreases |calls|
  {
    if calls != [] {
      SentFlatten(calls[1..], cs[1..]);
    }
  }

  // ---------------------------------------------------------------------------------------
  // Page and folder creation.

  /** The page map after `createNotionPage` with the answer of `createEmptyPage`. */
  function AfterPage(m: Entries, fullPath: string, title: string, response: Option<Created>): Entries
    requires UniqueKeys(m)
  {
    match response
    case None => m
    case Some(c) => Put(m, fullPath, PageMapping(fullPath, c.id, title, c.url))
  }

  /**
   * A created page is recorded under its path with its own path, id, title and url; a failed
   * creation leaves the map as it was. No other key changes either way.
   */
  lemma AfterPageLookup(m: Entries, fullPath: string, title: string, response: Option<Created>, k: string)
    requires UniqueKeys(m)
    ensures UniqueKeys(AfterPage(m, fullPath, title, response))
    ensures Keys(AfterPage(m, fullPath, title, response)) == if response.Some? then Keys(m) + {fullPath} else Keys(m)
    ensures Get(AfterPage(m, fullPath, title, response), k)
            == if response.Some? && k == fullPath
               then Some(PageMapping(fullPath, response.value.id, title, response.value.url))
               else Get(m, k)
  {
    if response.Some? {
      var v := PageMapping(fullPath, response.value.id, title, response.value.url);
      PutUnique(m, fullPath, v);
      PutKeys(m, fullPath, v);
      PutGet(m, fullPath, v, k);
    }
  }

  /**
   * `createNotionPage(fullPath, title, currentFolderPageId, ...)`: `thrown` is the rethrown
   * creation error.
   */
  method CreateNotionPage(fullPath: string, title: string, currentFolderPageId: string,
                          createEmptyPage: (string, string, string) -> Option<Created>, pageMap: PageMap)
    returns (thrown: bool)
    requires pageMap.Valid()
    modifies pageMap
    ensures pageMap.Valid()
    ensures thrown == createEmptyPage(fullPath, title, currentFolderPageId).None?
    ensures pageMap.entries == AfterPage(old(pageMap.entries), fullPath, title, createEmptyPage(fullPath, title, currentFolderPageId))
  {
    var response := createEmptyPage(fullPath, title, currentFolderPageId);
    if response.None? {
      return true;
    }
    pageMap.Set(fullPath, PageMapping(fullPath, response.value.id, title, response.value.url));
    thrown := false;
  }

  /** The key a folder page is recorded under: the folder's path followed by `.md`. */
  function FolderKey(directoryPath: string): string
  {
    directoryPath + ".md"
  }

  /** The page map after `createNotionFolder` with the answer of `createFolderPage`. */
  function AfterFolder(m: Entries, directoryPath: string, response: Option<Created>): Entries
    requires UniqueKeys(m)
  {
    match response
    case None => m
    case Some(c) => Put(m, FolderKey(directoryPath), PageMapping(directoryPath, c.id, Basename(directoryPath), c.url))
  }

  /** The id `createNotionFolder` resolves to: the new page's, or the parent's when creation fails. */
  function FolderPageId(parentPageId: string, response: Option<Created>): string
  {
    if response.Some? then response.value.id else parentPageId
  }

  /**
   * A created folder is recorded under `directoryPath + ".md"`, with the folder's own path,
   * its basename as title, and the new id, which is also what the call gives back; a failed
   * creation changes no key and gives back the parent's id.
   */
  lemma AfterFolderLookup(m: Entries, directoryPath: string, parentPageId: string, response: Option<Created>, k: string)
    requires UniqueKeys(m)
    ensures UniqueKeys(AfterFolder(m, directoryPath, response))
    ensures Keys(AfterFolder(m, directoryPath, response))
            == if response.Some? then Keys(m) + {directoryPath + ".md"} else Keys(m)
    ensures Get(AfterFolder(m, directoryPath, response), k)
            == if response.Some? && k == directoryPath + ".md"
               then Some(PageMapping(directoryPath, FolderPageId(parentPageId, response), Basename(directoryPath), response.value.url))
               else Get(m, k)
  {
    if response.Some? {
      var v := PageMapping(directoryPath, response.value.id, Basename(directoryPath), response.value.url);
      PutUnique(m, FolderKey(directoryPath), v);
      PutKeys(m, FolderKey(directoryPath), v);
      PutGet(m, FolderKey(directoryPath), v, k);
    }
  }

  /** `createNotionFolder(directoryPath, parentPageId, ...)`: the folder page is titled with the basename. */
  method CreateNotionFolder(directoryPath: string, parentPageId: string,
                            createFolderPage: (string, string, string) -> Option<Created>, pageMap: PageMap)
    returns (id: string)
    requires pageMap.Valid()
    modifies pageMap
    ensures pageMap.Valid()
    ensures id == FolderPageId(parentPageId, createFolderPage(directoryPath, Basename(directoryPath), parentPageId))
    ensures pageMap.entries == AfterFolder(old(pageMap.entries), directoryPath, createFolderPage(directoryPath, Basename(directoryPath), parentPageId))
  {
    var folderName := Basename(directoryPath);
    var response := createFolderPage(directoryPath, folderName, parentPageId);
    if response.None? {
      return parentPageId;
    }
    pageMap.Set(directoryPath + ".md", PageMapping(directoryPath, response.value.id, folderName, response.value.url));
    id := response.value.id;
  }
}
