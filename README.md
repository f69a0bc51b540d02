# Migrating an Outline export to Notion — a Dafny model

This project models the core of `migrate-outline-to-notion`. The tool reads a directory
exported from the Outline wiki and rebuilds it as Notion pages. Its core has four parts:

- **Markdown converter** (`MarkdownToNotionConverter`). It cleans each markdown file line by
  line: backslash-only lines are dropped, `*** ` is rewritten and `==highlight==` marks are
  stripped. It flags lines that look like they hold a password. It uploads the images under
  `uploads/` or `public/` and rewrites their links. It points internal links (`./…`, `/…`,
  links to the Outline host) at the Notion page recorded for them, or writes a French note
  when there is none. It then hands the text to a markdown-to-blocks parser, folds
  `:::info` … `:::` paragraphs into callouts, and pads the rows of every top-level table to
  the widest row.
- **Rate limiter**. A global FIFO queue of tasks, a FIFO queue per page, and a set of pages
  with a task in flight. It keeps the completion times of the last ten seconds. It starts a
  task only when fewer than ten completed in that window, and only for a page that has
  nothing in flight.
- **Notion processor**. It appends a file's blocks to its page in batches of 100. It records
  every created page, and every created folder page, in an insertion-ordered page map.
- **Older script** (`src/bin/migrate.ts`). It has its own, simpler cleanup, link rewrite and
  image lookup. Its two-phase walk first creates an empty page per markdown file and a
  folder page per directory, at most 500 pages directly in one directory. It then fills each
  recorded page with its converted content.

## How the model is organised

The model has one module per file.

- `wrappers.dfy`: `Option` and `Result`.
- `text.dfy`: splitting and joining on one character.
- `paths.dfy`: POSIX `path.normalize`, `join`, `dirname` and `basename`.
- `uri_encoding.dfy`: `encodeURIComponent` and `decodeURIComponent` over UTF-8.
- `page_map.dfy`: the JavaScript `Map` of page mappings, as a sequence of pairs, with a
  `PageMap` class that the walk mutates.
- `replace.dfy`: `String.prototype.replace` with a string pattern, including the
  `$`-pattern expansion of the replacement.
- `tables.dfy`, `blocks.dfy`: the Notion blocks the parser produces.
- `cleanup.dfy`, `links.dfy`, `images.dfy`, `callouts.dfy`, `converter.dfy`: the converter.
- `rate_limiter.dfy`: a pure limiter state with its step functions, and a `RateLimiter`
  class whose methods update its fields by those steps.
- `notion_processor.dfy`: chunking, appending, and the page-map updates.
- `migrate.dfy`: the older script and its walk over a directory tree given as a value.

**Regular expressions.** Each pattern the source uses is written out as a scanning function
that follows JavaScript's matching order:

- lazy and greedy groups;
- the first alternative tried first;
- `matchAll` resuming after each match.

Lemmas show which inputs each pattern matches.

**Outside world.** The parser, the uploads, `new URL(…).pathname`, `fs.existsSync`,
`readFile` and the Notion client are function parameters. A Notion call that throws is a
`None` answer. Page creation is also indexed by the path of the entry the page is made
for, so two requests with the same title and parent can get different answers.

**Rejections.** A rejected promise that the source does not catch is a `None` result.

**Imperative code.** Loops in the source are methods with loop invariants. Each method is
proved equal to a specification function, and the properties are proved as lemmas about
that function.

## Model

| member | source | states |
|---|---|---|
| Text.JoinSplit | src/markdownToNotion.ts:79-89 | Splitting the content at `\n` and joining the lines back gives the content unchanged. |
| Text.SplitJoin | src/markdownToNotion.ts:79-89 | Joining lines that hold no `\n` and splitting again gives the same lines. |
| Text.SplitOn | src/markdownToNotion.ts:80 | `split` always gives at least one part, and no part holds the separator. |
| Paths.NormalizeIdempotent | src/markdownToNotion.ts:94-109 | `path.normalize` of a normalised path changes nothing. |
| Paths.RenderParse | src/markdownToNotion.ts:94-109 | A path built from canonical segments parses back to the same absolute flag, trailing `/` and segments. |
| Paths.JoinNameSegments | src/bin/migrate.ts:287 | Joining an entry name to a directory adds exactly that segment and keeps the path absolute or relative. |
| Paths.BasenameJoin | src/bin/migrate.ts:287-298 | The basename of `join(d, n)` is the entry name `n`. |
| Paths.JoinNameInjective | src/bin/migrate.ts:287-293 | Two names joined to the same directory give the same path only when they are the same name. |
| Paths.JoinNameSuffix | src/bin/migrate.ts:273-275 | `join(d, D) + ".md"` is the path `join(d, D + ".md")`, so the folder key is the sibling content file. |
| UriEncoding.DecodeEncode | src/markdownToNotion.ts:113 | `decodeURIComponent` undoes `encodeURIComponent` on every string. |
| UriEncoding.EncodeAlphabet | src/markdownToNotion.ts:113 | The encoding uses only unreserved characters and `%XX` with upper-case hexadecimal digits. |
| UriEncoding.EncodeUnescaped | src/markdownToNotion.ts:113 | Text made only of unreserved characters encodes to itself. |
| UriEncoding.EncodeAppend | src/markdownToNotion.ts:113 | Encoding is done character by character: the encoding of `a + b` is that of `a` followed by that of `b`. |
| PageMaps.Get | src/bin/migrate.ts:338 | `get` finds a value exactly when the key is in the map, and the value is the one stored under that key. |
| PageMaps.Put | src/notionProcessor.ts:39-44 | `set` keeps an existing key in place with the new value, appends a new key last, and changes no other entry. |
| PageMaps.PutGet | src/notionProcessor.ts:39-44 | After `set(k, v)`, `get(k)` gives `v` and `get` of any other key is unchanged. |
| PageMaps.PutKeys | src/notionProcessor.ts:39-44 | After `set(k, v)`, the keys are the old keys plus `k`. |
| PageMaps.PageMap.constructor | src/bin/migrate.ts:20 | A new page map is empty. |
| PageMaps.PageMap.Lookup | src/bin/migrate.ts:338 | `pageMap.get` on the object is `get` on its entries. |
| PageMaps.PageMap.Set | src/notionProcessor.ts:39-44 | `pageMap.set` on the object replaces its entries by `set` of the old entries and keeps their keys unique. |
| Replace.IndexOf | src/markdownToNotion.ts:145 | The position found is the first occurrence of the pattern; no result means there is no occurrence. |
| Replace.ReplaceFirstLiteral | src/markdownToNotion.ts:145 | Only the first occurrence is replaced: the text before it and after it is kept, and text without an occurrence is unchanged. |
| Replace.ReplaceFirstPlain | src/markdownToNotion.ts:145 | A replacement without `$` is taken literally by `replace`. |
| Replace.ReplaceLiteralSelf | src/markdownToNotion.ts:129-145 | Replacing an occurrence by itself, literally, changes nothing. |
| Replace.ReplaceLiteralAt | src/markdownToNotion.ts:145 | When the pattern does not start within `pre`, `pre + pat + post` becomes `pre + repl + post`. |
| Replace.DollarSelfReplace | src/markdownToNotion.ts:145 | `"$$".replace("$$", "$$")` gives `"$"`. |
| Tables.MaxWidth | src/markdownToNotion.ts:50 | The width bounds every row and is the width of some row; it is 0 for no rows. |
| Tables.NormalizeShape | src/markdownToNotion.ts:47-66 | The rows come out empty exactly when every row is empty. Otherwise every row is kept, in order, as a prefix of a row padded with empty cells to the widest row's width. |
| Tables.NormalizeRectangular | src/markdownToNotion.ts:47-66 | A table whose rows already share one non-zero width is left as it is. |
| Tables.NormalizeIdempotent | src/markdownToNotion.ts:47-66 | Normalising the rows twice is the same as normalising them once. |
| Cleanup.BackslashLineComplete | src/markdownToNotion.ts:81 | Every line of spaces, one or more backslashes and spaces is dropped. |
| Cleanup.StarredBackslashLineComplete | src/markdownToNotion.ts:81 | So is every line of spaces, `*`, spaces, one or more backslashes and spaces. |
| Cleanup.BackslashLineSound | src/markdownToNotion.ts:81 | Every dropped line has one of those two shapes. |
| Cleanup.BareBackslashLineIsBackslashLine | src/bin/migrate.ts:80 | Every line the older cleanup drops is also dropped by the converter. |
| Cleanup.StarredLineOnlyConverterDrops | src/bin/migrate.ts:80 | `*\` is dropped by the converter but kept by the older cleanup. |
| Cleanup.RewriteTripleStar | src/markdownToNotion.ts:86-87 | A leading `*** ` becomes `* ** `, and the rest of the line loses its highlight marks. |
| Cleanup.StripOneHighlight | src/markdownToNotion.ts:87 | `==x==` becomes `x` when `x` is non-empty and has no `=`. |
| Cleanup.StripHighlightsChars | src/markdownToNotion.ts:87 | Stripping highlights never lengthens a line and adds no character. |
| Cleanup.RewriteLineChars | src/markdownToNotion.ts:86-87 | A rewritten line holds only characters of the line, `*` and spaces. |
| Cleanup.CleanLinesAppend | src/markdownToNotion.ts:79-89 | Cleanup treats lines one at a time: the lines of `a + b` clean to those of `a` followed by those of `b`, and a single line disappears if it is a backslash line and is rewritten otherwise. |
| Cleanup.CleanLinesLength | src/markdownToNotion.ts:81 | Cleanup never adds a line. |
| Cleanup.CleanContentLines | src/markdownToNotion.ts:77-92 | The lines of the cleaned content are the cleaned lines of the content; when every line is dropped the result is the empty text. |
| Cleanup.FilterBareKeeps | src/bin/migrate.ts:76-82 | The older cleanup keeps exactly the lines that are not backslash-only lines, unchanged. |
| Cleanup.FilterBareAppend | src/bin/migrate.ts:78-81 | The older filter treats lines one at a time: the lines of `a + b` filter to those of `a` followed by those of `b`, and a single line disappears if it is a backslash-only line and is kept unchanged otherwise. This fixes the order and the number of the kept lines. |
| Cleanup.CleanContentBareLines | src/bin/migrate.ts:76-82 | The older cleanup's lines are the kept input lines. |
| Cleanup.PasswordComplete | src/markdownToNotion.ts:68-74 | A line with a keyword (`password`, `mdp`, `pwd`, or `mot`, spaces, `de`, spaces, `passe`, in any case), optional spaces, `:` or `=`, optional spaces and a non-space character is flagged, whatever surrounds it. |
| Cleanup.PasswordSound | src/markdownToNotion.ts:68-74 | Conversely, a flagged line contains such a keyword, optional spaces, `:` or `=`, optional spaces and a non-space character. |
| Cleanup.NoSeparatorNoPassword | src/markdownToNotion.ts:68-74 | A line without `:` and `=` is never flagged. |
| Cleanup.PasswordWithValue | src/markdownToNotion.ts:70 | `password: hunter2` is flagged. |
| Cleanup.PasswordWithoutValue | src/markdownToNotion.ts:70 | `The password policy requires...` is not flagged. |
| Links.LinkAt | src/markdownToNotion.ts:124 | A match of `\[([^\]]+)\]\(([^)]+)\)` starts at the given index and has non-empty text without `]` and a non-empty target without `)`. |
| Links.LinkAtSource | src/markdownToNotion.ts:124 | Every well-formed link is matched where it starts, with its own text and target. |
| Links.MatchAllChain | src/markdownToNotion.ts:124 | `matchAll` gives non-overlapping matches from left to right, each one a match of the link pattern at its start. |
| Links.MatchOneLink | src/markdownToNotion.ts:124 | A text whose only `[` opens a well-formed link has exactly that one match. |
| Links.NormalizeOutlinePath | src/markdownToNotion.ts:94-109 | A URL that is not an internal link is returned as it is; the call throws only when the URL names the Outline host and cannot be parsed. |
| Links.OriginTarget | src/markdownToNotion.ts:95-98 | A link to the Outline host maps to the normalised path of its URL, which is a fixed point of `normalize`. |
| Links.RelativeTarget | src/markdownToNotion.ts:100-102 | A `./` link maps to its join with the current file's directory, which is already normal. |
| Links.AbsoluteTarget | src/markdownToNotion.ts:104-106 | A `/` link maps to its normal form. |
| Links.FirstMapped | src/markdownToNotion.ts:111-118 | The result is the value of the first entry, in insertion order, whose encoded basename occurs in the path. No result means no entry matches. |
| Links.FindMappedPage | src/markdownToNotion.ts:111-118 | The loop with an early return finds that first matching entry. |
| Links.ProcessMarkdownLinks | src/markdownToNotion.ts:120-149 | The loop replaces each link of the original content, in order, with its rewrite taken literally; a target that cannot be parsed rejects. |
| Links.NoLinkUnchanged | src/markdownToNotion.ts:120-149 | Content without `[` has no link and comes back unchanged. |
| Links.NonCandidatesUnchanged | src/markdownToNotion.ts:131-145 | Links that are not internal are left as they are, wherever they sit. |
| Links.RewriteOneLink | src/markdownToNotion.ts:127-146 | One link amid plain text: a non-internal link stays; a mapped internal link points at the page's URL; an unmapped one becomes `text - url -` and the French note; an unparsable one rejects. |
| Links.DollarLinkAltered | src/markdownToNotion.ts:145 | With `replace` as written, the external link `[$$](url)` becomes `[$](url)`. |
| Links.DollarLinkKept | src/markdownToNotion.ts:129-145 | With the replacement taken literally, the same link is kept as it is. |
| Links.OldCopiesPlainText | src/bin/migrate.ts:89-106 | The older callback rewrite copies text without `[` unchanged. |
| Links.OldRewriteOneLink | src/bin/migrate.ts:89-106 | One link amid plain text is replaced by what the callback returns, and the text around it is kept. |
| Links.OldRewriteOneLinkCases | src/bin/migrate.ts:89-106 | A mapped internal link points at the page's URL. Every other link becomes its bare text. An unparsable Outline URL rejects. |
| Links.OldSplicedAll | src/bin/migrate.ts:89-106 | For any content, the callback `replace` copies the text between the matches and puts each match's callback value in its place, from left to right. It rejects as soon as one value does. |
| Links.RewriteLinksSpliced | src/markdownToNotion.ts:127-146 | From any point of the loop on, each remaining match gives way to its replacement and the text between matches is copied. This holds as long as each link, when its turn comes, is the first occurrence of its own source in the rewritten text, or is replaced by that source. |
| Links.RewriteSpliced | src/markdownToNotion.ts:120-149 | Under the same condition, the result for the whole content is the text between the matches interleaved with each match's replacement. |
| Links.RewriteLinksPlain | src/markdownToNotion.ts:145 | When no replacement holds `$`, `replace` as written and the literal replacement give the same result. |
| Images.PrefixAtStartsWith | src/markdownToNotion.ts:155-168 | The prefix alternative of the image pattern is the `startsWith('uploads/')` or `startsWith('public/')` test. |
| Images.ImageAt | src/markdownToNotion.ts:155 | A match of the image pattern starts at the given index, spans its own source, and has a path under `uploads/` or `public/`. |
| Images.ImagesFrom | src/markdownToNotion.ts:155-159 | `matchAll` gives non-overlapping image matches from left to right, each with such a path. |
| Images.ImageAtSource | src/markdownToNotion.ts:155-176 | An untitled image whose alt text has no `]` or line break and whose path has no space is matched wherever it occurs, with its alt text and path as the groups. |
| Images.DecodedKeepsPrefix | src/markdownToNotion.ts:166-168 | A matched path that decodes still starts with `uploads/` or `public/`, so every decodable image is uploaded. |
| Images.ImageReplacementCases | src/markdownToNotion.ts:161-184 | An image rejects exactly when its path cannot be decoded. It points at the uploaded URL when the upload gives a non-empty one, and is otherwise kept as written. |
| Images.RewriteImageAt | src/markdownToNotion.ts:184 | One image amid text without `!` is replaced in place, and the text around it is kept. |
| Images.FailedUploadsUnchanged | src/markdownToNotion.ts:172-184 | When every upload fails, the images are left as they are. |
| Images.NoImageOnlyLinks | src/markdownToNotion.ts:151-191 | Content without `!` has no image, and only its links are rewritten. |
| Images.FailedUploadsOnlyLinks | src/markdownToNotion.ts:151-191 | When no image's upload succeeds, processing the content only rewrites its links. |
| Images.ProcessMarkdownContent | src/markdownToNotion.ts:151-191 | The loop replaces each matched image of the original content in order, then rewrites the links. |
| Callouts.OpenerKind | src/markdownToNotion.ts:199-200 | An opener names the first kind whose marker starts the text; no kind means no marker does. |
| Callouts.CloserNotOpener | src/markdownToNotion.ts:199-214 | `:::` alone is never an opener. |
| Callouts.ProcessCalloutBlocks | src/markdownToNotion.ts:193-242 | The loop computes the fold of the callout state machine over the blocks. |
| Callouts.OneCallout | src/markdownToNotion.ts:197-231 | An opener, marker-free blocks and a closer become one callout of the opener's kind, emoji and colour, holding those blocks in order. The blocks before and after are folded on their own, whatever the blocks before leave open. |
| Callouts.Unterminated | src/markdownToNotion.ts:202-238 | A callout that is never closed is lost, with every block gathered into it, whatever the blocks before leave open. |
| Callouts.SecondOpener | src/markdownToNotion.ts:199-210 | A second opener discards the callout gathered so far and starts a new one. |
| Callouts.PassThrough | src/markdownToNotion.ts:213-238 | Without an opener, every block passes through in order, except stray closers. |
| Callouts.NoMarkersOut | src/markdownToNotion.ts:193-242 | No opener or closer is left, at the top level or inside a callout, provided the incoming callouts hold none. |
| Callouts.NoLonger | src/markdownToNotion.ts:193-242 | Folding never adds blocks. |
| Converter.NormalizeTablesShape | src/markdownToNotion.ts:253-276 | Every block keeps its place and kind. A table keeps its width and header flags, and its rows are normalised. The "Table conversion failed" paragraph is never produced. |
| Converter.NormalizeTablesIdempotent | src/markdownToNotion.ts:253-276 | Normalising the tables twice is normalising them once. |
| Converter.NormalizeTablesClean | src/markdownToNotion.ts:253-276 | Normalising tables introduces no callout marker. |
| Converter.NormalizeTablesLoop | src/markdownToNotion.ts:253-276 | The `map` over the blocks leaves exactly the table normalisation of the list, whose properties the three lemmas above state. |
| Converter.ConvertMarkdownToNotionBlocks | src/markdownToNotion.ts:244-290 | The method computes the conversion: cleanup, then images and links, then the parser, callouts and tables. |
| Converter.ConvertOutcomes | src/markdownToNotion.ts:244-290 | The conversion rejects exactly when the image or link rewrite fails. A parser error gives one paragraph with `Error converting content: ` and the message. Otherwise the result has at most as many blocks as were parsed, every table normal and, when the parser's own callouts hold no marker, no marker left. |
| RateLimiting.FirstEligible | src/utils/rateLimiter.ts:62-69 | `findIndex` gives the first queued task whose page has nothing in flight, or -1 exactly when every queued task waits on an active page. |
| RateLimiting.Prune | src/utils/rateLimiter.ts:52-55 | The pruned window keeps only timestamps after the cutoff. |
| RateLimiting.PruneExtremes | src/utils/rateLimiter.ts:52-55 | Pruning keeps everything exactly when nothing is old, and keeps nothing exactly when everything is. |
| RateLimiting.PruneTwice | src/utils/rateLimiter.ts:52-55 | Pruning at an earlier cutoff and then a later one is pruning at the later one. |
| RateLimiting.EnqueueValid | src/utils/rateLimiter.ts:31-36 | `add` appends the task to the global queue and to its page queue, and keeps each page queue equal to that page's slice of the global queue. |
| RateLimiting.DispatchValid | src/utils/rateLimiter.ts:44-80 | A dispatch keeps the page queues consistent with the global queue. |
| RateLimiting.DispatchChoice | src/utils/rateLimiter.ts:62-75 | A started task is the earliest queued task whose page was idle, and it heads its page queue. |
| RateLimiting.DispatchStartState | src/utils/rateLimiter.ts:50-80 | Starting a task marks its page active, removes that task alone from the global queue and its page queue, leaves other pages alone, and leaves fewer than ten completions in the window. |
| RateLimiting.DispatchThrottles | src/utils/rateLimiter.ts:50-60 | With ten or more recent completions and a non-empty queue, nothing starts; only the window is pruned and `processing` stays set. |
| RateLimiting.DispatchIdles | src/utils/rateLimiter.ts:45-69 | A dispatch is idle exactly when the queue is empty, or every queued page is active and the window has room; it then clears `processing` and changes no queue. |
| RateLimiting.DispatchConserves | src/utils/rateLimiter.ts:71-72 | No task is lost or duplicated: the started task and the new queue make up the old queue as a multiset. |
| RateLimiting.FilterRemoveFirst | src/utils/rateLimiter.ts:72-78 | Splicing out the first task of a page removes exactly the head of that page's queue. |
| RateLimiting.CompletionValid | src/utils/rateLimiter.ts:83-93 | Completion changes neither queue. |
| RateLimiting.CompletionCounts | src/utils/rateLimiter.ts:88-106 | A completion adds one to the count of every window that contains its time. |
| RateLimiting.ActiveCountSteps | src/utils/rateLimiter.ts:80-113 | The active count rises by one when a task starts, and falls by one when an active page's task completes. |
| RateLimiting.RecentExecutionsBounds | src/utils/rateLimiter.ts:100-109 | The per-period count is at most the number of timestamps, and equals it exactly when every timestamp is after the cutoff. |
| RateLimiting.PruneKeepsWindow | src/utils/rateLimiter.ts:52-106 | Pruning loses nothing a later ten-second count would see, and the throttle reads that same count. |
| RateLimiting.RateLimiter.constructor | src/utils/rateLimiter.ts:9-15 | A new limiter has empty queues, no active page, no timestamp and is not processing. |
| RateLimiting.RateLimiter.Add | src/utils/rateLimiter.ts:17-42 | The fields become the enqueue step, followed by a dispatch when none was running; the invariant is kept. |
| RateLimiting.RateLimiter.ProcessQueue | src/utils/rateLimiter.ts:44-80 | The fields become one dispatch step of the old state; the invariant is kept. |
| RateLimiting.RateLimiter.Complete | src/utils/rateLimiter.ts:83-93 | The completion time is recorded and the page is released; the invariant is kept. |
| RateLimiting.RateLimiter.TasksPerSecondCount | src/utils/rateLimiter.ts:100-109 | The count is at most the number of timestamps, and is 0 exactly when none is after the cutoff. |
| RateLimiting.RateLimiter.ActiveRequestsCount | src/utils/rateLimiter.ts:111-113 | The count is the number of pages with a task in flight. |
| NotionProcessor.ChunksConcat | src/notionProcessor.ts:15-18 | The batches concatenate back to the block list, in order. |
| NotionProcessor.ChunksSizes | src/notionProcessor.ts:15-18 | There are ceil(n / 100) batches, none empty and none over 100, and all but the last exactly 100. An empty list gives no batch. |
| NotionProcessor.ChunkBlocks | src/notionProcessor.ts:15-18 | The chunking loop builds exactly those batches. |
| NotionProcessor.AppendChunks | src/notionProcessor.ts:20-27 | There is one append per batch, in order, always to `notionId`; a failed append does not stop the later ones. |
| NotionProcessor.ProcessNotionContent | src/notionProcessor.ts:6-28 | A rejected conversion makes no call; otherwise every batch of the converted blocks is appended to `notionId`, in order. |
| NotionProcessor.AppendsCarryBlocks | src/notionProcessor.ts:20-27 | Whatever the appends answer, the calls carry every block exactly once, in order, to `notionId` alone; no block means no call. |
| NotionProcessor.AfterPageLookup | src/notionProcessor.ts:37-49 | A created page is recorded under its path with its id, title and url. A failed creation leaves the map unchanged. No other key changes. |
| NotionProcessor.CreateNotionPage | src/notionProcessor.ts:30-50 | The page map gets that update, and the call throws exactly when the creation fails. |
| NotionProcessor.AfterFolderLookup | src/notionProcessor.ts:59-75 | A created folder is recorded under `directoryPath + ".md"` with its path, basename title, id and url. A failure changes no key. |
| NotionProcessor.CreateNotionFolder | src/notionProcessor.ts:52-76 | The page map gets that update. The result is the new id, or the parent's id when creation fails. |
| Migrate.TitleOfMarkdownFile | src/bin/migrate.ts:298 | A markdown file's page title is its name without `.md`. |
| Migrate.ContentFileListed | src/bin/migrate.ts:273-275 | Every subdirectory other than `uploads` has its `D.md` sibling among the content files. |
| Migrate.FolderKeyIsContentFile | src/bin/migrate.ts:208-275 | A folder page's map key is the path of its directory's content file. |
| Migrate.CapReachedStops | src/bin/migrate.ts:284-285 | Once 500 pages exist in a directory, the rest of its entries, subdirectories included, are skipped. |
| Migrate.CreateEntriesCount | src/bin/migrate.ts:284-323 | `processedPages` counts exactly the empty pages created, failures excluded, and never exceeds 500. |
| Migrate.CreateEntriesAvoid | src/bin/migrate.ts:291-296 | No empty page is created for a folder's content file. |
| Migrate.CreateEntriesSkipUploads | src/bin/migrate.ts:289-290 | The walk never descends into the directory's `uploads`. |
| Migrate.CreateDirParent | src/bin/migrate.ts:279-301 | Outside the export root, phase 1 first makes the folder page under the parent, and every empty page made directly in the directory is requested under that folder's id. In the export root those pages go under the parent itself. |
| Migrate.CreateEntriesParent | src/bin/migrate.ts:284-301 | The loop of phase 1 requests every empty page it makes under the folder page's id. |
| Migrate.CreateEntriesPrefix | src/bin/migrate.ts:284-323 | The loop of phase 1 only appends to the events it started with. |
| Migrate.CreateDirFacts | src/bin/migrate.ts:266-324 | Phase 1 in one directory: an `uploads` directory is only reported. Otherwise at most 500 empty pages are made directly in it, none for a content file `D.md`, and its `uploads` is not entered. |
| Migrate.CreatePhase | src/bin/migrate.ts:248-324 | The method's page map and events are those of the phase-1 walk of the old map. |
| Migrate.CreateEntryStep | src/bin/migrate.ts:286-322 | One pass of the loop body does what one phase-1 entry step specifies. |
| Migrate.FirstExisting | src/bin/migrate.ts:47-52 | The index found is the first candidate that exists, or the end when none does. |
| Migrate.FindImageInUploads | src/bin/migrate.ts:39-53 | The result is an existing candidate, the `uploads` folder beside the file tried before the one above it. No result means no candidate exists. |
| Migrate.OldConvertOutcomes | src/bin/migrate.ts:84-182 | The older conversion rejects exactly when a link cannot be resolved. A parser error gives one error paragraph. Otherwise every block keeps its place, every table is normal, and a changed image is an upload of an existing `uploads` file. |
| Migrate.UpdateEntryFacts | src/bin/migrate.ts:337-361 | A file is filled only when it has a recorded page, into that page, with all its converted blocks in order. |
| Migrate.UpdateEntriesFacts | src/bin/migrate.ts:330-363 | Every fill of the phase-2 loop has that property. |
| Migrate.UpdateDirFacts | src/bin/migrate.ts:266-364 | Phase 2 skips `uploads` directories, and every fill goes to the recorded page with all its blocks. |
| Migrate.UpdateDirIgnoresParent | src/bin/migrate.ts:327-336 | The folder id phase 2 computes is never used: the phase is the same whatever parent id it starts from. |
| Migrate.UpdatePhase | src/bin/migrate.ts:326-364 | The method's events, and whether it completed, are those of the phase-2 walk. |
| Migrate.UpdateEntriesLoop | src/bin/migrate.ts:330-363 | The `for` loop leaves the events, and whether the walk went on, that the phase-2 loop function gives from the first entry. |
| Migrate.UpdateEntryStep | src/bin/migrate.ts:333-361 | One pass of the loop body does what one phase-2 entry step specifies. |
| Migrate.Run | src/bin/migrate.ts:367-384 | The run fails exactly when either variable is empty. Otherwise it runs phase 1 on an empty map, then phase 2 on the map phase 1 built. |

## Left out

- I/O and scheduling are not modelled. File reading, `readdir`, logging, the password
  warning, the S3 and Notion clients, `Date.now`, `setTimeout` and `setImmediate` are
  function parameters, clock readings passed in, or left out.
- The rate limiter is modelled as atomic steps: enqueue, one dispatch up to the `await`,
  and completion. How the steps interleave under concurrency is not modelled.
- `getTasksPerSecond` divides a count by the period in floating point; the model states the
  count (`RateLimiting.RateLimiter.TasksPerSecondCount`).
- The markdown parser (`markdownToBlocks`) is a parameter. Blocks hold only what the core
  reads: paragraphs, callouts, tables and images, with every other kind passed through
  with its kind name, text and children. Rich text that is not a text object is not modelled.
- WHATWG URL parsing is a parameter giving the `pathname`, or `None` when `new URL` throws.
- `createNotionFolder`'s `children` argument is always empty in the callers and is not
  modelled.
- `main`'s reading of the environment is replaced by its two values, with an unset
  variable given as the empty string.
- Images.RewriteImages: takes each image's replacement literally. `String.replace` would
  also expand `$` patterns in an alt text, title or upload URL; that is the same defect as
  the `$$` finding below, and it is not modelled for images.
- Links.ProcessMarkdownLinks: replaces each link literally, which is the corrected rewrite
  (`Links.RewriteLinks`) from the finding below. The code as written expands `$` patterns
  in the replacement. `Links.RewriteLinksAsWritten` models that, and `Links.RewriteLinksPlain`
  shows the two agree whenever no replacement holds `$`.
- Links.RewriteSpliced: the interleaving is proved only where each link, when its turn comes,
  is the first occurrence of its own source in the rewritten text. Otherwise `replace`
  rewrites an earlier copy, as the code does, and the model follows the code.
- Migrate.UpdateDir: the cap test in phase 2 is left out. There `processedPages` is never
  incremented, so the test never fires.
- Migrate.Title: models `path.basename(p, '.md')` only for paths whose basename is not
  exactly `.md`. Such a file has no extension, so the walk never asks for its title.
- Migrate.UpdateEntryStep: a conversion that rejects ends the walk. In the script the
  rejection escapes `main` as an unhandled error; the model reports it as an incomplete
  walk.

## Behaviour worth knowing

These describe the code as written.

- A link to `./advanced` does not find the page recorded under `…/advanced.md`.
  `findMappedPage` looks for the encoded basename `advanced.md` in the link's path.
- The "Table conversion failed" branch is dead: `normalizeTableRowBlocks` always returns an
  array. A table with only empty rows keeps its place with no rows.
- `table_width` is not updated when rows are padded.
- Tables inside callouts are not normalised; only top-level blocks are.
- The limiter's limit of ten counts completions in the last ten seconds. It does not bound
  the number of tasks in flight.
- A callout's title keeps only the first text run of its opener, and drops that run's link.
- Callouts that the parser itself produced keep any markers they hold.
- The folder-page lookup at the start of phase 2 uses the directory's path, but folder
  pages are recorded under `path + ".md"`. It can find a folder page only when a directory is
  itself named `X.md` and sits next to a directory `X`. Whatever it finds is never used
  (`Migrate.UpdateDirIgnoresParent`).

## Findings

| source | as written | input that shows it | evidently intended | confidence | as-written member | corrected member |
|---|---|---|---|---|---|---|
| src/markdownToNotion.ts:145 | Each link is rewritten with `processedContent.replace(fullMatch, replacement)`. A string replacement passed to `replace` expands `$$`, `$&` and similar patterns, even when `replacement` is the unchanged `fullMatch`. | The external link `[$$](https://example.org)` becomes `[$](https://example.org)`. | Links that are not internal are left exactly as they are, and rewritten links are inserted literally. | not executed | Links.RewriteLinksAsWritten (shown by Links.DollarLinkAltered) | Links.RewriteLinks (proved by Links.DollarLinkKept, Links.NonCandidatesUnchanged) |
