/**
 * `src/bin/migrate.ts`: the older two-phase walk over an Outline export. Phase 1 creates a
 * folder page for each directory and an empty page for each markdown file, recording every
 * page in the shared page map; phase 2 converts each recorded file and appends its blocks
 * in batches of 100. The directory tree is a value read up front; file contents, the
 * existence test, the markdown parser and the Notion client are function parameters. What
 * the walk prints is kept as a log of events, one list per directory, in which a
 * subdirectory's own list sits inside one event.
 */
module Migrate {
  import opened Wrappers
  import opened Text
  import opened Blocks
  import opened Paths
  import opened PageMaps
  import opened Cleanup
  import opened Links
  import opened Converter
  import opened NotionProcessor

  /** One `readdir` entry: a regular file, a directory with its entries, or anything else. */
  datatype Entry = File(name: string) | Dir(name: string, entries: seq<Entry>) | Special(name: string)

  /** Entries are names, not paths. */
  predicate WellNamed(es: seq<Entry>)
  {
    forall j :: 0 <= j < |es| ==> IsName(es[j].name)
  }

  /** `MAX_PAGES`: the most empty pages created directly in one directory. */
  const MaxPages: nat := 500

  const UploadsName: string := "uploads"

  /**
   * Phase 1's outside world: `OUTLINE_EXPORT_PATH` and `notion.pages.create(title, parent)`.
   * The answer is indexed by the path of the entry the page is created for as well, since the
   * walk asks once per path and two requests with the same title and parent need not agree.
   */
  datatype CreateEnv = CreateEnv(exportPath: string, createPage: (string, string, string) -> Option<Created>)

  /**
   * Phase 2's outside world: `readFile`, the URL parser's `pathname`, `markdownToBlocks`,
   * `fs.existsSync`, `uploadImageToNotion` (`None` for null) and whether the `k`-th append
   * for a file resolves.
   */
  datatype UpdateEnv = UpdateEnv(
    readFile: string -> string,
    pathname: string -> Option<string>,
    parse: string -> Result<seq<Block>>,
    fileExists: string -> bool,
    upload: string -> Option<string>,
    appendSucceeds: (string, nat) -> bool)

  /** What the walk reports. */
  datatype Event =
    | SkippedUploads(path: string)
    | FolderPage(path: string, parentId: string, pageId: string)
    | SkippedContentFile(path: string)
    | EmptyPage(path: string, title: string, parentId: string, created: bool)
    | Subdirectory(path: string, events: seq<Event>)
    | Appended(path: string, calls: seq<AppendCall>)

  // ---------------------------------------------------------------------------------------
  // Names.

  /** `path.extname(name) === '.md'` for a name without a slash: `.md` alone has no extension. */
  predicate IsMarkdownName(name: string)
  {
    |name| > 3 && EndsWith(name, ".md")
  }

  /** `path.basename(fullPath, '.md')`, for any path other than `.md` itself. */
  function Title(fullPath: string): string
  {
    var b := Basename(fullPath);
    if IsMarkdownName(b) then b[..|b| - 3] else b
  }

  /** A subdirectory the walk descends into. */
  predicate IsSubdirectory(e: Entry)
  {
    e.Dir? && e.name != UploadsName
  }

  /** `foldersContentFiles`: `<dir>/<D>.md` for every subdirectory `D`, in entry order. */
  function ContentFiles(dp: string, es: seq<Entry>): seq<string>
  {
    if es == [] then []
    else (if IsSubdirectory(es[0]) then [Join(dp, es[0].name + ".md")] else []) + ContentFiles(dp, es[1..])
  }

  /** A markdown file `n` in `dp` gets the page title `n` without its `.md`. */
  lemma TitleOfMarkdownFile(dp: string, n: string)
    requires IsName(n) && IsMarkdownName(n)
    ensures Title(Join(dp, n)) + ".md" == n
  {
    BasenameJoin(dp, n);
  }

  /** Every subdirectory's `D.md` sibling is among the content files. */
  lemma {:induction false} ContentFileListed(dp: string, es: seq<Entry>, j: nat)
    requires j < |es| && IsSubdirectory(es[j])
    ensures Join(dp, es[j].name + ".md") in ContentFiles(dp, es)
  {
    if j > 0 {
      ContentFileListed(dp, es[1..], j - 1);
    }
  }

  /**
   * The key of a folder page is the path of its content file: phase 1 records folder `D`
   * under `join(dir, D) + '.md'`, which is `join(dir, D + '.md')`, the path phase 2 looks up
   * when it reaches `D.md`.
   */
  lemma FolderKeyIsContentFile(dp: string, n: string)
    requires IsName(n)
    ensures FolderKey(Join(dp, n)) == Join(dp, n + ".md")
  {
    JoinNameSuffix(dp, n, ".md");
  }

  // ---------------------------------------------------------------------------------------
  // Phase 1: empty pages.

  /** The page map, this directory's events so far and `processedPages`. */
  datatype Walk = Walk(m: Entries, events: seq<Event>, processed: nat)

  /** `processDirectory(dp, parentId, 'create')` on a directory with entries `d.entries`. */
  function CreateDir(dp: string, d: Entry, parentId: string, m: Entries, env: CreateEnv): (r: (Entries, seq<Event>))
    requires d.Dir? && UniqueKeys(m)
    ensures UniqueKeys(r.0)
    decreases d, 1, 0
  {
    if Basename(dp) == UploadsName then (m, [SkippedUploads(dp)])
    else if Basename(dp) == env.exportPath then
      var w := CreateEntries(dp, d, 0, parentId, ContentFiles(dp, d.entries), Walk(m, [], 0), env);
      (w.m, w.events)
    else
      var response := env.createPage(dp, Basename(dp), parentId);
      var id := FolderPageId(parentId, response);
      var w := CreateEntries(dp, d, 0, id, ContentFiles(dp, d.entries),
                             Walk(AfterFolder(m, dp, response), [FolderPage(dp, parentId, id)], 0), env);
      (w.m, w.events)
  }

  /** The `for` loop of phase 1 from entry `i` on. */
  function CreateEntries(dp: string, d: Entry, i: nat, folderId: string, cf: seq<string>, w: Walk, env: CreateEnv): (r: Walk)
    requires d.Dir? && i <= |d.entries| && UniqueKeys(w.m)
    ensures UniqueKeys(r.m)
    decreases d, 0, |d.entries| - i
  {
    if i == |d.entries| || w.processed >= MaxPages then w
    else CreateEntries(dp, d, i + 1, folderId, cf, CreateEntry(dp, d.entries[i], folderId, cf, w, env), env)
  }

  /** One entry of phase 1: recurse, skip a content file, or create an empty page. */
  function CreateEntry(dp: string, e: Entry, folderId: string, cf: seq<string>, w: Walk, env: CreateEnv): (r: Walk)
    requires UniqueKeys(w.m)
    ensures UniqueKeys(r.m)
    decreases e, 2, 0
  {
    var fullPath := Join(dp, e.name);
    if IsSubdirectory(e) then
      var sub := CreateDir(fullPath, e, folderId, w.m, env);
      Walk(sub.0, w.events + [Subdirectory(fullPath, sub.1)], w.processed)
    else if e.File? && IsMarkdownName(e.name) then
      if fullPath in cf then w.(events := w.events + [SkippedContentFile(fullPath)])
      else
        var title := Title(fullPath);
        var response := env.createPage(fullPath, title, folderId);
        Walk(AfterPage(w.m, fullPath, title, response),
             w.events + [EmptyPage(fullPath, title, folderId, response.Some?)],
             if response.Some? then w.processed + 1 else w.processed)
    else w
  }

  /** The empty pages created directly in a directory, failures not counted. */
  function CountCreated(evs: seq<Event>): nat
  {
    if evs == [] then 0
    else
      var last := evs[|evs| - 1];
      CountCreated(evs[..|evs| - 1]) + if last.EmptyPage? && last.created then 1 else 0
  }

  /** No empty page was made for one of the given paths. */
  predicate EmptyPagesAvoid(evs: seq<Event>, cf: seq<string>)
  {
    forall k :: 0 <= k < |evs| && evs[k].EmptyPage? ==> evs[k].path !in cf
  }

  /** The walk did not descend into `dp`'s `uploads` directory. */
  predicate NoUploadsDescent(evs: seq<Event>, dp: string)
  {
    forall k :: 0 <= k < |evs| && evs[k].Subdirectory? ==> evs[k].path != Join(dp, UploadsName)
  }

  /** One entry counts exactly the page it created, if any. */
  lemma CreateEntryCount(dp: string, e: Entry, folderId: string, cf: seq<string>, w: Walk, env: CreateEnv)
    requires UniqueKeys(w.m)
    ensures var r := CreateEntry(dp, e, folderId, cf, w, env);
      && r.processed as int - CountCreated(r.events) == w.processed as int - CountCreated(w.events)
      && r.processed <= w.processed + 1
  {
    var r := CreateEntry(dp, e, folderId, cf, w, env);
    if r.events != w.events {
      assert r.events[..|r.events| - 1] == w.events;
    }
  }

  /** One entry makes no empty page for a content file. */
  lemma CreateEntryAvoids(dp: string, e: Entry, folderId: string, cf: seq<string>, w: Walk, env: CreateEnv)
    requires UniqueKeys(w.m) && EmptyPagesAvoid(w.events, cf)
    ensures EmptyPagesAvoid(CreateEntry(dp, e, folderId, cf, w, env).events, cf)
  {
  }

  /** One entry does not descend into `uploads`. */
  lemma CreateEntrySkipsUploads(dp: string, e: Entry, folderId: string, cf: seq<string>, w: Walk, env: CreateEnv)
    requires UniqueKeys(w.m) && IsName(e.name) && NoUploadsDescent(w.events, dp)
    ensures NoUploadsDescent(CreateEntry(dp, e, folderId, cf, w, env).events, dp)
  {
    if IsSubdirectory(e) {
      SubdirectorySkipsUploads(dp, e, folderId, cf, w, env);
    } else {
      OtherEntrySkipsUploads(dp, e, folderId, cf, w, env);
    }
  }

  lemma SubdirectorySkipsUploads(dp: string, e: Entry, folderId: string, cf: seq<string>, w: Walk, env: CreateEnv)
    requires UniqueKeys(w.m) && IsName(e.name) && NoUploadsDescent(w.events, dp) && IsSubdirectory(e)
    ensures NoUploadsDescent(CreateEntry(dp, e, folderId, cf, w, env).events, dp)
  {
    var fullPath := Join(dp, e.name);
    var ev := Subdirectory(fullPath, CreateDir(fullPath, e, folderId, w.m, env).1);
    assert CreateEntry(dp, e, folderId, cf, w, env).events == w.events + [ev];
    if fullPath == Join(dp, UploadsName) {
      JoinNameInjective(dp, e.name, UploadsName);
    }
    NoUploadsDescentSnoc(w.events, ev, dp);
  }

  lemma OtherEntrySkipsUploads(dp: string, e: Entry, folderId: string, cf: seq<string>, w: Walk, env: CreateEnv)
    requires UniqueKeys(w.m) && NoUploadsDescent(w.events, dp) && !IsSubdirectory(e)
    ensures NoUploadsDescent(CreateEntry(dp, e, folderId, cf, w, env).events, dp)
  {
    var r := CreateEntry(dp, e, folderId, cf, w, env);
    if r.events != w.events {
      var ev := r.events[|r.events| - 1];
      assert r.events == w.events + [ev] && !ev.Subdirectory?;
      NoUploadsDescentSnoc(w.events, ev, dp);
    }
  }

  lemma NoUploadsDescentSnoc(evs: seq<Event>, ev: Event, dp: string)
    requires NoUploadsDescent(evs, dp) && (ev.Subdirectory? ==> ev.path != Join(dp, UploadsName))
    ensures NoUploadsDescent(evs + [ev], dp)
  {
    assert forall k :: 0 <= k < |evs| ==> (evs + [ev])[k] == evs[k];
  }

  /** Once `MAX_PAGES` pages are made, the rest of the directory is skipped, subdirectories included. */
  lemma CapReachedStops(dp: string, d: Entry, i: nat, folderId: string, cf: seq<string>, w: Walk, env: CreateEnv)
    requires d.Dir? && i <= |d.entries| && UniqueKeys(w.m) && w.processed >= MaxPages
    ensures CreateEntries(dp, d, i, folderId, cf, w, env) == w
  {
  }

  /** One turn of the loop of phase 1: the first remaining entry, then the rest. */
  lemma CreateEntriesStep(dp: string, d: Entry, i: nat, folderId: string, cf: seq<string>, w: Walk, env: CreateEnv)
    requires d.Dir? && i < |d.entries| && UniqueKeys(w.m) && w.processed < MaxPages
    ensures CreateEntries(dp, d, i, folderId, cf, w, env)
            == CreateEntries(dp, d, i + 1, folderId, cf, CreateEntry(dp, d.entries[i], folderId, cf, w, env), env)
  {
  }

  /** The loop of phase 1 returns its state unchanged once the entries or the page budget run out. */
  lemma CreateEntriesDone(dp: string, d: Entry, i: nat, folderId: string, cf: seq<string>, w: Walk, env: CreateEnv)
    requires d.Dir? && i <= |d.entries| && UniqueKeys(w.m)
    requires i == |d.entries| || w.processed >= MaxPages
    ensures CreateEntries(dp, d, i, folderId, cf, w, env) == w
  {
  }

  /** From `w` to `r` the counter stays within `MAX_PAGES` and moves with the pages created. */
  predicate CountKept(w: Walk, r: Walk)
  {
    && r.processed <= MaxPages
    && r.processed as int - CountCreated(r.events) == w.processed as int - CountCreated(w.events)
  }

  lemma CountKeptTrans(w: Walk, w': Walk, r: Walk)
    requires CountKept(w, w') && CountKept(w', r)
    ensures CountKept(w, r)
  {
  }

  /** One entry taken below the budget keeps the count. */
  lemma CreateEntryKeeps(dp: string, e: Entry, folderId: string, cf: seq<string>, w: Walk, env: CreateEnv)
    requires UniqueKeys(w.m) && w.processed < MaxPages
    ensures CountKept(w, CreateEntry(dp, e, folderId, cf, w, env))
  {
    CreateEntryCount(dp, e, folderId, cf, w, env);
  }

  /** The loop of phase 1 counts exactly the empty pages it created and never exceeds `MAX_PAGES`. */
  lemma {:induction false} CreateEntriesCount(dp: string, d: Entry, i: nat, folderId: string, cf: seq<string>, w: Walk, env: CreateEnv)
    requires d.Dir? && i <= |d.entries| && UniqueKeys(w.m) && w.processed <= MaxPages
    ensures CountKept(w, CreateEntries(dp, d, i, folderId, cf, w, env))
    decreases |d.entries| - i, 1
  {
    if i < |d.entries| && w.processed < MaxPages {
      CreateEntriesCountStep(dp, d, i, folderId, cf, w, env);
    } else {
      CreateEntriesDone(dp, d, i, folderId, cf, w, env);
    }
  }

  lemma {:induction false} CreateEntriesCountStep(dp: string, d: Entry, i: nat, folderId: string, cf: seq<string>, w: Walk,
                                                  env: CreateEnv)
    requires d.Dir? && i < |d.entries| && UniqueKeys(w.m) && w.processed < MaxPages
    ensures CountKept(w, CreateEntries(dp, d, i, folderId, cf, w, env))
    decreases |d.entries| - i, 0
  {
    var w' := CreateEntry(dp, d.entries[i], folderId, cf, w, env);
    CreateEntriesStep(dp, d, i, folderId, cf, w, env);
    CreateEntryKeeps(dp, d.entries[i], folderId, cf, w, env);
    CreateEntriesCount(dp, d, i + 1, folderId, cf, w', env);
    CountKeptTrans(w, w', CreateEntries(dp, d, i + 1, folderId, cf, w', env));
  }

  /** The loop of phase 1 never makes a page for a content file. */
  lemma {:induction false} CreateEntriesAvoid(dp: string, d: Entry, i: nat, folderId: string, cf: seq<string>, w: Walk, env: CreateEnv)
    requires d.Dir? && i <= |d.entries| && UniqueKeys(w.m) && EmptyPagesAvoid(w.events, cf)
    ensures EmptyPagesAvoid(CreateEntries(dp, d, i, folderId, cf, w, env).events, cf)
    decreases |d.entries| - i, 1
  {
    if i < |d.entries| && w.processed < MaxPages {
      CreateEntriesAvoidStep(dp, d, i, folderId, cf, w, env);
    } else {
      CreateEntriesDone(dp, d, i, folderId, cf, w, env);
    }
  }

  lemma {:induction false} CreateEntriesAvoidStep(dp: string, d: Entry, i: nat, folderId: string, cf: seq<string>, w: Walk,
                                                  env: CreateEnv)
    requires d.Dir? && i < |d.entries| && UniqueKeys(w.m) && w.processed < MaxPages && EmptyPagesAvoid(w.events, cf)
    ensures EmptyPagesAvoid(CreateEntries(dp, d, i, folderId, cf, w, env).events, cf)
    decreases |d.entries| - i, 0
  {
    var w' := CreateEntry(dp, d.entries[i], folderId, cf, w, env);
    CreateEntriesStep(dp, d, i, folderId, cf, w, env);
    CreateEntryAvoids(dp, d.entries[i], folderId, cf, w, env);
    CreateEntriesAvoid(dp, d, i + 1, folderId, cf, w', env);
  }

  /** The loop of phase 1 never descends into the directory's `uploads`. */
  lemma {:induction false} CreateEntriesSkipUploads(dp: string, d: Entry, i: nat, folderId: string, cf: seq<string>, w: Walk,
                                                    env: CreateEnv)
    requires d.Dir? && i <= |d.entries| && UniqueKeys(w.m)
    requires WellNamed(d.entries) && NoUploadsDescent(w.events, dp)
    ensures NoUploadsDescent(CreateEntries(dp, d, i, folderId, cf, w, env).events, dp)
    decreases |d.entries| - i, 1
  {
    if i < |d.entries| && w.processed < MaxPages {
      CreateEntriesSkipUploadsStep(dp, d, i, folderId, cf, w, env);
    } else {
      CreateEntriesDone(dp, d, i, folderId, cf, w, env);
    }
  }

  lemma {:induction false} CreateEntriesSkipUploadsStep(dp: string, d: Entry, i: nat, folderId: string, cf: seq<string>,
                                                        w: Walk, env: CreateEnv)
    requires d.Dir? && i < |d.entries| && UniqueKeys(w.m) && w.processed < MaxPages
    requires WellNamed(d.entries) && NoUploadsDescent(w.events, dp)
    ensures NoUploadsDescent(CreateEntries(dp, d, i, folderId, cf, w, env).events, dp)
    decreases |d.entries| - i, 0
  {
    var w' := CreateEntry(dp, d.entries[i], folderId, cf, w, env);
    CreateEntriesStep(dp, d, i, folderId, cf, w, env);
    CreateEntrySkipsUploads(dp, d.entries[i], folderId, cf, w, env);
    CreateEntriesSkipUploads(dp, d, i + 1, folderId, cf, w', env);
  }

  /** Every empty page among `evs` was requested under `folderId`. */
  predicate EmptyPagesUnder(evs: seq<Event>, folderId: string)
  {
    forall k :: 0 <= k < |evs| && evs[k].EmptyPage? ==> evs[k].parentId == folderId
  }

  /** One entry requests its empty page, if any, under the folder's page. */
  lemma CreateEntryParent(dp: string, e: Entry, folderId: string, cf: seq<string>, w: Walk, env: CreateEnv)
    requires UniqueKeys(w.m) && EmptyPagesUnder(w.events, folderId)
    ensures EmptyPagesUnder(CreateEntry(dp, e, folderId, cf, w, env).events, folderId)
  {
  }

  /** The loop of phase 1 requests every empty page under the folder's page. */
  lemma {:induction false} CreateEntriesParent(dp: string, d: Entry, i: nat, folderId: string, cf: seq<string>, w: Walk,
                                               env: CreateEnv)
    requires d.Dir? && i <= |d.entries| && UniqueKeys(w.m) && EmptyPagesUnder(w.events, folderId)
    ensures EmptyPagesUnder(CreateEntries(dp, d, i, folderId, cf, w, env).events, folderId)
    decreases |d.entries| - i, 1
  {
    if i < |d.entries| && w.processed < MaxPages {
      CreateEntriesParentStep(dp, d, i, folderId, cf, w, env);
    } else {
      CreateEntriesDone(dp, d, i, folderId, cf, w, env);
    }
  }

  lemma {:induction false} CreateEntriesParentStep(dp: string, d: Entry, i: nat, folderId: string, cf: seq<string>, w: Walk,
                                                   env: CreateEnv)
    requires d.Dir? && i < |d.entries| && UniqueKeys(w.m) && w.processed < MaxPages && EmptyPagesUnder(w.events, folderId)
    ensures EmptyPagesUnder(CreateEntries(dp, d, i, folderId, cf, w, env).events, folderId)
    decreases |d.entries| - i, 0
  {
    var w' := CreateEntry(dp, d.entries[i], folderId, cf, w, env);
    CreateEntriesStep(dp, d, i, folderId, cf, w, env);
    CreateEntryParent(dp, d.entries[i], folderId, cf, w, env);
    CreateEntriesParent(dp, d, i + 1, folderId, cf, w', env);
  }

  /** The loop of phase 1 only adds events after those it was given. */
  lemma {:induction false} CreateEntriesPrefix(dp: string, d: Entry, i: nat, folderId: string, cf: seq<string>, w: Walk,
                                               env: CreateEnv)
    requires d.Dir? && i <= |d.entries| && UniqueKeys(w.m)
    ensures w.events <= CreateEntries(dp, d, i, folderId, cf, w, env).events
    decreases |d.entries| - i, 1
  {
    if i < |d.entries| && w.processed < MaxPages {
      CreateEntriesPrefixStep(dp, d, i, folderId, cf, w, env);
    } else {
      CreateEntriesDone(dp, d, i, folderId, cf, w, env);
    }
  }

  lemma {:induction false} CreateEntriesPrefixStep(dp: string, d: Entry, i: nat, folderId: string, cf: seq<string>, w: Walk,
                                                   env: CreateEnv)
    requires d.Dir? && i < |d.entries| && UniqueKeys(w.m) && w.processed < MaxPages
    ensures w.events <= CreateEntries(dp, d, i, folderId, cf, w, env).events
    decreases |d.entries| - i, 0
  {
    var w' := CreateEntry(dp, d.entries[i], folderId, cf, w, env);
    CreateEntriesStep(dp, d, i, folderId, cf, w, env);
    assert w.events <= w'.events;
    CreateEntriesPrefix(dp, d, i + 1, folderId, cf, w', env);
  }

  /**
   * Where phase 1 puts a directory's pages: outside the export root it first creates the
   * folder page under `parentId`, and every empty page made directly in the directory is
   * requested under that folder's id; in the export root they go under `parentId` itself.
   */
  lemma CreateDirParent(dp: string, d: Entry, parentId: string, m: Entries, env: CreateEnv)
    requires d.Dir? && UniqueKeys(m)
    ensures var r := CreateDir(dp, d, parentId, m, env);
            var id := FolderPageId(parentId, env.createPage(dp, Basename(dp), parentId));
      && (Basename(dp) != UploadsName && Basename(dp) == env.exportPath ==> EmptyPagesUnder(r.1, parentId))
      && (Basename(dp) != UploadsName && Basename(dp) != env.exportPath ==>
            |r.1| >= 1 && r.1[0] == FolderPage(dp, parentId, id) && EmptyPagesUnder(r.1, id))
  {
    if Basename(dp) != UploadsName {
      var cf := ContentFiles(dp, d.entries);
      if Basename(dp) == env.exportPath {
        CreateEntriesParent(dp, d, 0, parentId, cf, Walk(m, [], 0), env);
      } else {
        var response := env.createPage(dp, Basename(dp), parentId);
        var id := FolderPageId(parentId, response);
        var w := Walk(AfterFolder(m, dp, response), [FolderPage(dp, parentId, id)], 0);
        AfterFolderLookup(m, dp, parentId, response, dp);
        CreateEntriesParent(dp, d, 0, id, cf, w, env);
        CreateEntriesPrefix(dp, d, 0, id, cf, w, env);
      }
    }
  }

  /**
   * Phase 1 in one directory: an `uploads` directory is only reported; otherwise at most
   * `MAX_PAGES` empty pages are created directly in it, no subdirectory's content file
   * `D.md` gets one, and its `uploads` subdirectory is not entered.
   */
  lemma CreateDirFacts(dp: string, d: Entry, parentId: string, m: Entries, env: CreateEnv)
    requires d.Dir? && UniqueKeys(m)
    ensures var r := CreateDir(dp, d, parentId, m, env);
      && (Basename(dp) == UploadsName ==> r == (m, [SkippedUploads(dp)]))
      && CountCreated(r.1) <= MaxPages
      && (forall j :: 0 <= j < |d.entries| && IsSubdirectory(d.entries[j]) ==>
            forall k :: 0 <= k < |r.1| && r.1[k].EmptyPage? ==> r.1[k].path != Join(dp, d.entries[j].name + ".md"))
      && (WellNamed(d.entries) ==> NoUploadsDescent(r.1, dp))
  {
    if Basename(dp) != UploadsName {
      var cf := ContentFiles(dp, d.entries);
      if Basename(dp) == env.exportPath {
        CreateEntriesCount(dp, d, 0, parentId, cf, Walk(m, [], 0), env);
        CreateEntriesAvoid(dp, d, 0, parentId, cf, Walk(m, [], 0), env);
        if WellNamed(d.entries) {
          CreateEntriesSkipUploads(dp, d, 0, parentId, cf, Walk(m, [], 0), env);
        }
      } else {
        var response := env.createPage(dp, Basename(dp), parentId);
        var id := FolderPageId(parentId, response);
        var evs := [FolderPage(dp, parentId, id)];
        AfterFolderLookup(m, dp, parentId, response, dp);
        assert CountCreated(evs) == 0 by {
          assert evs[..0] == [];
        }
        CreateEntriesCount(dp, d, 0, id, cf, Walk(AfterFolder(m, dp, response), evs, 0), env);
        CreateEntriesAvoid(dp, d, 0, id, cf, Walk(AfterFolder(m, dp, response), evs, 0), env);
        if WellNamed(d.entries) {
          CreateEntriesSkipUploads(dp, d, 0, id, cf, Walk(AfterFolder(m, dp, response), evs, 0), env);
        }
      }
      forall j | 0 <= j < |d.entries| && IsSubdirectory(d.entries[j])
        ensures Join(dp, d.entries[j].name + ".md") in cf
      {
        ContentFileListed(dp, d.entries, j);
      }
    }
  }

  /** `processDirectory(directoryPath, parentPageId, 'create')`, sharing `pageMap`. */
  method CreatePhase(directoryPath: string, d: Entry, parentPageId: string, env: CreateEnv, pageMap: PageMap)
    returns (events: seq<Event>)
    requires d.Dir? && pageMap.Valid()
    modifies pageMap
    ensures pageMap.Valid()
    ensures (pageMap.entries, events) == CreateDir(directoryPath, d, parentPageId, old(pageMap.entries), env)
    decreases d, 1, 0
  {
    if Basename(directoryPath) == UploadsName {
      return [SkippedUploads(directoryPath)];
    }
    var currentFolderName := Basename(directoryPath);
    var foldersContentFiles := ContentFiles(directoryPath, d.entries);
    var currentFolderPageId: string;
    if currentFolderName == env.exportPath {
      currentFolderPageId := parentPageId;
      events := [];
    } else {
      currentFolderPageId := CreateNotionFolder(directoryPath, parentPageId, env.createPage, pageMap);
      events := [FolderPage(directoryPath, parentPageId, currentFolderPageId)];
    }
    ghost var result := CreateEntries(directoryPath, d, 0, currentFolderPageId, foldersContentFiles,
                                      Walk(pageMap.entries, events, 0), env);
    assert (result.m, result.events) == CreateDir(directoryPath, d, parentPageId, old(pageMap.entries), env);
    var processedPages: nat := 0;
    var i := 0;
    while i < |d.entries|
      invariant i <= |d.entries| && pageMap.Valid()
      invariant CreateEntries(directoryPath, d, i, currentFolderPageId, foldersContentFiles,
                              Walk(pageMap.entries, events, processedPages), env) == result
      decreases |d.entries| - i
    {
      if processedPages >= MaxPages {
        break;
      }
      events, processedPages := CreateEntryStep(directoryPath, d.entries[i], currentFolderPageId, foldersContentFiles,
                                                events, processedPages, env, pageMap);
      i := i + 1;
    }
  }

  /** One pass of phase 1's loop body, on entry `entry`. */
  method CreateEntryStep(directoryPath: string, entry: Entry, currentFolderPageId: string, foldersContentFiles: seq<string>,
                         events: seq<Event>, processedPages: nat, env: CreateEnv, pageMap: PageMap)
    returns (events': seq<Event>, processedPages': nat)
    requires pageMap.Valid()
    modifies pageMap
    ensures pageMap.Valid()
    ensures Walk(pageMap.entries, events', processedPages')
            == CreateEntry(directoryPath, entry, currentFolderPageId, foldersContentFiles,
                           Walk(old(pageMap.entries), events, processedPages), env)
    decreases entry, 2, 0
  {
    events', processedPages' := events, processedPages;
    var fullPath := Join(directoryPath, entry.name);
    if IsSubdirectory(entry) {
      var sub := CreatePhase(fullPath, entry, currentFolderPageId, env, pageMap);
      events' := events + [Subdirectory(fullPath, sub)];
    } else if entry.File? && IsMarkdownName(entry.name) {
      if fullPath in foldersContentFiles {
        events' := events + [SkippedContentFile(fullPath)];
      } else {
        var title := Title(fullPath);
        var thrown := CreateNotionPage(fullPath, title, currentFolderPageId, env.createPage, pageMap);
        events' := events + [EmptyPage(fullPath, title, currentFolderPageId, !thrown)];
        if !thrown {
          processedPages' := processedPages + 1;
        }
      }
    }
  }

  // ---------------------------------------------------------------------------------------
  // The older conversion, used by phase 2.

  /** `imagePath.replace(/^(file:\/\/|https?:\/\/)/, '')`. */
  function StripProtocol(url: string): string
  {
    if StartsWith(url, "file://") then url[7..]
    else if StartsWith(url, "https://") then url[8..]
    else if StartsWith(url, "http://") then url[7..]
    else url
  }

  /** `path.join(...parts)`: the non-empty parts joined by `/`, then normalised. */
  function JoinAll(parts: seq<string>): string
  {
    Normalize(JoinNonEmpty(parts))
  }

  function JoinNonEmpty(parts: seq<string>): string
  {
    if parts == [] then ""
    else
      var rest := JoinNonEmpty(parts[1..]);
      if parts[0] == "" then rest else if rest == "" then parts[0] else parts[0] + "/" + rest
  }

  /** `possiblePaths`: the `uploads` folder beside the markdown file, then the one above it. */
  function UploadCandidates(mdFilePath: string, imageName: string): seq<string>
  {
    var mdDir := Dirname(mdFilePath);
    [JoinAll([mdDir, UploadsName, imageName]), JoinAll([mdDir, "..", UploadsName, imageName])]
  }

  /** The index of the first path that exists, or `|ps|` when none does. */
  function FirstExisting(ps: seq<string>, fileExists: string -> bool): (k: nat)
    ensures k <= |ps|
    ensures k < |ps| ==> fileExists(ps[k])
    ensures forall j :: 0 <= j < k ==> !fileExists(ps[j])
  {
    if ps == [] || fileExists(ps[0]) then 0 else 1 + FirstExisting(ps[1..], fileExists)
  }

  /** What `findImageInUploads` resolves to. */
  function ImageInUploads(mdFilePath: string, imageName: string, fileExists: string -> bool): Option<string>
  {
    var ps := UploadCandidates(mdFilePath, imageName);
    var k := FirstExisting(ps, fileExists);
    if k < |ps| then Some(ps[k]) else None
  }

  /** `findImageInUploads(mdFilePath, imageName)`: the first candidate that exists. */
  method FindImageInUploads(mdFilePath: string, imageName: string, fileExists: string -> bool)
    returns (r: Option<string>)
    ensures r == ImageInUploads(mdFilePath, imageName, fileExists)
    ensures r.Some? ==> r.value in UploadCandidates(mdFilePath, imageName) && fileExists(r.value)
    ensures r.None? <==> forall p :: p in UploadCandidates(mdFilePath, imageName) ==> !fileExists(p)
  {
    var possiblePaths := UploadCandidates(mdFilePath, imageName);
    for i := 0 to |possiblePaths|
      invariant forall j :: 0 <= j < i ==> !fileExists(possiblePaths[j])
    {
      if fileExists(possiblePaths[i]) {
        return Some(possiblePaths[i]);
      }
    }
    return None;
  }

  /**
   * One parsed block: an image with a source is uploaded from a local `uploads` folder when
   * one holds it and the upload gives a URL; a table gets its rows normalised.
   */
  function OldBlock(b: Block, mdFilePath: string, env: UpdateEnv): Block
  {
    if b.Image? && b.url != "" then
      match ImageInUploads(mdFilePath, StripProtocol(b.url), env.fileExists)
      case None => b
      case Some(p) =>
        match env.upload(p)
        case Some(u) => if u != "" then Image(u) else b
        case None => b
    else NormalizeTable(b)
  }

  /**
   * The older `convertMarkdownToNotionBlocks`: `None` is a rejection, which only the link
   * rewrite can cause, since it runs before the `try`.
   */
  function OldConvert(content: string, mdFilePath: string, m: Entries, env: UpdateEnv): Option<seq<Block>>
  {
    match ReplaceLinksOld(CleanMarkdownContentBare(content), 0, mdFilePath, m, env.pathname)
    case None => None
    case Some(processed) =>
      match env.parse(processed)
      case Err(msg) => Some([TextParagraph(ErrorPrefix + msg)])
      case Ok(blocks) => Some(seq(|blocks|, k requires 0 <= k < |blocks| => OldBlock(blocks[k], mdFilePath, env)))
  }

  /**
   * The older conversion rejects exactly when a link cannot be resolved, turns a parser error
   * into one paragraph, and otherwise keeps every parsed block in place: each table
   * normalised, each image either as parsed or replaced by an upload of a file found in an
   * `uploads` folder, and every other block untouched.
   */
  lemma OldConvertOutcomes(content: string, mdFilePath: string, m: Entries, env: UpdateEnv)
    ensures var processed := ReplaceLinksOld(CleanMarkdownContentBare(content), 0, mdFilePath, m, env.pathname);
      var r := OldConvert(content, mdFilePath, m, env);
      && (r.None? <==> processed.None?)
      && (processed.Some? && env.parse(processed.value).Err? ==>
            r == Some([TextParagraph(ErrorPrefix + env.parse(processed.value).message)]))
      && (processed.Some? && env.parse(processed.value).Ok? ==>
            var blocks := env.parse(processed.value).value;
            && |r.value| == |blocks|
            && (forall k :: 0 <= k < |blocks| && !blocks[k].Image? ==> r.value[k] == NormalizeTable(blocks[k]))
            && (forall k :: 0 <= k < |blocks| && blocks[k].Image? && r.value[k] != blocks[k] ==>
                  exists p :: p in UploadCandidates(mdFilePath, StripProtocol(blocks[k].url))
                    && env.fileExists(p) && env.upload(p) == Some(r.value[k].url))
            && (forall k :: 0 <= k < |blocks| ==> NormalTable(r.value[k])))
  {
    var processed := ReplaceLinksOld(CleanMarkdownContentBare(content), 0, mdFilePath, m, env.pathname);
    if processed.Some? && env.parse(processed.value).Ok? {
      var blocks := env.parse(processed.value).value;
      var r := OldConvert(content, mdFilePath, m, env).value;
      forall k | 0 <= k < |blocks|
        ensures NormalTable(r[k])
        ensures blocks[k].Image? && r[k] != blocks[k] ==>
                  exists p :: p in UploadCandidates(mdFilePath, StripProtocol(blocks[k].url))
                    && env.fileExists(p) && env.upload(p) == Some(r[k].url)
      {
        assert r[k] == OldBlock(blocks[k], mdFilePath, env);
        if blocks[k].Table? {
          NormalizeTablesShape([blocks[k]]);
          assert NormalizeTables([blocks[k]])[0] == r[k];
        } else if blocks[k].Image? && r[k] != blocks[k] {
          var p := ImageInUploads(mdFilePath, StripProtocol(blocks[k].url), env.fileExists).value;
          assert p in UploadCandidates(mdFilePath, StripProtocol(blocks[k].url));
        }
      }
    }
  }

  // ---------------------------------------------------------------------------------------
  // Phase 2: content.

  /** The appends for one file: one per batch, to the mapped page, whatever each answers. */
  function FillCalls(notionId: string, fullPath: string, blocks: seq<Block>, env: UpdateEnv): seq<AppendCall>
  {
    var cs := Chunks(blocks);
    seq(|cs|, k requires 0 <= k < |cs| => AppendCall(notionId, cs[k], env.appendSucceeds(fullPath, k)))
  }

  /** `pageMap.get(directoryPath)?.notionId || parentPageId`. */
  function FolderIdFor(m: Entries, dp: string, parentId: string): string
  {
    match Get(m, dp)
    case Some(pm) => if pm.notionId != "" then pm.notionId else parentId
    case None => parentId
  }

  /**
   * `processDirectory(dp, parentId, 'update')`: the events, and `false` when a rejected
   * conversion ends the walk (nothing catches it).
   */
  function UpdateDir(dp: string, d: Entry, parentId: string, m: Entries, env: UpdateEnv): (seq<Event>, bool)
    requires d.Dir?
    decreases d, 1, 0
  {
    if Basename(dp) == UploadsName then ([SkippedUploads(dp)], true)
    else UpdateEntries(dp, d, 0, FolderIdFor(m, dp, parentId), m, [], env)
  }

  /** The `for` loop of phase 2 from entry `i` on. */
  function UpdateEntries(dp: string, d: Entry, i: nat, folderId: string, m: Entries, events: seq<Event>,
                         env: UpdateEnv): (seq<Event>, bool)
    requires d.Dir? && i <= |d.entries|
    decreases d, 0, |d.entries| - i
  {
    if i == |d.entries| then (events, true)
    else
      var step := UpdateEntry(dp, d.entries[i], folderId, m, env);
      if step.1 then UpdateEntries(dp, d, i + 1, folderId, m, events + step.0, env)
      else (events + step.0, false)
  }

  /** One entry of phase 2: recurse, or fill a markdown file that has a page. */
  function UpdateEntry(dp: string, e: Entry, folderId: string, m: Entries, env: UpdateEnv): (seq<Event>, bool)
    decreases e, 2, 0
  {
    var fullPath := Join(dp, e.name);
    if IsSubdirectory(e) then
      var sub := UpdateDir(fullPath, e, folderId, m, env);
      ([Subdirectory(fullPath, sub.0)], sub.1)
    else if e.File? && IsMarkdownName(e.name) && Get(m, fullPath).Some? then
      match OldConvert(env.readFile(fullPath), fullPath, m, env)
      case None => ([], false)
      case Some(blocks) => ([Appended(fullPath, FillCalls(Get(m, fullPath).value.notionId, fullPath, blocks, env))], true)
    else ([], true)
  }

  /** A fill went to the file's recorded page and carried its converted blocks in order. */
  predicate FilledFromMap(ev: Event, m: Entries, env: UpdateEnv)
    requires ev.Appended?
  {
    && Get(m, ev.path).Some?
    && OldConvert(env.readFile(ev.path), ev.path, m, env).Some?
    && Sent(ev.calls) == OldConvert(env.readFile(ev.path), ev.path, m, env).value
    && forall k :: 0 <= k < |ev.calls| ==>
         ev.calls[k].pageId == Get(m, ev.path).value.notionId && 0 < |ev.calls[k].chunk| <= ChunkSize
  }

  predicate AllFilledFromMap(evs: seq<Event>, m: Entries, env: UpdateEnv)
  {
    forall k :: 0 <= k < |evs| && evs[k].Appended? ==> FilledFromMap(evs[k], m, env)
  }

  /** A file is filled only when it has a page, with all its blocks, whatever the appends answer. */
  lemma UpdateEntryFacts(dp: string, e: Entry, folderId: string, m: Entries, env: UpdateEnv)
    ensures AllFilledFromMap(UpdateEntry(dp, e, folderId, m, env).0, m, env)
  {
    var fullPath := Join(dp, e.name);
    var evs := UpdateEntry(dp, e, folderId, m, env).0;
    if !IsSubdirectory(e) && e.File? && IsMarkdownName(e.name) && Get(m, fullPath).Some?
       && OldConvert(env.readFile(fullPath), fullPath, m, env).Some? {
      var blocks := OldConvert(env.readFile(fullPath), fullPath, m, env).value;
      var id := Get(m, fullPath).value.notionId;
      var calls := FillCalls(id, fullPath, blocks, env);
      AppendsCarryBlocks(id, blocks, (k: nat) => env.appendSucceeds(fullPath, k), calls);
      assert evs == [Appended(fullPath, calls)];
    }
  }

  /** The loop of phase 2 keeps every fill tied to the page map. */
  lemma {:induction false} UpdateEntriesFacts(dp: string, d: Entry, i: nat, folderId: string, m: Entries,
                                              events: seq<Event>, env: UpdateEnv)
    requires d.Dir? && i <= |d.entries|
    requires AllFilledFromMap(events, m, env)
    ensures AllFilledFromMap(UpdateEntries(dp, d, i, folderId, m, events, env).0, m, env)
    decreases |d.entries| - i
  {
    if i < |d.entries| {
      var step := UpdateEntry(dp, d.entries[i], folderId, m, env);
      UpdateEntryFacts(dp, d.entries[i], folderId, m, env);
      assert AllFilledFromMap(events + step.0, m, env) by {
        forall k | 0 <= k < |events + step.0| && (events + step.0)[k].Appended?
          ensures FilledFromMap((events + step.0)[k], m, env)
        {
          if k >= |events| {
            assert (events + step.0)[k] == step.0[k - |events|];
          }
        }
      }
      if step.1 {
        UpdateEntriesFacts(dp, d, i + 1, folderId, m, events + step.0, env);
      }
    }
  }

  /**
   * Phase 2 in one directory: an `uploads` directory is only reported; otherwise only
   * markdown files with a recorded page are filled, each into that page, each with all of
   * its converted blocks in batches of at most 100.
   */
  lemma UpdateDirFacts(dp: string, d: Entry, parentId: string, m: Entries, env: UpdateEnv)
    requires d.Dir?
    ensures Basename(dp) == UploadsName ==> UpdateDir(dp, d, parentId, m, env) == ([SkippedUploads(dp)], true)
    ensures AllFilledFromMap(UpdateDir(dp, d, parentId, m, env).0, m, env)
  {
    if Basename(dp) != UploadsName {
      UpdateEntriesFacts(dp, d, 0, FolderIdFor(m, dp, parentId), m, [], env);
    }
  }

  /**
   * The folder id phase 2 computes is passed down and never used: the whole phase is the
   * same whatever parent id it starts from.
   */
  lemma {:induction false} UpdateDirIgnoresParent(dp: string, d: Entry, p: string, q: string, m: Entries, env: UpdateEnv)
    requires d.Dir?
    ensures UpdateDir(dp, d, p, m, env) == UpdateDir(dp, d, q, m, env)
    decreases d, 1, 0
  {
    if Basename(dp) != UploadsName {
      UpdateEntriesIgnoreFolder(dp, d, 0, FolderIdFor(m, dp, p), FolderIdFor(m, dp, q), m, [], env);
    }
  }

  lemma {:induction false} UpdateEntriesIgnoreFolder(dp: string, d: Entry, i: nat, f: string, g: string, m: Entries,
                                                     events: seq<Event>, env: UpdateEnv)
    requires d.Dir? && i <= |d.entries|
    ensures UpdateEntries(dp, d, i, f, m, events, env) == UpdateEntries(dp, d, i, g, m, events, env)
    decreases d, 0, |d.entries| - i
  {
    if i < |d.entries| {
      var e := d.entries[i];
      if IsSubdirectory(e) {
        UpdateDirIgnoresParent(Join(dp, e.name), e, f, g, m, env);
      }
      var step := UpdateEntry(dp, e, f, m, env);
      assert step == UpdateEntry(dp, e, g, m, env);
      if step.1 {
        UpdateEntriesIgnoreFolder(dp, d, i + 1, f, g, m, events + step.0, env);
      }
    }
  }

  /** One turn of the loop of phase 2: the first remaining entry, then the rest unless it failed. */
  lemma UpdateEntriesStep(dp: string, d: Entry, i: nat, folderId: string, m: Entries, events: seq<Event>, env: UpdateEnv)
    requires d.Dir? && i < |d.entries|
    ensures var step := UpdateEntry(dp, d.entries[i], folderId, m, env);
      UpdateEntries(dp, d, i, folderId, m, events, env)
      == if step.1 then UpdateEntries(dp, d, i + 1, folderId, m, events + step.0, env) else (events + step.0, false)
  {
  }

  /** `processDirectory(directoryPath, parentPageId, 'update')`, reading `pageMap`. */
  method UpdatePhase(directoryPath: string, d: Entry, parentPageId: string, env: UpdateEnv, pageMap: PageMap)
    returns (events: seq<Event>, completed: bool)
    requires d.Dir?
    ensures (events, completed) == UpdateDir(directoryPath, d, parentPageId, pageMap.entries, env)
    decreases d, 1, 0
  {
    if Basename(directoryPath) == UploadsName {
      return [SkippedUploads(directoryPath)], true;
    }
    var folder := pageMap.Lookup(directoryPath);
    var currentFolderPageId := if folder.Some? && folder.value.notionId != "" then folder.value.notionId else parentPageId;
    events, completed := UpdateEntriesLoop(directoryPath, d, currentFolderPageId, env, pageMap);
  }

  /** The `for` loop of phase 2 over the entries of one directory. */
  method UpdateEntriesLoop(directoryPath: string, d: Entry, currentFolderPageId: string, env: UpdateEnv, pageMap: PageMap)
    returns (events: seq<Event>, completed: bool)
    requires d.Dir?
    ensures (events, completed) == UpdateEntries(directoryPath, d, 0, currentFolderPageId, pageMap.entries, [], env)
    decreases d, 0, 0
  {
    ghost var m := pageMap.entries;
    ghost var result := UpdateEntries(directoryPath, d, 0, currentFolderPageId, m, [], env);
    events, completed := [], true;
    var i := 0;
    // A rejected step ends the loop: the exception it raises leaves the whole walk.
    while i < |d.entries| && completed
      invariant i <= |d.entries| && pageMap.entries == m
      invariant result == if completed then UpdateEntries(directoryPath, d, i, currentFolderPageId, m, events, env)
                          else (events, false)
      decreases |d.entries| - i
    {
      UpdateEntriesStep(directoryPath, d, i, currentFolderPageId, m, events, env);
      var added, ok := UpdateEntryStep(directoryPath, d.entries[i], currentFolderPageId, env, pageMap);
      events, completed := events + added, ok;
      i := i + 1;
    }
  }

  /** One pass of phase 2's loop body: the events it adds and whether the walk goes on. */
  method UpdateEntryStep(directoryPath: string, entry: Entry, currentFolderPageId: string, env: UpdateEnv, pageMap: PageMap)
    returns (added: seq<Event>, ok: bool)
    ensures (added, ok) == UpdateEntry(directoryPath, entry, currentFolderPageId, pageMap.entries, env)
    decreases entry, 2, 0
  {
    var fullPath := Join(directoryPath, entry.name);
    if IsSubdirectory(entry) {
      var sub, completed := UpdatePhase(fullPath, entry, currentFolderPageId, env, pageMap);
      return [Subdirectory(fullPath, sub)], completed;
    } else if entry.File? && IsMarkdownName(entry.name) {
      var mapping := pageMap.Lookup(fullPath);
      if mapping.Some? {
        var content := env.readFile(fullPath);
        var blocks := OldConvert(content, fullPath, pageMap.entries, env);
        if blocks.None? {
          return [], false;
        }
        var chunks := ChunkBlocks(blocks.value);
        var calls := AppendChunks(mapping.value.notionId, chunks, (k: nat) => env.appendSucceeds(fullPath, k));
        assert calls == FillCalls(mapping.value.notionId, fullPath, blocks.value, env);
        return [Appended(fullPath, calls)], true;
      }
    }
    return [], true;
  }

  // ---------------------------------------------------------------------------------------
  // The whole run.

  /**
   * `main`: both phases over the export, sharing one page map. `None` when either variable
   * is empty; otherwise phase 1's events and phase 2's events with whether it completed.
   */
  method Run(outlinePath: string, destinationPageId: string, root: Entry,
             createPage: (string, string, string) -> Option<Created>, env: UpdateEnv)
    returns (r: Option<(seq<Event>, seq<Event>, bool)>)
    requires root.Dir?
    ensures r.None? <==> outlinePath == "" || destinationPageId == ""
    ensures r.Some? ==>
      var p1 := CreateDir(outlinePath, root, destinationPageId, [], CreateEnv(outlinePath, createPage));
      var p2 := UpdateDir(outlinePath, root, destinationPageId, p1.0, env);
      r.value == (p1.1, p2.0, p2.1)
  {
    if outlinePath == "" || destinationPageId == "" {
      return None;
    }
    var pageMap := new PageMap();
    var created := CreatePhase(outlinePath, root, destinationPageId, CreateEnv(outlinePath, createPage), pageMap);
    var updated, completed := UpdatePhase(outlinePath, root, destinationPageId, env, pageMap);
    r := Some((created, updated, completed));
  }
}
