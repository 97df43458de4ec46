/** `buildAllPages` (`src/functions/buildAllPages.ts`): the structure list
    (each page's main route, then its aliases linked to it), the files
    `buildPage` writes for each page in turn, and the `structure.json` list,
    which is written only when no page build throws. The version-5 UUID
    function and the file readers are parameters. */
module BuildAllPages {
  import opened Wrappers
  import opened PageRouteSchema
  import opened NormalizePageRoute
  import opened JsString
  import BuildPage

  /** One entry of `pages` in the structure file. */
  datatype PageStructureItem = PageStructureItem(id: string, route: PageRoute, ref: string)

  /** `OutputPagesStructureItem`, or the linked item when `linkedUuid` is set. */
  datatype StructureEntry = StructureEntry(id: string, route: string, uuid: string, linkedUuid: Option<string>)

  /** `uuidV5(name, uuidV5.URL)` */
  type UuidV5 = string -> string

  /** The inputs `buildAllPages` takes from outside: the UUID function, the
      readers behind `parsePageFile` and `parseMarkdownFile`, and its own
      `pagesStructurePath`, `outputDir` and `minify` arguments. */
  datatype BuildEnv = BuildEnv(
    uuidV5: UuidV5, readPage: BuildPage.PageReader, load: BuildPage.Loader,
    pagesStructurePath: string, outputDir: string, minify: bool)

  /** What `buildAllPages` leaves behind: the page files written, in order, and
      either the list written to `structure.json` or the error that stopped
      the build before it. */
  datatype BuildOutcome = BuildOutcome(
    writes: seq<BuildPage.JsonWrite>, structureFile: Result<seq<StructureEntry>, BuildPage.BuildError>)

  /** `[route, id].join('$v1$')` */
  function UuidName(id: string, route: string): string {
    route + "$v1$" + id
  }

  function GeneratePageUuid(uuidV5: UuidV5, id: string, route: string): string {
    uuidV5(UuidName(id, route))
  }

  /** The main entry of a page. */
  function MainEntry(uuidV5: UuidV5, page: PageStructureItem): StructureEntry {
    var path := NormalizePageRoute.NormalizePageRoute(page.route).path;
    StructureEntry(page.id, path, GeneratePageUuid(uuidV5, page.id, path), None)
  }

  /** The alias entries of a page, in the order of its aliases. */
  function AliasEntries(uuidV5: UuidV5, id: string, aliases: seq<string>, linked: string): (r: seq<StructureEntry>)
    ensures |r| == |aliases|
    decreases |aliases|
  {
    if aliases == [] then []
    else
      var a := aliases[|aliases| - 1];
      AliasEntries(uuidV5, id, aliases[..|aliases| - 1], linked) +
        [StructureEntry(id, a, GeneratePageUuid(uuidV5, id, a), Some(linked))]
  }

  /** Alias `j` gets its own UUID and is linked to the page's. */
  lemma {:induction false} AliasEntriesAt(uuidV5: UuidV5, id: string, aliases: seq<string>, linked: string)
    ensures var r := AliasEntries(uuidV5, id, aliases, linked);
      forall j :: 0 <= j < |aliases| ==>
        r[j] == StructureEntry(id, aliases[j], GeneratePageUuid(uuidV5, id, aliases[j]), Some(linked))
    decreases |aliases|
  {
    if aliases != [] {
      AliasEntriesAt(uuidV5, id, aliases[..|aliases| - 1], linked);
    }
  }

  /** Everything one page adds to the structure. */
  function PageEntries(uuidV5: UuidV5, page: PageStructureItem): seq<StructureEntry> {
    var main := MainEntry(uuidV5, page);
    [main] + AliasEntries(uuidV5, page.id, NormalizePageRoute.NormalizePageRoute(page.route).aliases, main.uuid)
  }

  /** The lists of a list of lists, one after the other. */
  function Flatten<T>(xss: seq<seq<T>>): seq<T>
    decreases |xss|
  {
    if xss == [] then [] else Flatten(xss[..|xss| - 1]) + xss[|xss| - 1]
  }

  lemma {:induction false} FlattenAppend<T>(a: seq<seq<T>>, b: seq<seq<T>>)
    ensures Flatten(a + b) == Flatten(a) + Flatten(b)
    decreases |b|
  {
    if b == [] {
      assert a + b == a;
    } else {
      var b0, x := b[..|b| - 1], b[|b| - 1];
      FlattenAppend(a, b0);
      FlattenSnoc(a + b0, x);
      FlattenSnoc(b0, x);
      assert b == b0 + [x] && a + b == (a + b0) + [x];
    }
  }

  lemma FlattenSnoc<T>(xss: seq<seq<T>>, xs: seq<T>)
    ensures Flatten(xss + [xs]) == Flatten(xss) + xs
  {
    assert (xss + [xs])[..|xss|] == xss;
  }

  /** Each page's entries, page by page. */
  function Blocks(uuidV5: UuidV5, pages: seq<PageStructureItem>): (r: seq<seq<StructureEntry>>)
    ensures |r| == |pages| && forall i :: 0 <= i < |pages| ==> r[i] == PageEntries(uuidV5, pages[i])
  {
    seq(|pages|, i requires 0 <= i < |pages| => PageEntries(uuidV5, pages[i]))
  }

  /** The structure list of a list of pages: their entries, page after page. */
  function Structure(uuidV5: UuidV5, pages: seq<PageStructureItem>): seq<StructureEntry> {
    Flatten(Blocks(uuidV5, pages))
  }

  /** The `outputStructureItem` handed to `buildPage`: the main entry. */
  function ItemOf(e: StructureEntry): BuildPage.OutputItem {
    BuildPage.OutputItem(e.id, e.route, e.uuid)
  }

  /** `pagePath`: the page reference resolved against the directory of the
      structure file. */
  function PagePath(env: BuildEnv, page: PageStructureItem): string {
    BuildPage.ResolvePath(BuildPage.DirName(env.pagesStructurePath), page.ref)
  }

  /** What `buildPage` does for one page of the structure. */
  function PageOutput(env: BuildEnv, page: PageStructureItem): BuildPage.PageOutcome {
    BuildPage.BuildPageFile(ItemOf(MainEntry(env.uuidV5, page)), PagePath(env, page), env.readPage, env.load,
                            env.outputDir, env.minify)
  }

  /** The page loop, given what each page's build does: each page's files in
      turn, until a build throws. */
  function RunOutcomes(outs: seq<BuildPage.PageOutcome>): BuildPage.PageOutcome
    decreases |outs|
  {
    if outs == [] then BuildPage.PageOutcome([], None)
    else
      var prev := RunOutcomes(outs[..|outs| - 1]);
      if prev.error.Some? then prev
      else
        var out := outs[|outs| - 1];
        BuildPage.PageOutcome(prev.writes + out.writes, out.error)
  }

  /** What `buildPage` does for each page, page by page. */
  function PageOutputs(env: BuildEnv, pages: seq<PageStructureItem>): (r: seq<BuildPage.PageOutcome>)
    ensures |r| == |pages| && forall i :: 0 <= i < |pages| ==> r[i] == PageOutput(env, pages[i])
  {
    seq(|pages|, i requires 0 <= i < |pages| => PageOutput(env, pages[i]))
  }

  /** The files of each build, build by build. */
  function WriteBlocks(outs: seq<BuildPage.PageOutcome>): (r: seq<seq<BuildPage.JsonWrite>>)
    ensures |r| == |outs| && forall i :: 0 <= i < |outs| ==> r[i] == outs[i].writes
  {
    seq(|outs|, i requires 0 <= i < |outs| => outs[i].writes)
  }

  /** `buildAllPages` after the structure file is parsed. */
  function BuildAll(env: BuildEnv, pages: seq<PageStructureItem>): BuildOutcome {
    var run := RunOutcomes(PageOutputs(env, pages));
    BuildOutcome(run.writes, if run.error.None? then Success(Structure(env.uuidV5, pages)) else Failure(run.error.value))
  }

  /** The loop of `buildAllPages` and the final `structure.json` write. */
  method BuildAllPages(env: BuildEnv, pages: seq<PageStructureItem>)
    returns (writes: seq<BuildPage.JsonWrite>, structureFile: Result<seq<StructureEntry>, BuildPage.BuildError>)
    ensures BuildOutcome(writes, structureFile) == BuildAll(env, pages)
  {
    var outputPagesStructure := [];
    writes := [];
    for i := 0 to |pages|
      invariant outputPagesStructure == Structure(env.uuidV5, pages[..i])
      invariant RunOutcomes(PageOutputs(env, pages[..i])) == BuildPage.PageOutcome(writes, None)
    {
      SliceSnoc(pages, i);
      StructureSnoc(env.uuidV5, pages[..i], pages[i]);
      var outputStructureItem;
      outputPagesStructure, outputStructureItem := PushPage(env.uuidV5, outputPagesStructure, pages[i]);
      var pagePath := PagePath(env, pages[i]);
      var pageWrites, error := BuildPage.BuildPage(
        ItemOf(outputStructureItem), pagePath, env.readPage, env.load, env.outputDir, env.minify);
      BuildRunStep(env, pages, i, writes);
      writes := writes + pageWrites;
      if error.Some? {
        RunStopped(PageOutputs(env, pages), i + 1);
        return writes, Failure(error.value);
      }
    }
    assert pages[..|pages|] == pages;
    structureFile := Success(outputPagesStructure);
  }

  lemma SliceSnoc<T>(xs: seq<T>, i: nat)
    requires i < |xs|
    ensures xs[..i + 1] == xs[..i] + [xs[i]]
  {
  }

  lemma BuildRunStep(env: BuildEnv, pages: seq<PageStructureItem>, i: nat, writes: seq<BuildPage.JsonWrite>)
    requires i < |pages| && RunOutcomes(PageOutputs(env, pages[..i])) == BuildPage.PageOutcome(writes, None)
    ensures PageOutputs(env, pages[..i + 1]) == PageOutputs(env, pages)[..i + 1]
    ensures RunOutcomes(PageOutputs(env, pages[..i + 1])) ==
      BuildPage.PageOutcome(writes + PageOutput(env, pages[i]).writes, PageOutput(env, pages[i]).error)
  {
    var outs := PageOutputs(env, pages[..i + 1]);
    assert outs[..i] == PageOutputs(env, pages[..i]);
  }

  /** Once a build has thrown, later pages change nothing. */
  lemma {:induction false} RunStopped(outs: seq<BuildPage.PageOutcome>, n: nat)
    requires n <= |outs| && RunOutcomes(outs[..n]).error.Some?
    ensures RunOutcomes(outs) == RunOutcomes(outs[..n])
    decreases |outs|
  {
    if n < |outs| {
      var init := outs[..|outs| - 1];
      assert init[..n] == outs[..n];
      RunStopped(init, n);
    } else {
      assert outs[..n] == outs;
    }
  }

  /** The loop finishes exactly when no build throws. */
  lemma {:induction false} RunFinishes(outs: seq<BuildPage.PageOutcome>)
    ensures RunOutcomes(outs).error.None? <==> forall k :: 0 <= k < |outs| ==> outs[k].error.None?
    decreases |outs|
  {
    if outs != [] {
      var init := outs[..|outs| - 1];
      RunFinishes(init);
      assert forall k :: 0 <= k < |init| ==> init[k] == outs[k];
    }
  }

  /** A finished loop has written every build's files, one build after another. */
  lemma {:induction false} RunWrites(outs: seq<BuildPage.PageOutcome>)
    requires RunOutcomes(outs).error.None?
    ensures RunOutcomes(outs).writes == Flatten(WriteBlocks(outs))
    decreases |outs|
  {
    if outs != [] {
      var init := outs[..|outs| - 1];
      RunWrites(init);
      var blocks := WriteBlocks(outs);
      assert blocks[..|blocks| - 1] == WriteBlocks(init);
    }
  }

  /** A build that throws after every earlier one finished: the earlier files,
      then its own, and that build's error. */
  lemma RunStopsAt(outs: seq<BuildPage.PageOutcome>, k: nat)
    requires k < |outs| && outs[k].error.Some?
    requires forall j :: 0 <= j < k ==> outs[j].error.None?
    ensures RunOutcomes(outs) == BuildPage.PageOutcome(Flatten(WriteBlocks(outs[..k])) + outs[k].writes, outs[k].error)
  {
    var before := outs[..k];
    assert forall j :: 0 <= j < |before| ==> before[j] == outs[j];
    RunFinishes(before);
    RunWrites(before);
    assert outs[..k + 1][..k] == before;
    RunStopped(outs, k + 1);
  }

  /** Each page's files hold the content of its own references, resolved
      against the directory of that page's file: pages in different
      directories listing the same relative reference load different files. */
  lemma PagesLoadOwnContent(env: BuildEnv, page: PageStructureItem, i: nat)
    requires env.readPage(PagePath(env, page)).Success?
    requires i < |PageOutput(env, page).writes|
    ensures var path := PagePath(env, page);
      var pageData := env.readPage(path).value;
      var entries := BuildPage.ContentRefEntries(pageData.content);
      var res := env.load(BuildPage.ResolvePath(BuildPage.DirName(path), entries[i].1));
      i < |entries| && res.Success? &&
      PageOutput(env, page).writes[i] ==
        BuildPage.WriteFor(ItemOf(MainEntry(env.uuidV5, page)), pageData, env.outputDir, env.minify, entries[i].0, res.value)
  {
    BuildPage.ContentFromPageDirectory(ItemOf(MainEntry(env.uuidV5, page)), PagePath(env, page), env.readPage, env.load,
                                       env.outputDir, env.minify, i);
  }

  /** A page whose build throws, after every earlier page was built: the
      earlier pages' files are all written, then that page's own files up to
      its failure, no later page is built, and `structure.json` is not written. */
  lemma BuildStopsAt(env: BuildEnv, pages: seq<PageStructureItem>, k: nat)
    requires k < |pages| && PageOutput(env, pages[k]).error.Some?
    requires forall j :: 0 <= j < k ==> PageOutput(env, pages[j]).error.None?
    ensures BuildAll(env, pages) == BuildOutcome(
      Flatten(WriteBlocks(PageOutputs(env, pages[..k]))) + PageOutput(env, pages[k]).writes,
      Failure(PageOutput(env, pages[k]).error.value))
  {
    var outs := PageOutputs(env, pages);
    RunStopsAt(outs, k);
    assert outs[..k] == PageOutputs(env, pages[..k]);
  }

  /** `structure.json` is written exactly when every page builds, and it then
      holds the structure list, after every page's files. */
  lemma BuildAllSucceeds(env: BuildEnv, pages: seq<PageStructureItem>)
    ensures BuildAll(env, pages).structureFile.Success? <==>
      forall k :: 0 <= k < |pages| ==> PageOutput(env, pages[k]).error.None?
    ensures BuildAll(env, pages).structureFile.Success? ==>
      BuildAll(env, pages) ==
        BuildOutcome(Flatten(WriteBlocks(PageOutputs(env, pages))), Success(Structure(env.uuidV5, pages)))
  {
    var outs := PageOutputs(env, pages);
    RunFinishes(outs);
    if RunOutcomes(outs).error.None? {
      RunWrites(outs);
    }
  }

  /** One turn of the loop: the main entry, then one entry per alias. */
  method PushPage(uuidV5: UuidV5, structure: seq<StructureEntry>, page: PageStructureItem)
    returns (after: seq<StructureEntry>, item: StructureEntry)
    ensures after == structure + PageEntries(uuidV5, page)
    ensures item == MainEntry(uuidV5, page)
  {
    var normalized := NormalizePageRoute.NormalizePageRoute(page.route);
    var pageUuid := GeneratePageUuid(uuidV5, page.id, normalized.path);
    item := StructureEntry(page.id, normalized.path, pageUuid, None);
    after := structure + [item];
    for j := 0 to |normalized.aliases|
      invariant after == structure + [item] + AliasEntries(uuidV5, page.id, normalized.aliases[..j], pageUuid)
    {
      var alias := normalized.aliases[j];
      assert normalized.aliases[..j + 1][..j] == normalized.aliases[..j];
      after := after + [StructureEntry(page.id, alias, GeneratePageUuid(uuidV5, page.id, alias), Some(pageUuid))];
    }
    assert normalized.aliases[..|normalized.aliases|] == normalized.aliases;
  }

  /** The number of structure entries: one per page and one per alias. */
  function RouteCount(pages: seq<PageStructureItem>): nat
    decreases |pages|
  {
    if pages == [] then 0
    else RouteCount(pages[..|pages| - 1]) + 1 + |NormalizePageRoute.NormalizePageRoute(pages[|pages| - 1].route).aliases|
  }

  lemma {:induction false} StructureLength(uuidV5: UuidV5, pages: seq<PageStructureItem>)
    ensures |Structure(uuidV5, pages)| == RouteCount(pages)
    decreases |pages|
  {
    if pages != [] {
      var front := pages[..|pages| - 1];
      assert pages == front + [pages[|pages| - 1]];
      StructureSnoc(uuidV5, front, pages[|pages| - 1]);
      StructureLength(uuidV5, front);
    }
  }

  /** The structure of two lists of pages is the structure of the first
      followed by that of the second. */
  lemma StructureAppend(uuidV5: UuidV5, a: seq<PageStructureItem>, b: seq<PageStructureItem>)
    ensures Structure(uuidV5, a + b) == Structure(uuidV5, a) + Structure(uuidV5, b)
  {
    BlocksAppend(uuidV5, a, b);
    FlattenAppend(Blocks(uuidV5, a), Blocks(uuidV5, b));
  }

  lemma BlocksAppend(uuidV5: UuidV5, a: seq<PageStructureItem>, b: seq<PageStructureItem>)
    ensures Blocks(uuidV5, a + b) == Blocks(uuidV5, a) + Blocks(uuidV5, b)
  {
    var l, r := Blocks(uuidV5, a + b), Blocks(uuidV5, a) + Blocks(uuidV5, b);
    forall i | 0 <= i < |l|
      ensures l[i] == r[i]
    {
      if i < |a| {
        assert (a + b)[i] == a[i];
      } else {
        assert (a + b)[i] == b[i - |a|];
      }
    }
  }

  /** One more page adds its own entries at the end. */
  lemma StructureSnoc(uuidV5: UuidV5, pages: seq<PageStructureItem>, page: PageStructureItem)
    ensures Structure(uuidV5, pages + [page]) == Structure(uuidV5, pages) + PageEntries(uuidV5, page)
  {
    var bs := Blocks(uuidV5, pages + [page]);
    assert bs[..|pages|] == Blocks(uuidV5, pages);
    assert bs[|pages|] == PageEntries(uuidV5, page);
  }

  /** Page `k`'s entries stand together, after those of the pages before it. */
  lemma PageBlock(uuidV5: UuidV5, pages: seq<PageStructureItem>, k: nat)
    requires k < |pages|
    ensures var s := Structure(uuidV5, pages);
      var at := RouteCount(pages[..k]);
      var block := PageEntries(uuidV5, pages[k]);
      at + |block| <= |s| && s[at..at + |block|] == block
  {
    var block := StructureSplit(uuidV5, pages, k);
    StructureLength(uuidV5, pages[..k]);
  }

  /** A page's entries: its main entry first, then one entry per alias, each
      carrying the alias's own UUID and linked to the main entry's UUID. */
  lemma PageEntriesShape(uuidV5: UuidV5, page: PageStructureItem)
    ensures var block := PageEntries(uuidV5, page);
      var main := MainEntry(uuidV5, page);
      var aliases := NormalizePageRoute.NormalizePageRoute(page.route).aliases;
      |block| == 1 + |aliases| && block[0] == main && main.linkedUuid.None? &&
      main.route == page.route.path && main.uuid == GeneratePageUuid(uuidV5, page.id, page.route.path) &&
      forall j :: 0 <= j < |aliases| ==>
        block[j + 1] == StructureEntry(page.id, aliases[j], GeneratePageUuid(uuidV5, page.id, aliases[j]), Some(main.uuid))
  {
    var main := MainEntry(uuidV5, page);
    var aliases := NormalizePageRoute.NormalizePageRoute(page.route).aliases;
    var rest := AliasEntries(uuidV5, page.id, aliases, main.uuid);
    AliasEntriesAt(uuidV5, page.id, aliases, main.uuid);
    var block := PageEntries(uuidV5, page);
    assert block == [main] + rest;
    assert forall j :: 0 <= j < |aliases| ==> block[j + 1] == rest[j];
  }

  /** Within one page's entries: each is keyed by its own id and route, and
      each after the first links to the first, the page's main entry. */
  lemma BlockKeyed(uuidV5: UuidV5, page: PageStructureItem)
    ensures var block := PageEntries(uuidV5, page);
      |block| >= 1 && block[0].linkedUuid.None? &&
      (forall e :: e in block ==> e.uuid == GeneratePageUuid(uuidV5, e.id, e.route)) &&
      (forall j :: 1 <= j < |block| ==> block[j].id == block[0].id && block[j].linkedUuid == Some(block[0].uuid))
  {
    var block := PageEntries(uuidV5, page);
    var main := MainEntry(uuidV5, page);
    var aliases := NormalizePageRoute.NormalizePageRoute(page.route).aliases;
    var rest := AliasEntries(uuidV5, page.id, aliases, main.uuid);
    AliasEntriesAt(uuidV5, page.id, aliases, main.uuid);
    assert block == [main] + rest;
    forall e | e in block
      ensures e.uuid == GeneratePageUuid(uuidV5, e.id, e.route)
    {
      if e != main {
        assert e in rest;
      }
    }
    forall j | 1 <= j < |block|
      ensures block[j].id == block[0].id && block[j].linkedUuid == Some(block[0].uuid)
    {
      assert block[j] == rest[j - 1];
    }
  }

  lemma StructureSplit(uuidV5: UuidV5, pages: seq<PageStructureItem>, k: nat) returns (block: seq<StructureEntry>)
    requires k < |pages|
    ensures block == PageEntries(uuidV5, pages[k])
    ensures Structure(uuidV5, pages) == Structure(uuidV5, pages[..k]) + block + Structure(uuidV5, pages[k + 1..])
  {
    block := PageEntries(uuidV5, pages[k]);
    var before, rest := pages[..k], pages[k + 1..];
    assert pages == before + [pages[k]] + rest;
    StructureAppend(uuidV5, before + [pages[k]], rest);
    StructureAppend(uuidV5, before, [pages[k]]);
    assert Structure(uuidV5, [pages[k]]) == block by {
      StructureSnoc(uuidV5, [], pages[k]);
      assert [] + [pages[k]] == [pages[k]];
    }
  }

  /** Every entry is addressed by the UUID of its own id and route, and every
      linked entry points at a main entry of the same page earlier in the list. */
  lemma {:induction false} EntriesAreKeyed(uuidV5: UuidV5, pages: seq<PageStructureItem>)
    ensures var s := Structure(uuidV5, pages);
      forall e :: e in s ==> e.uuid == GeneratePageUuid(uuidV5, e.id, e.route)
    ensures var s := Structure(uuidV5, pages);
      forall k :: 0 <= k < |s| && s[k].linkedUuid.Some? ==>
        exists m :: 0 <= m < k && s[m].linkedUuid.None? && s[m].id == s[k].id && s[m].uuid == s[k].linkedUuid.value
    decreases |pages|
  {
    if pages != [] {
      var front := pages[..|pages| - 1];
      EntriesAreKeyed(uuidV5, front);
      var s0 := Structure(uuidV5, front);
      var page := pages[|pages| - 1];
      assert pages == front + [page];
      StructureSnoc(uuidV5, front, page);
      var block := PageEntries(uuidV5, page);
      BlockKeyed(uuidV5, page);
      var s := s0 + block;
      assert forall e :: e in s ==> e in s0 || e in block;
      forall k | 0 <= k < |s| && s[k].linkedUuid.Some?
        ensures exists m :: 0 <= m < k && s[m].linkedUuid.None? && s[m].id == s[k].id && s[m].uuid == s[k].linkedUuid.value
      {
        if k < |s0| {
          assert s[k] == s0[k];
          LinkInPrefix(s0, block, k);
        } else {
          LinkToBlockHead(s0, block, k);
        }
      }
    }
  }

  lemma LinkToBlockHead(s0: seq<StructureEntry>, block: seq<StructureEntry>, k: nat)
    requires |s0| <= k < |s0| + |block| && (s0 + block)[k].linkedUuid.Some?
    requires |block| >= 1 && block[0].linkedUuid.None?
    requires forall j :: 1 <= j < |block| ==> block[j].id == block[0].id && block[j].linkedUuid == Some(block[0].uuid)
    ensures var s := s0 + block;
      exists m :: 0 <= m < k && s[m].linkedUuid.None? && s[m].id == s[k].id && s[m].uuid == s[k].linkedUuid.value
  {
    var s := s0 + block;
    assert s[k] == block[k - |s0|];
    assert s[|s0|] == block[0];
  }

  lemma LinkInPrefix(s0: seq<StructureEntry>, block: seq<StructureEntry>, k: nat)
    requires k < |s0| && s0[k].linkedUuid.Some?
    requires exists m :: 0 <= m < k && s0[m].linkedUuid.None? && s0[m].id == s0[k].id && s0[m].uuid == s0[k].linkedUuid.value
    ensures var s := s0 + block;
      exists m :: 0 <= m < k && s[m].linkedUuid.None? && s[m].id == s[k].id && s[m].uuid == s[k].linkedUuid.value
  {
    var s := s0 + block;
    var m :| 0 <= m < k && s0[m].linkedUuid.None? && s0[m].id == s0[k].id && s0[m].uuid == s0[k].linkedUuid.value;
    assert s[m] == s0[m] && s[k] == s0[k];
  }

  /** Route paths hold no `$`, so the UUID name gives back both the route and
      the id: two pages or aliases with different routes never share a name. */
  lemma UuidNameInjective(id1: string, r1: string, id2: string, r2: string)
    requires IsRoutePath(r1) && IsRoutePath(r2)
    requires UuidName(id1, r1) == UuidName(id2, r2)
    ensures r1 == r2 && id1 == id2
  {
    var n := UuidName(id1, r1);
    RouteEndsAtDollar(id1, r1);
    RouteEndsAtDollar(id2, r2);
    assert |r1| == |r2|;
    assert r1 == n[..|r1|] && r2 == n[..|r2|];
    assert id1 == n[|r1| + 4..] && id2 == n[|r2| + 4..];
  }

  /** In a UUID name the route ends at the first `$`. */
  lemma RouteEndsAtDollar(id: string, r: string)
    requires IsRoutePath(r)
    ensures IndexOf(UuidName(id, r), '$', 0) == |r|
  {
    RoutePathShape(r);
    var n := UuidName(id, r);
    assert n[|r|] == '$';
    assert forall k :: 0 <= k < |r| ==> n[k] == r[k];
  }

  /** The first test: one page with one alias gives two entries, the alias
      linked to the main entry. */
  lemma OneAlias(uuidV5: UuidV5, id: string, path: string, alias: string, ref: string)
    ensures var page := PageStructureItem(id, ObjectRoute(path, Some([alias])), ref);
      var main := GeneratePageUuid(uuidV5, id, path);
      Structure(uuidV5, [page]) ==
        [StructureEntry(id, path, main, None), StructureEntry(id, alias, GeneratePageUuid(uuidV5, id, alias), Some(main))]
  {
    var page := PageStructureItem(id, ObjectRoute(path, Some([alias])), ref);
    StructureSnoc(uuidV5, [], page);
    assert [] + [page] == [page];
    var main := MainEntry(uuidV5, page);
    var aliases := AliasEntries(uuidV5, id, [alias], main.uuid);
    assert [main] + aliases == [main, aliases[0]];
  }
}
