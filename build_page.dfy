/** `buildPage` (`src/functions/buildPage.ts`): one JSON file per content
    language of a page, restricted to the allowed languages, each holding the
    parsed content, the page's `meta` and the properties for that language.
    Reading the page file and the Markdown files is a parameter that can fail;
    the files written are returned as a list, in the order they are written,
    together with the error that stopped the build, if any. */
module BuildPage {
  import opened Wrappers
  import opened OrderedMap
  import opened CommonConstants
  import opened Mdast
  import opened ParseMarkdownFile

  /** `pageMetaDataSchema`: four optional flags. */
  datatype PageMeta = PageMeta(
    deleted: Option<bool>, deprecated: Option<bool>,
    experimental: Option<bool>, nonStandard: Option<bool>)

  /** The localized properties of a page file. */
  datatype PageProperties = PageProperties(
    description: Entries<string>,
    menuTitle: Option<Entries<string>>,
    title: Entries<string>,
    tags: Option<Entries<seq<string>>>)

  /** A parsed page file: content references by language, metadata, properties. */
  datatype PageData = PageData(content: Entries<string>, meta: Option<PageMeta>, properties: PageProperties)

  /** The properties of one language's output. */
  datatype OutputProperties = OutputProperties(
    description: string, menuTitle: Option<string>, tags: seq<string>, title: string)

  datatype OutputPageData = OutputPageData(content: Root, meta: Option<PageMeta>, properties: OutputProperties)

  /** One `makeJsonFile(path, data, pretty)` call. */
  datatype JsonWrite = JsonWrite(path: string, data: OutputPageData, pretty: bool)

  /** The uuid of the page being built (the rest of the structure item is unused). */
  datatype OutputItem = OutputItem(id: string, route: string, uuid: string)

  /** Why `buildPage` threw: `parsePageFile` rejected the page file, or
      `parseMarkdownFile` rejected one of its content files. */
  datatype BuildError =
    | PageFileError(pageRef: string, message: string)
    | MarkdownError(contentRef: string, error: LoadError)

  /** The files a build wrote, in order, and the error that stopped it. */
  datatype PageOutcome = PageOutcome(writes: seq<JsonWrite>, error: Option<BuildError>)

  /** `parseMarkdownFile` of a path. */
  type Loader = string -> Result<Root, LoadError>

  /** `parsePageFile` of a page reference, or the message it threw. */
  type PageReader = string -> Result<PageData, string>

  const PageDirname := "pages"

  /** The content entries whose language is allowed, in their order. */
  function ContentRefEntries(content: Entries<string>): (r: Entries<string>)
    ensures forall i :: 0 <= i < |r| ==> IsAllowedLanguage(r[i].0)
    ensures forall e :: e in r <==> e in content && IsAllowedLanguage(e.0)
    decreases |content|
  {
    if content == [] then []
    else
      var e := content[|content| - 1];
      var rest := ContentRefEntries(content[..|content| - 1]);
      assert content == content[..|content| - 1] + [e];
      if IsAllowedLanguage(e.0) then rest + [e] else rest
  }

  /** Filtering keeps the order: it distributes over concatenation. */
  lemma {:induction false} ContentRefEntriesAppend(a: Entries<string>, b: Entries<string>)
    ensures ContentRefEntries(a + b) == ContentRefEntries(a) + ContentRefEntries(b)
    decreases |b|
  {
    if b == [] {
      assert a + b == a;
    } else {
      var b0 := b[..|b| - 1];
      assert (a + b)[..|a + b| - 1] == a + b0;
      assert (a + b)[|a + b| - 1] == b[|b| - 1];
      ContentRefEntriesAppend(a, b0);
    }
  }

  /** A page whose every language is allowed keeps all its entries. */
  lemma {:induction false} AllAllowedKept(content: Entries<string>)
    requires forall i :: 0 <= i < |content| ==> IsAllowedLanguage(content[i].0)
    ensures ContentRefEntries(content) == content
    decreases |content|
  {
    if content != [] {
      AllAllowedKept(content[..|content| - 1]);
      assert content[..|content| - 1] + [content[|content| - 1]] == content;
    }
  }

  /** `outputPageData` for one language: missing description and title become
      `''`, missing tags `[]`, and the menu title stays absent when missing. */
  function OutputData(page: PageData, lang: string, content: Root): OutputPageData {
    var props := page.properties;
    var description := Get(props.description, lang);
    var title := Get(props.title, lang);
    var tags := if props.tags.Some? then Get(props.tags.value, lang) else None;
    OutputPageData(
      content,
      page.meta,
      OutputProperties(
        if description.Some? then description.value else "",
        if props.menuTitle.Some? then Get(props.menuTitle.value, lang) else None,
        if tags.Some? then tags.value else [],
        if title.Some? then title.value else ""))
  }

  /** `path.resolve(outputDir, 'pages', uuid, `${lang}.json`)`, for an absolute
      `outputDir` and segments without `.` or `..`. */
  function OutputFilePath(outputDir: string, uuid: string, lang: string): string {
    outputDir + "/" + PageDirname + "/" + uuid + "/" + lang + ".json"
  }

  /** The index of the last `/` in `p`, or -1 when there is none. */
  function LastSlash(p: string): (k: int)
    ensures -1 <= k < |p|
    ensures k >= 0 ==> p[k] == '/'
    ensures forall j :: k < j < |p| ==> p[j] != '/'
    decreases |p|
  {
    if p == [] then -1
    else if p[|p| - 1] == '/' then |p| - 1
    else LastSlash(p[..|p| - 1])
  }

  /** `path.dirname(p)` for a file path: everything before the last `/`,
      `/` for a file at the root, and `.` when there is no `/`. */
  function DirName(p: string): string {
    var k := LastSlash(p);
    if k < 0 then "." else if k == 0 then "/" else p[..k]
  }

  /** `path.resolve(dir, ref)`, without normalising `.` and `..`: an absolute
      reference stands as it is, and a relative one is joined to `dir`. */
  function ResolvePath(dir: string, ref: string): string {
    if ref != [] && ref[0] == '/' then ref else dir + "/" + ref
  }

  /** The loader of one page: each content reference is resolved against the
      page file's directory before `parseMarkdownFile` sees it. */
  function PageLoader(load: Loader, dir: string): (r: Loader)
    ensures forall ref :: r(ref) == load(ResolvePath(dir, ref))
  {
    ref => load(ResolvePath(dir, ref))
  }

  /** The file written for one language with its loaded content. */
  function WriteFor(item: OutputItem, page: PageData, outputDir: string, minify: bool, lang: string, content: Root): JsonWrite {
    JsonWrite(OutputFilePath(outputDir, item.uuid, lang), OutputData(page, lang, content), !minify)
  }

  /** The language loop over a list of (language, reference) entries: one
      write per entry, until the first load that throws. */
  function Writes(item: OutputItem, page: PageData, load: Loader, outputDir: string, minify: bool,
                  entries: Entries<string>): (r: PageOutcome)
    ensures |r.writes| <= |entries|
    ensures r.error.None? ==> |r.writes| == |entries|
    decreases |entries|
  {
    if entries == [] then PageOutcome([], None)
    else
      var prev := Writes(item, page, load, outputDir, minify, entries[..|entries| - 1]);
      var (lang, ref) := entries[|entries| - 1];
      if prev.error.Some? then prev
      else
        match load(ref)
        case Failure(e) => PageOutcome(prev.writes, Some(MarkdownError(ref, e)))
        case Success(content) => PageOutcome(prev.writes + [WriteFor(item, page, outputDir, minify, lang, content)], None)
  }

  /** Everything `buildPage` does for a parsed page file, given the loader of
      that page's directory. */
  function PageWrites(item: OutputItem, page: PageData, load: Loader, outputDir: string, minify: bool): PageOutcome {
    Writes(item, page, load, outputDir, minify, ContentRefEntries(page.content))
  }

  /** Everything `buildPage` does: nothing is written when the page file is rejected. */
  function BuildPageFile(item: OutputItem, pageRef: string, readPage: PageReader, load: Loader, outputDir: string,
                         minify: bool): PageOutcome {
    match readPage(pageRef)
    case Failure(message) => PageOutcome([], Some(PageFileError(pageRef, message)))
    case Success(page) => PageWrites(item, page, PageLoader(load, DirName(pageRef)), outputDir, minify)
  }

  method BuildPage(item: OutputItem, pageRef: string, readPage: PageReader, load: Loader, outputDir: string, minify: bool)
    returns (writes: seq<JsonWrite>, error: Option<BuildError>)
    ensures PageOutcome(writes, error) == BuildPageFile(item, pageRef, readPage, load, outputDir, minify)
  {
    var pageData := readPage(pageRef);
    if pageData.Failure? {
      return [], Some(PageFileError(pageRef, pageData.error));
    }
    var page := pageData.value;
    var pageDirname := DirName(pageRef);
    ghost var pageLoad := PageLoader(load, pageDirname);
    var contentRefEntries := ContentRefEntries(page.content);
    writes := [];
    for i := 0 to |contentRefEntries|
      invariant Writes(item, page, pageLoad, outputDir, minify, contentRefEntries[..i]) == PageOutcome(writes, None)
    {
      var (langKey, contentRef) := contentRefEntries[i];
      var markdownParsedContent := load(ResolvePath(pageDirname, contentRef));
      assert markdownParsedContent == pageLoad(contentRef);
      if markdownParsedContent.Failure? {
        error := Some(MarkdownError(contentRef, markdownParsedContent.error));
        LoadFailsStep(item, page, pageLoad, outputDir, minify, contentRefEntries, i, writes);
        return;
      }
      var outputPageData := OutputData(page, langKey, markdownParsedContent.value);
      var outputFilePath := OutputFilePath(outputDir, item.uuid, langKey);
      LoadSucceedsStep(item, page, pageLoad, outputDir, minify, contentRefEntries, i, writes);
      writes := writes + [JsonWrite(outputFilePath, outputPageData, !minify)];
    }
    assert contentRefEntries[..|contentRefEntries|] == contentRefEntries;
    error := None;
  }

  lemma LoadSucceedsStep(item: OutputItem, page: PageData, load: Loader, outputDir: string, minify: bool,
                         entries: Entries<string>, i: nat, writes: seq<JsonWrite>)
    requires i < |entries| && load(entries[i].1).Success?
    requires Writes(item, page, load, outputDir, minify, entries[..i]) == PageOutcome(writes, None)
    ensures Writes(item, page, load, outputDir, minify, entries[..i + 1]) ==
      PageOutcome(writes + [WriteFor(item, page, outputDir, minify, entries[i].0, load(entries[i].1).value)], None)
  {
    assert entries[..i + 1][..i] == entries[..i];
  }

  lemma LoadFailsStep(item: OutputItem, page: PageData, load: Loader, outputDir: string, minify: bool,
                      entries: Entries<string>, i: nat, writes: seq<JsonWrite>)
    requires i < |entries| && load(entries[i].1).Failure?
    requires Writes(item, page, load, outputDir, minify, entries[..i]) == PageOutcome(writes, None)
    ensures Writes(item, page, load, outputDir, minify, entries) ==
      PageOutcome(writes, Some(MarkdownError(entries[i].1, load(entries[i].1).error)))
  {
    assert entries[..i + 1][..i] == entries[..i];
    WritesStopped(item, page, load, outputDir, minify, entries, i + 1);
  }

  /** Once a load has thrown, later entries change nothing. */
  lemma {:induction false} WritesStopped(item: OutputItem, page: PageData, load: Loader, outputDir: string, minify: bool,
                                         entries: Entries<string>, n: nat)
    requires n <= |entries| && Writes(item, page, load, outputDir, minify, entries[..n]).error.Some?
    ensures Writes(item, page, load, outputDir, minify, entries) == Writes(item, page, load, outputDir, minify, entries[..n])
    decreases |entries|
  {
    if n < |entries| {
      var init := entries[..|entries| - 1];
      assert init[..n] == entries[..n];
      WritesStopped(item, page, load, outputDir, minify, init, n);
    } else {
      assert entries[..n] == entries;
    }
  }

  /** The i-th write belongs to the i-th entry, whose load succeeded. */
  lemma {:induction false} WritesAt(item: OutputItem, page: PageData, load: Loader, outputDir: string, minify: bool,
                                    entries: Entries<string>, i: nat)
    requires i < |Writes(item, page, load, outputDir, minify, entries).writes|
    ensures load(entries[i].1).Success?
    ensures Writes(item, page, load, outputDir, minify, entries).writes[i] ==
      WriteFor(item, page, outputDir, minify, entries[i].0, load(entries[i].1).value)
    decreases |entries|
  {
    var init := entries[..|entries| - 1];
    var prev := Writes(item, page, load, outputDir, minify, init);
    if i < |prev.writes| {
      WritesAt(item, page, load, outputDir, minify, init, i);
    }
  }

  /** The loop writes every entry exactly when every load succeeds; otherwise
      it stops at the first entry whose load throws, with that entry's error,
      after writing the entries before it. */
  lemma {:induction false} WritesOutcome(item: OutputItem, page: PageData, load: Loader, outputDir: string, minify: bool,
                                         entries: Entries<string>)
    ensures var o := Writes(item, page, load, outputDir, minify, entries);
      o.error.None? <==> forall j :: 0 <= j < |entries| ==> load(entries[j].1).Success?
    ensures var o := Writes(item, page, load, outputDir, minify, entries);
      o.error.Some? ==>
        |o.writes| < |entries| && load(entries[|o.writes|].1).Failure? &&
        o.error == Some(MarkdownError(entries[|o.writes|].1, load(entries[|o.writes|].1).error)) &&
        forall j :: 0 <= j < |o.writes| ==> load(entries[j].1).Success?
    decreases |entries|
  {
    if entries != [] {
      var init := entries[..|entries| - 1];
      WritesOutcome(item, page, load, outputDir, minify, init);
      assert forall j :: 0 <= j < |init| ==> init[j] == entries[j];
    }
  }

  /** A load that throws at entry `i`, after every earlier load succeeded:
      the entries before `i` are written, no later one is, and the build fails
      with that load's error. */
  lemma FailedLoadAt(item: OutputItem, page: PageData, load: Loader, outputDir: string, minify: bool,
                     entries: Entries<string>, i: nat)
    requires i < |entries| && load(entries[i].1).Failure?
    requires forall j :: 0 <= j < i ==> load(entries[j].1).Success?
    ensures var before := Writes(item, page, load, outputDir, minify, entries[..i]);
      before.error.None? && |before.writes| == i &&
      Writes(item, page, load, outputDir, minify, entries) ==
        PageOutcome(before.writes, Some(MarkdownError(entries[i].1, load(entries[i].1).error)))
  {
    var before := Writes(item, page, load, outputDir, minify, entries[..i]);
    WritesOutcome(item, page, load, outputDir, minify, entries[..i]);
    assert entries[..i + 1][..i] == entries[..i];
    WritesStopped(item, page, load, outputDir, minify, entries, i + 1);
  }

  /** Every file written belongs to an allowed language the page has content
      for, lies at `outputDir/pages/<uuid>/<lang>.json`, holds the loaded
      content and the page's `meta` unchanged, and is pretty-printed exactly
      when not minified. */
  lemma WritesAreAllowed(item: OutputItem, page: PageData, load: Loader, outputDir: string, minify: bool)
    ensures var ws := PageWrites(item, page, load, outputDir, minify).writes;
      forall w :: w in ws ==>
        exists lang, ref :: ((lang, ref) in page.content && IsAllowedLanguage(lang) && load(ref).Success? &&
          w.path == outputDir + "/pages/" + item.uuid + "/" + lang + ".json" &&
          w.data.content == load(ref).value && w.data.meta == page.meta && w.pretty == !minify)
  {
    var entries := ContentRefEntries(page.content);
    var ws := PageWrites(item, page, load, outputDir, minify).writes;
    forall w | w in ws
      ensures exists lang, ref :: ((lang, ref) in page.content && IsAllowedLanguage(lang) && load(ref).Success? &&
        w.path == outputDir + "/pages/" + item.uuid + "/" + lang + ".json" &&
        w.data.content == load(ref).value && w.data.meta == page.meta && w.pretty == !minify)
    {
      var i :| 0 <= i < |ws| && ws[i] == w;
      WritesAt(item, page, load, outputDir, minify, entries, i);
      var (lang, ref) := entries[i];
      assert entries[i] in entries;
      PathShape(outputDir, item.uuid, lang);
    }
  }

  lemma PathShape(outputDir: string, uuid: string, lang: string)
    ensures OutputFilePath(outputDir, uuid, lang) == outputDir + "/pages/" + uuid + "/" + lang + ".json"
  {
    assert outputDir + "/" + PageDirname + "/" == outputDir + "/pages/";
  }

  /** When every allowed content file loads, the build succeeds and every
      allowed language the page has content for is written. */
  lemma EveryAllowedLanguageWritten(item: OutputItem, page: PageData, load: Loader, outputDir: string, minify: bool,
                                    lang: string, ref: string)
    requires forall k :: 0 <= k < |page.content| && IsAllowedLanguage(page.content[k].0) ==> load(page.content[k].1).Success?
    requires (lang, ref) in page.content && IsAllowedLanguage(lang)
    ensures PageWrites(item, page, load, outputDir, minify).error.None?
    ensures load(ref).Success? &&
      WriteFor(item, page, outputDir, minify, lang, load(ref).value) in PageWrites(item, page, load, outputDir, minify).writes
  {
    var entries := ContentRefEntries(page.content);
    forall j | 0 <= j < |entries|
      ensures load(entries[j].1).Success?
    {
      assert entries[j] in entries;
      var k :| 0 <= k < |page.content| && page.content[k] == entries[j];
    }
    WritesOutcome(item, page, load, outputDir, minify, entries);
    var i :| 0 <= i < |entries| && entries[i] == (lang, ref);
    WritesAt(item, page, load, outputDir, minify, entries, i);
    assert PageWrites(item, page, load, outputDir, minify).writes[i] in PageWrites(item, page, load, outputDir, minify).writes;
  }

  /** Different languages go to different files. */
  lemma PathsDiffer(outputDir: string, uuid: string, a: string, b: string)
    requires a != b
    ensures OutputFilePath(outputDir, uuid, a) != OutputFilePath(outputDir, uuid, b)
  {
    var p := outputDir + "/" + PageDirname + "/" + uuid + "/";
    assert OutputFilePath(outputDir, uuid, a) == p + a + ".json";
    assert OutputFilePath(outputDir, uuid, b) == p + b + ".json";
    if |a| == |b| {
      assert (p + a + ".json")[|p|..|p| + |a|] == a;
      assert (p + b + ".json")[|p|..|p| + |b|] == b;
    }
  }

  /** With each language once in the page file, no file is written twice. */
  lemma WritesDistinct(item: OutputItem, page: PageData, load: Loader, outputDir: string, minify: bool)
    requires DistinctKeys(page.content)
    ensures var ws := PageWrites(item, page, load, outputDir, minify).writes;
      forall i, j :: 0 <= i < j < |ws| ==> ws[i].path != ws[j].path
  {
    var entries := ContentRefEntries(page.content);
    var ws := PageWrites(item, page, load, outputDir, minify).writes;
    FilterKeepsDistinct(page.content);
    forall i, j | 0 <= i < j < |ws|
      ensures ws[i].path != ws[j].path
    {
      WritesAt(item, page, load, outputDir, minify, entries, i);
      WritesAt(item, page, load, outputDir, minify, entries, j);
      PathsDiffer(outputDir, item.uuid, entries[i].0, entries[j].0);
    }
  }

  lemma {:induction false} FilterKeepsDistinct(content: Entries<string>)
    requires DistinctKeys(content)
    ensures DistinctKeys(ContentRefEntries(content))
    decreases |content|
  {
    if content != [] {
      var init := content[..|content| - 1];
      var e := content[|content| - 1];
      FilterKeepsDistinct(init);
      var rest := ContentRefEntries(init);
      forall x | x in rest
        ensures x.0 != e.0
      {
        var k :| 0 <= k < |init| && init[k] == x;
        assert content[k] == x;
      }
    }
  }

  /** The properties for one language: the value given for it, or the default. */
  lemma PropertiesFor(page: PageData, lang: string, content: Root)
    ensures var p := OutputData(page, lang, content).properties;
      (forall i :: (0 <= i < |page.properties.title| && page.properties.title[i].0 == lang &&
        DistinctKeys(page.properties.title)) ==> p.title == page.properties.title[i].1) &&
      (!HasKey(page.properties.title, lang) ==> p.title == "") &&
      (forall i :: (0 <= i < |page.properties.description| && page.properties.description[i].0 == lang &&
        DistinctKeys(page.properties.description)) ==> p.description == page.properties.description[i].1)
    ensures var p := OutputData(page, lang, content).properties;
      !HasKey(page.properties.description, lang) ==> p.description == ""
    ensures var p := OutputData(page, lang, content).properties;
      (page.properties.tags.Some? ==> forall i :: (0 <= i < |page.properties.tags.value| &&
        page.properties.tags.value[i].0 == lang && DistinctKeys(page.properties.tags.value)) ==>
          p.tags == page.properties.tags.value[i].1) &&
      ((page.properties.tags.None? || !HasKey(page.properties.tags.value, lang)) ==> p.tags == [])
    ensures var p := OutputData(page, lang, content).properties;
      (page.properties.menuTitle.Some? ==> forall i :: (0 <= i < |page.properties.menuTitle.value| &&
        page.properties.menuTitle.value[i].0 == lang && DistinctKeys(page.properties.menuTitle.value)) ==>
          p.menuTitle == Some(page.properties.menuTitle.value[i].1)) &&
      ((page.properties.menuTitle.None? || !HasKey(page.properties.menuTitle.value, lang)) ==> p.menuTitle.None?)
  {
    GetFound(page.properties.title, lang);
    GetFound(page.properties.description, lang);
    if page.properties.tags.Some? {
      GetFound(page.properties.tags.value, lang);
    }
    if page.properties.menuTitle.Some? {
      GetFound(page.properties.menuTitle.value, lang);
    }
  }

  /** The page file of the test: Russian and English content, both titles and
      descriptions, `deprecated: true`. */
  const TestMeta := Some(PageMeta(None, Some(true), None, None))
  const TestPage := PageData(
    [("ru", "./index.ru.md"), ("en", "./index.en.md")], TestMeta,
    PageProperties(
      [("ru", "Описание RU"), ("en", "Description EN")], None,
      [("ru", "Заголовок RU"), ("en", "Title EN")], None))
  const TestItem := OutputItem("css.properties.background-color", "/css/background-color", "test-uuid")

  /** Two files, Russian first, each with its own title and description and
      the same `meta`, tags defaulting to `[]`. */
  lemma TwoLanguagePage(outputDir: string, load: Loader)
    requires load("./index.ru.md").Success? && load("./index.en.md").Success?
    ensures PageWrites(TestItem, TestPage, load, outputDir, false) == PageOutcome([
        JsonWrite(outputDir + "/pages/test-uuid/ru.json",
          OutputPageData(load("./index.ru.md").value, TestMeta, OutputProperties("Описание RU", None, [], "Заголовок RU")), true),
        JsonWrite(outputDir + "/pages/test-uuid/en.json",
          OutputPageData(load("./index.en.md").value, TestMeta, OutputProperties("Description EN", None, [], "Title EN")), true)],
      None)
  {
    TestEntries();
    TwoWrites(TestItem, TestPage, load, outputDir, false);
    TestPath(outputDir);
    TestProperties(load("./index.ru.md").value, load("./index.en.md").value);
  }

  /** When the English file of the test page cannot be loaded, only the
      Russian file is written and the build fails with the loader's error. */
  lemma SecondLanguageFails(outputDir: string, load: Loader)
    requires load("./index.ru.md").Success? && load("./index.en.md").Failure?
    ensures PageWrites(TestItem, TestPage, load, outputDir, false) == PageOutcome([
        JsonWrite(outputDir + "/pages/test-uuid/ru.json",
          OutputPageData(load("./index.ru.md").value, TestMeta, OutputProperties("Описание RU", None, [], "Заголовок RU")), true)],
      Some(MarkdownError("./index.en.md", load("./index.en.md").error)))
  {
    TestEntries();
    var entries := TestPage.content;
    FailedLoadAt(TestItem, TestPage, load, outputDir, false, entries, 1);
    var before := Writes(TestItem, TestPage, load, outputDir, false, entries[..1]);
    WritesAt(TestItem, TestPage, load, outputDir, false, entries[..1], 0);
    assert before.writes == [before.writes[0]];
    TestPath(outputDir);
    TestProperties(load("./index.ru.md").value, load("./index.ru.md").value);
  }

  /** A page whose two entries are both kept and both load writes them in order. */
  lemma TwoWrites(item: OutputItem, page: PageData, load: Loader, outputDir: string, minify: bool)
    requires |page.content| == 2 && ContentRefEntries(page.content) == page.content
    requires load(page.content[0].1).Success? && load(page.content[1].1).Success?
    ensures var (a, b) := (page.content[0], page.content[1]);
      PageWrites(item, page, load, outputDir, minify) == PageOutcome([
        WriteFor(item, page, outputDir, minify, a.0, load(a.1).value),
        WriteFor(item, page, outputDir, minify, b.0, load(b.1).value)], None)
  {
    var o := PageWrites(item, page, load, outputDir, minify);
    WritesOutcome(item, page, load, outputDir, minify, page.content);
    WritesAt(item, page, load, outputDir, minify, page.content, 0);
    WritesAt(item, page, load, outputDir, minify, page.content, 1);
    assert o.writes == [o.writes[0], o.writes[1]];
  }

  lemma TestEntries()
    ensures ContentRefEntries(TestPage.content) == TestPage.content
  {
    AllowedLanguagesAre("ru");
    AllowedLanguagesAre("en");
    AllAllowedKept(TestPage.content);
  }

  lemma TestProperties(ru: Root, en: Root)
    ensures OutputData(TestPage, "ru", ru) ==
      OutputPageData(ru, TestMeta, OutputProperties("Описание RU", None, [], "Заголовок RU"))
    ensures OutputData(TestPage, "en", en) ==
      OutputPageData(en, TestMeta, OutputProperties("Description EN", None, [], "Title EN"))
  {
  }

  lemma TestPath(outputDir: string)
    ensures OutputFilePath(outputDir, "test-uuid", "ru") == outputDir + "/pages/test-uuid/ru.json"
    ensures OutputFilePath(outputDir, "test-uuid", "en") == outputDir + "/pages/test-uuid/en.json"
  {
    PathTail(outputDir, "test-uuid", "ru");
    PathTail(outputDir, "test-uuid", "en");
    assert "ru" + ".json" == "ru.json";
    assert "en" + ".json" == "en.json";
    TestTail("ru.json");
    TestTail("en.json");
  }

  lemma TestTail(file: string)
    ensures "/" + (PageDirname + ("/" + ("test-uuid" + ("/" + file)))) == "/pages/test-uuid/" + file
  {
    assert "/" + (PageDirname + ("/" + "test-uuid")) == "/pages/test-uuid";
  }

  lemma PathTail(outputDir: string, uuid: string, lang: string)
    ensures OutputFilePath(outputDir, uuid, lang) ==
      outputDir + ("/" + (PageDirname + ("/" + (uuid + ("/" + (lang + ".json"))))))
  {
  }

  /** A language outside the allowed list produces no file. This is the
      filter at src/functions/buildPage.ts:62-64 taken alone: `parsePageFile`
      rejects such a page before it reaches `buildPage`, since its `content`
      record only admits the allowed languages. */
  lemma UnknownLanguageSkipped(item: OutputItem, page: PageData, load: Loader, outputDir: string, minify: bool)
    requires page.content == [("de", "./index.de.md"), ("en", "./index.en.md")]
    requires load("./index.en.md").Success?
    ensures PageWrites(item, page, load, outputDir, minify) ==
      PageOutcome([WriteFor(item, page, outputDir, minify, "en", load("./index.en.md").value)], None)
  {
    AllowedLanguagesAre("de");
    AllowedLanguagesAre("en");
    assert page.content[..1] == [("de", "./index.de.md")];
    assert page.content[..1][..0] == [];
    assert ContentRefEntries(page.content[..1]) == [];
    var entries := [("en", "./index.en.md")];
    assert ContentRefEntries(page.content) == entries;
    assert entries[..0] == [];
  }

  /** A built page's files hold the content of its references resolved
      against the page file's own directory: write `i` carries what
      `parseMarkdownFile` gave for entry `i`'s resolved path. */
  lemma ContentFromPageDirectory(item: OutputItem, pageRef: string, readPage: PageReader, load: Loader,
                                 outputDir: string, minify: bool, i: nat)
    requires readPage(pageRef).Success?
    requires i < |BuildPageFile(item, pageRef, readPage, load, outputDir, minify).writes|
    ensures var page := readPage(pageRef).value;
      var entries := ContentRefEntries(page.content);
      i < |entries| && load(ResolvePath(DirName(pageRef), entries[i].1)).Success? &&
      BuildPageFile(item, pageRef, readPage, load, outputDir, minify).writes[i] ==
        WriteFor(item, page, outputDir, minify, entries[i].0, load(ResolvePath(DirName(pageRef), entries[i].1)).value)
  {
    var page := readPage(pageRef).value;
    var pageLoad := PageLoader(load, DirName(pageRef));
    WritesAt(item, page, pageLoad, outputDir, minify, ContentRefEntries(page.content), i);
  }

  /** The same relative reference in two different directories names two
      different files. */
  lemma ResolveDiffers(d1: string, d2: string, ref: string)
    requires d1 != d2 && (ref == [] || ref[0] != '/')
    ensures ResolvePath(d1, ref) != ResolvePath(d2, ref)
  {
    var t := "/" + ref;
    assert ResolvePath(d1, ref) == d1 + t && ResolvePath(d2, ref) == d2 + t;
    if |d1| == |d2| {
      assert (d1 + t)[..|d1|] == d1 && (d2 + t)[..|d2|] == d2;
    } else {
      assert |d1 + t| != |d2 + t|;
    }
  }

  /** Two page files sitting side by side in their own directories, both
      listing `ru: ./ru.md`: each loads its own `ru.md`. */
  lemma SiblingPagesLoadOwnFiles()
    ensures DirName("content/css/background-color/page.yml") == "content/css/background-color"
    ensures DirName("content/css/color/page.yml") == "content/css/color"
    ensures ResolvePath(DirName("content/css/background-color/page.yml"), "./ru.md") ==
      "content/css/background-color/./ru.md"
    ensures ResolvePath(DirName("content/css/background-color/page.yml"), "./ru.md") !=
      ResolvePath(DirName("content/css/color/page.yml"), "./ru.md")
  {
    assert "content/css/background-color" + "/" + "page.yml" == "content/css/background-color/page.yml";
    assert "content/css/color" + "/" + "page.yml" == "content/css/color/page.yml";
    DirNameAt("content/css/background-color", "page.yml");
    DirNameAt("content/css/color", "page.yml");
    ResolveDiffers("content/css/background-color", "content/css/color", "./ru.md");
  }

  /** The directory of `dir/file` is `dir`, for a non-empty `dir` and a file
      name without `/`. */
  lemma DirNameAt(dir: string, file: string)
    requires dir != [] && forall j :: 0 <= j < |file| ==> file[j] != '/'
    ensures DirName(dir + "/" + file) == dir
  {
    var p := dir + "/" + file;
    var k := LastSlash(p);
    assert p[|dir|] == '/';
    assert forall j :: |dir| < j < |p| ==> p[j] == file[j - |dir| - 1];
    assert k == |dir|;
    assert p[..|dir|] == dir;
  }
}
