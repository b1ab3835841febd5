/** The earlier single-file generator, dawg.js: chapters named by their file
    name and published under `<name>.html`, a render keyed by file name,
    request lookup by target name, the `listChapters` helper, and the
    `host:port` address parser. */
module Legacy {
  import opened Wrappers
  import opened FileSystem
  import opened Utils
  import opened Templating
  import Chapters
  import Dawg

  // ---------------------------------------------------------------------------
  // Addresses

  datatype Address = Address(host: string, port: string)

  /** `parseAddress(address)`: `String(address).split(':', 2)`; the port is
      the last piece kept, the host the one before it, `127.0.0.1` when there
      is none or it is empty, and `localhost` becomes `127.0.0.1`. */
  function ParseAddress(address: Value): (a: Address)
    ensures ':' !in a.port && ':' !in a.host
    ensures a.host != "" && a.host != "localhost"
  {
    var pieces := Split(ToStr(address), ':');
    var kept := if |pieces| > 2 then pieces[..2] else pieces;
    var host := if |kept| == 2 && kept[0] != "" then kept[0] else "127.0.0.1";
    Address(if host == "localhost" then "127.0.0.1" else host, kept[|kept| - 1])
  }

  /** The `host:port` text of an address. */
  function FormatAddress(a: Address): string
  {
    a.host + ":" + a.port
  }

  lemma SplitPair(h: string, p: string)
    requires ':' !in h && ':' !in p
    ensures Split(h + ":" + p, ':') == [h, p]
  {
    IndexOfPrefix(h, p, ':');
    assert (h + ":" + p)[..|h|] == h;
    assert (h + ":" + p)[|h| + 1..] == p;
    IndexOfAbsent(p, ':');
  }

  /** Parsing a formatted address gives it back, for any address a parse can
      produce. */
  lemma ParseFormat(a: Address)
    requires ':' !in a.port && ':' !in a.host
    requires a.host != "" && a.host != "localhost"
    ensures ParseAddress(Str(FormatAddress(a))) == a
  {
    SplitPair(a.host, a.port);
  }

  /** `host:port` maps `localhost` to `127.0.0.1` and keeps any other host. */
  lemma ParseHostPort(h: string, p: string)
    requires ':' !in h && ':' !in p && h != ""
    ensures ParseAddress(Str(h + ":" + p)) == Address(if h == "localhost" then "127.0.0.1" else h, p)
  {
    SplitPair(h, p);
  }

  /** A bare port, or an empty host, listens on `127.0.0.1`. */
  lemma ParsePortOnly(p: string)
    requires ':' !in p
    ensures ParseAddress(Str(p)) == Address("127.0.0.1", p)
    ensures ParseAddress(Str(":" + p)) == Address("127.0.0.1", p)
  {
    IndexOfAbsent(p, ':');
    SplitPair("", p);
    assert "" + ":" + p == ":" + p;
  }

  /** `host:port:rest` splits into `host`, `port` and at least one more piece. */
  lemma SplitLong(h: string, p: string, rest: string)
    requires ':' !in h && ':' !in p
    ensures var pieces := Split(h + ":" + p + ":" + rest, ':');
      |pieces| > 2 && pieces[..2] == [h, p]
  {
    var tail := p + [':'] + rest;
    assert h + ":" + p + ":" + rest == h + [':'] + tail;
    SplitFront(h, tail, ':');
    SplitFront(p, rest, ':');
  }

  /** Pieces after the second are dropped by the split limit. */
  lemma ParseDropsRest(h: string, p: string, rest: string)
    requires ':' !in h && ':' !in p && h != ""
    ensures ParseAddress(Str(h + ":" + p + ":" + rest)) == ParseAddress(Str(h + ":" + p))
  {
    SplitLong(h, p, rest);
    ParseHostPort(h, p);
  }

  // ---------------------------------------------------------------------------
  // Chapters

  /** `chapters.filter(isSupported)`, in listing order. */
  function SupportedNames(listing: seq<string>): (names: seq<string>)
    ensures forall x :: x in names <==> x in listing && Chapters.IsSupported(x)
  {
    if |listing| == 0 then []
    else (if Chapters.IsSupported(listing[0]) then [listing[0]] else []) + SupportedNames(listing[1..])
  }

  /** Filtering keeps the listing order: it distributes over concatenation. */
  lemma {:induction false} SupportedNamesAppend(a: seq<string>, b: seq<string>)
    ensures SupportedNames(a + b) == SupportedNames(a) + SupportedNames(b)
  {
    if |a| > 0 {
      assert (a + b)[1..] == a[1..] + b;
      SupportedNamesAppend(a[1..], b);
    } else {
      assert a + b == b;
    }
  }

  /** A chapter of dawg.js: a file with its name, the page it is published
      as, and the `_content` and `_title` caches. */
  class Chapter {
    const path: Path
    const filename: string := Basename(path)
    const target: string := Dawg.TargetName(filename)
    var autoTitle: bool
    var content: Option<string>        // `_content`
    var title: Option<string>          // `_title`
    var filenameTitle: Option<string>  // the `_filename` property `title()` sets

    constructor Make(source: Path)
      ensures path == source && filename == Basename(source)
      ensures target == StripExtension(filename) + ".html"
      ensures autoTitle && content == None && title == None && filenameTitle == None
    {
      path := source;
      autoTitle := true;
      content, title, filenameTitle := None, None, None;
    }

    /** `new Chapter(source)`: fails unless the source is a file. */
    static method New(fs: FileSystem, source: Path) returns (r: Result<Chapter>)
      ensures source !in fs ==> r == Err(SourceMissing(source))
      ensures source in fs && fs[source].Dir? ==> r == Err(SourceNotFile(source))
      ensures r.Ok? <==> IsFile(fs, source)
      ensures r.Ok? ==> fresh(r.value) && r.value.path == source && r.value.Pristine()
    {
      if source !in fs {
        return Err(SourceMissing(source));
      } else if !fs[source].File? {
        return Err(SourceNotFile(source));
      }
      var c := new Chapter.Make(source);
      r := Ok(c);
    }

    /** A new chapter: titles discovered, nothing cached. */
    ghost predicate Pristine()
      reads this
    {
      autoTitle && content == None && title == None && filenameTitle == None
    }

    /** What `content(noCache)` returns now, with `noCache` already reduced
        to a boolean. */
    function ContentNow(fs: FileSystem, uncached: bool): Result<string>
      reads this
    {
      if !uncached && content.Some? then Ok(content.value) else ReadFile(fs, path)
    }

    /** `content(noCache)`: a non-boolean `noCache` counts as false; the file
        is read when asked to or when nothing is cached, and then cached. */
    method Content(fs: FileSystem, noCache: Value) returns (r: Result<string>)
      modifies this
      ensures r == old(ContentNow(fs, noCache.Bool? && noCache.b))
      ensures content == (if r.Ok? then Some(r.value) else old(content))
      ensures noCache.Bool? && noCache.b ==> r == ReadFile(fs, path)
      ensures !(noCache.Bool? && noCache.b) && old(content).Some? ==> r == Ok(old(content).value)
      ensures autoTitle == old(autoTitle) && title == old(title) && filenameTitle == old(filenameTitle)
      ensures !(noCache.Bool? && noCache.b) ==> ContentNow(fs, false) == old(ContentNow(fs, false))
    {
      var uncached := noCache.Bool? && noCache.b;
      if uncached || content.None? {
        var read := ReadFile(fs, path);
        if read.Err? {
          return read;
        }
        content := Some(read.value);
      }
      r := Ok(content.value);
    }

    /** What `title()` returns now. */
    function TitleNow(fs: FileSystem): Result<Option<string>>
      reads this
    {
      if autoTitle then
        match ContentNow(fs, false)
        case Ok(text) => Ok(Some(Chapters.DiscoveredTitle(text, filename)))
        case Err(e) => Err(e)
      else Ok(title)
    }

    /** `title()`: with `autoTitle`, the first heading of the content or else
        the filename title, stored in `_title`; without it the filename title
        goes to `_filename` and `_title` is returned as it was. Asking again
        gives the same answer. */
    method Title(fs: FileSystem) returns (r: Result<Option<string>>)
      modifies this
      ensures r == old(TitleNow(fs)) && TitleNow(fs) == r
      ensures autoTitle ==> (r.Ok? ==> r.value.Some? && title == r.value)
      ensures autoTitle ==>
        filenameTitle == old(filenameTitle) &&
        match old(ContentNow(fs, false))
        case Ok(text) => content == Some(text)
        case Err(_) => content == old(content) && title == old(title)
      ensures !autoTitle ==>
        r == Ok(old(title)) && filenameTitle == Some(Chapters.FilenameTitle(filename))
        && title == old(title) && content == old(content)
      ensures autoTitle == old(autoTitle)
      ensures ContentNow(fs, false) == old(ContentNow(fs, false))
    {
      if autoTitle {
        var text := Content(fs, Undefined);
        if text.Err? {
          return Err(text.error);
        }
        title := Some(Chapters.DiscoveredTitle(text.value, filename));
      } else {
        filenameTitle := Some(Chapters.FilenameTitle(filename));
      }
      r := Ok(title);
    }
  }

  /** `gather(source)`: one chapter per supported entry of the listing, in
      listing order; an entry that is not a file makes it fail. */
  method Gather(fs: FileSystem, source: Path) returns (r: Result<seq<Chapter>>)
    ensures ReadDir(fs, source).Err? ==> r == Err(ReadDir(fs, source).error)
    ensures r.Ok? <==>
      && ReadDir(fs, source).Ok?
      && forall name :: name in SupportedNames(fs[source].listing) ==> IsFile(fs, JoinPath(source, name))
    ensures r.Ok? ==>
      var names := SupportedNames(fs[source].listing);
      && |r.value| == |names|
      && forall i :: 0 <= i < |names| ==>
           fresh(r.value[i]) && r.value[i].path == JoinPath(source, names[i]) && r.value[i].Pristine()
  {
    var listing := ReadDir(fs, source);
    if listing.Err? {
      return Err(listing.error);
    }
    var names := SupportedNames(listing.value);
    var chapters: seq<Chapter> := [];
    for i := 0 to |names|
      invariant |chapters| == i
      invariant forall j :: 0 <= j < i ==> IsFile(fs, JoinPath(source, names[j]))
      invariant forall j :: 0 <= j < i ==>
        fresh(chapters[j]) && chapters[j].path == JoinPath(source, names[j]) && chapters[j].Pristine()
    {
      var c := Chapter.New(fs, JoinPath(source, names[i]));
      if c.Err? {
        return Err(c.error);
      }
      chapters := chapters + [c.value];
    }
    r := Ok(chapters);
  }

  // ---------------------------------------------------------------------------
  // Rendering

  /** `compileTemplate`'s choice: the given template when it is a file,
      else the default one. */
  function TemplatePath(fs: FileSystem, template: Value, default: Path): (p: Path)
    ensures template.Str? && IsFile(fs, ParsePath(template.s)) ==> p == ParsePath(template.s)
    ensures !(template.Str? && IsFile(fs, ParsePath(template.s))) ==> p == default
  {
    if template.Str? && IsFile(fs, ParsePath(template.s)) then ParsePath(template.s) else default
  }

  /** What a chapter contributes to `render` now: its file name and its
      content converted to HTML. */
  function PageSlots(cs: seq<Chapter>, fs: FileSystem, markdown: string -> string): (slots: seq<Slot>)
    reads set c: Chapter | c in cs
    ensures |slots| == |cs|
    ensures forall i :: 0 <= i < |cs| ==> slots[i] == Some((cs[i].filename, Converted(cs[i].ContentNow(fs, false), markdown)))
  {
    seq(|cs|, i reads set c: Chapter | c in cs requires 0 <= i < |cs| =>
        Some((cs[i].filename, Converted(cs[i].ContentNow(fs, false), markdown))))
  }

  function Converted(content: Result<string>, markdown: string -> string): Result<string>
  {
    match content
    case Ok(text) => Ok(markdown(text))
    case Err(e) => Err(e)
  }

  /** What `render(chapters, template)` returns now: the template file is
      read (the default when the given one is not a file), then each chapter
      renders under its file name; the first unreadable file makes it fail. */
  function RenderNow(fs: FileSystem, chapters: seq<Chapter>, template: Value, default: Path,
                     markdown: string -> string, apply: (string, string, string, string) -> string)
    : Result<map<string, string>>
    reads set c: Chapter | c in chapters
  {
    match ReadFile(fs, TemplatePath(fs, template, default))
    case Err(e) => Err(e)
    case Ok(text) => Dawg.Rendered(PageSlots(chapters, fs, markdown), text, "", apply)
  }

  /** A successful render has exactly one page per file name. */
  lemma RenderNowKeys(fs: FileSystem, chapters: seq<Chapter>, template: Value, default: Path,
                      markdown: string -> string, apply: (string, string, string, string) -> string)
    requires RenderNow(fs, chapters, template, default, markdown, apply).Ok?
    ensures RenderNow(fs, chapters, template, default, markdown, apply).value.Keys
      == set c: Chapter | c in chapters :: c.filename
  {
    var text := ReadFile(fs, TemplatePath(fs, template, default)).value;
    var slots := PageSlots(chapters, fs, markdown);
    Dawg.RenderedKeys(slots, text, "", apply);
    forall c: Chapter | c in chapters
      ensures c.filename in set i | 0 <= i < |slots| && slots[i].Some? :: slots[i].value.0
    {
      var i :| 0 <= i < |chapters| && chapters[i] == c;
      assert slots[i].value.0 == c.filename;
    }
  }

  /** What a chapter answers now: `content()` and `title()`. */
  ghost function Answers(c: Chapter, fs: FileSystem): (Result<string>, Result<Option<string>>)
    reads c
  {
    (c.ContentNow(fs, false), c.TitleNow(fs))
  }

  /** `render(chapters, template)`: the pages keyed by file name, so of two
      chapters with the same file name the later one's page is kept. The
      template is applied with no styling. */
  method Render(fs: FileSystem, chapters: seq<Chapter>, template: Value, default: Path,
                markdown: string -> string, apply: (string, string, string, string) -> string)
    returns (r: Result<map<string, string>>)
    modifies set c: Chapter | c in chapters
    ensures r == old(RenderNow(fs, chapters, template, default, markdown, apply))
    ensures r.Ok? ==> r.value.Keys == set c: Chapter | c in chapters :: c.filename
    ensures forall c: Chapter :: c in chapters ==> Answers(c, fs) == old(Answers(c, fs))
  {
    ghost var before := RenderNow(fs, chapters, template, default, markdown, apply);
    if before.Ok? {
      RenderNowKeys(fs, chapters, template, default, markdown, apply);
    }
    var read := ReadFile(fs, TemplatePath(fs, template, default));
    if read.Err? {
      return Err(read.error);
    }
    var text := read.value;
    ghost var slots := PageSlots(chapters, fs, markdown);
    var rendered: map<string, string> := map[];
    ghost var es: seq<(string, string)> := [];
    for i := 0 to |chapters|
      invariant forall c: Chapter :: c in chapters ==> Answers(c, fs) == old(Answers(c, fs))
      invariant Entries(slots[..i]) == Ok(es)
      invariant rendered == Dawg.ToMap(Dawg.Pages(es, text, "", apply))
    {
      EntriesStep(slots, i);
      var c := chapters[i];
      label Before:
      var content := c.Content(fs, Undefined);
      assert Answers(c, fs) == old@Before(Answers(c, fs));
      assert forall d: Chapter :: d in chapters && d != c ==> Answers(d, fs) == old@Before(Answers(d, fs));
      if content.Err? {
        EntriesErrPrefix(slots, i + 1);
        assert Entries(slots) == Err(content.error);
        return Err(content.error);
      }
      var html := markdown(content.value);
      Dawg.PagesSnoc(es, (c.filename, html), text, "", apply);
      rendered := rendered[c.filename := apply(text, "", c.filename, html)];
      es := es + [(c.filename, html)];
    }
    assert slots[..|chapters|] == slots;
    assert Entries(slots) == Ok(es);
    r := Ok(rendered);
  }

  // ---------------------------------------------------------------------------
  // The listChapters helper

  /** What each chapter contributes to the chapter list now: its target and
      its title. */
  function TitleSlots(cs: seq<Chapter>, fs: FileSystem): (slots: seq<Slot>)
    reads set c: Chapter | c in cs
    ensures |slots| == |cs|
    ensures forall i :: 0 <= i < |cs| ==> slots[i] == Some((cs[i].target, TitleResult(cs[i].TitleNow(fs))))
  {
    seq(|cs|, i reads set c: Chapter | c in cs requires 0 <= i < |cs| =>
        Some((cs[i].target, TitleResult(cs[i].TitleNow(fs)))))
  }

  /** The `listChapters(title)` helper of dawg.js: the heading when truthy,
      then one entry per chapter in order, linking to its target with its
      title; the first unreadable chapter makes it fail. */
  method ListChapters(fs: FileSystem, chapters: seq<Chapter>, heading: Value) returns (r: Result<string>)
    modifies set c: Chapter | c in chapters
    ensures forall c: Chapter :: c in chapters ==> Answers(c, fs) == old(Answers(c, fs))
    ensures forall c: Chapter :: c in chapters ==> c.TitleNow(fs) == old(c.TitleNow(fs))
    ensures Entries(old(TitleSlots(chapters, fs))).Ok? ==>
      r == Ok(ChapterListHtml(heading, Entries(old(TitleSlots(chapters, fs))).value))
    ensures Entries(old(TitleSlots(chapters, fs))).Err? ==>
      r == Err(Entries(old(TitleSlots(chapters, fs))).error)
  {
    ghost var slots := TitleSlots(chapters, fs);
    var lines := HeadLines(heading);
    ghost var es: seq<(string, string)> := [];
    for i := 0 to |chapters|
      invariant forall c: Chapter :: c in chapters ==> Answers(c, fs) == old(Answers(c, fs))
      invariant Entries(slots[..i]) == Ok(es)
      invariant lines == HeadLines(heading) + EntryLines(es)
    {
      EntriesStep(slots, i);
      var c := chapters[i];
      label Before:
      var t := c.Title(fs);
      assert Answers(c, fs) == old@Before(Answers(c, fs));
      assert forall d: Chapter :: d in chapters && d != c ==> Answers(d, fs) == old@Before(Answers(d, fs));
      if t.Err? {
        EntriesErrPrefix(slots, i + 1);
        assert Entries(slots) == Err(t.error);
        return Err(t.error);
      }
      var entry := (c.target, TitleText(t.value));
      EntryLinesSnoc(heading, es, entry);
      lines := lines + [EntryLine(entry.0, entry.1)];
      es := es + [entry];
    }
    assert slots[..|chapters|] == slots;
    assert Entries(slots) == Ok(es);
    r := Ok(Join(lines + ["</ol>"], "\n"));
  }

  // ---------------------------------------------------------------------------
  // Requests

  /** The `forEach` of `handleRequest`: the last chapter whose target is
      `name`, or none. */
  method FindTarget(chapters: seq<Chapter>, name: string) returns (found: Option<Chapter>)
    ensures found.None? <==> forall c: Chapter :: c in chapters ==> c.target != name
    ensures found.Some? ==>
      exists k :: 0 <= k < |chapters| && chapters[k] == found.value && found.value.target == name
        && forall j :: k < j < |chapters| ==> chapters[j].target != name
  {
    found := None;
    ghost var k: nat := 0;
    for i := 0 to |chapters|
      invariant found.None? <==> forall j :: 0 <= j < i ==> chapters[j].target != name
      invariant found.Some? ==>
        && k < i && chapters[k] == found.value && found.value.target == name
        && forall j :: k < j < i ==> chapters[j].target != name
    {
      if chapters[i].target == name {
        found, k := Some(chapters[i]), i;
      }
    }
    assert forall c: Chapter :: c in chapters ==> exists j :: 0 <= j < |chapters| && chapters[j] == c;
  }

  /** `handleRequest(request, response)`: the empty name is the first
      chapter, any other the last chapter published under it; none gives
      404 with an empty body, one gives 200 with its page (empty when it has
      none, as `response.end(undefined)` sends nothing). */
  method HandleRequest(chapters: seq<Chapter>, rendered: map<string, string>, url: string)
    returns (resp: Dawg.Response)
    ensures resp.status == 200 || resp.status == 404
    ensures resp.status == 404 ==> resp.body == ""
    ensures Dawg.RequestName(url) == "" ==>
      (resp.status == 404 <==> |chapters| == 0)
      && (|chapters| > 0 ==> resp.body == PageOf(chapters[0], rendered))
    ensures Dawg.RequestName(url) != "" ==>
      (resp.status == 404 <==> forall c: Chapter :: c in chapters ==> c.target != Dawg.RequestName(url))
    ensures Dawg.RequestName(url) != "" && resp.status == 200 ==>
      exists k :: 0 <= k < |chapters| && chapters[k].target == Dawg.RequestName(url)
        && (forall j :: k < j < |chapters| ==> chapters[j].target != Dawg.RequestName(url))
        && resp.body == PageOf(chapters[k], rendered)
  {
    var name := Dawg.RequestName(url);
    var chapter: Option<Chapter>;
    if name == "" {
      chapter := if |chapters| > 0 then Some(chapters[0]) else None;
    } else {
      chapter := FindTarget(chapters, name);
    }
    if chapter.None? {
      resp := Dawg.Response(404, "");
    } else {
      resp := Dawg.Response(200, PageOf(chapter.value, rendered));
    }
  }

  /** `rendered[chapter.filename]` as the response sends it. */
  function PageOf(c: Chapter, rendered: map<string, string>): string
  {
    if c.filename in rendered then rendered[c.filename] else ""
  }

  // ---------------------------------------------------------------------------
  // Conversion

  /** `convert(source, destination, options)` as written: after gathering
      and rendering, `write` either calls `path.lstatSync` (to remove an
      existing destination directory), which `path` does not have, or calls
      `forEach` on the object `render` returned; it fails either way. */
  method Convert(fs: FileSystem, source: Path, destination: Path, template: Value, default: Path,
                 markdown: string -> string, apply: (string, string, string, string) -> string)
    returns (r: Result<map<string, string>>)
    ensures r.Err?
    ensures ReadDir(fs, source).Err? ==> r == Err(ReadDir(fs, source).error)
  {
    var chapters := Gather(fs, source);
    if chapters.Err? {
      return Err(chapters.error);
    }
    var rendered := Render(fs, chapters.value, template, default, markdown, apply);
    if rendered.Err? {
      return Err(rendered.error);
    }
    if destination in fs && fs[destination].Dir? {
      return Err(NotAFunction("path.lstatSync"));
    }
    r := Err(NotAFunction("chapters.forEach"));
  }

  /** Chapters whose files and template all exist render. */
  lemma ReadableRenders(fs: FileSystem, chapters: seq<Chapter>, template: Value, default: Path,
                        markdown: string -> string, apply: (string, string, string, string) -> string)
    requires forall c: Chapter :: c in chapters ==> IsFile(fs, c.path) && c.content == None
    requires IsFile(fs, TemplatePath(fs, template, default))
    ensures RenderNow(fs, chapters, template, default, markdown, apply).Ok?
  {
    var slots := PageSlots(chapters, fs, markdown);
    forall i | 0 <= i < |slots| ensures slots[i].Some? ==> slots[i].value.1.Ok? {
      assert chapters[i] in chapters;
    }
    EntriesAllReadable(slots);
  }

  /** The chapters gathered for `names` are files when all the names are. */
  lemma GatheredFiles(fs: FileSystem, source: Path, cs: seq<Chapter>, names: seq<string>)
    requires |cs| == |names| && forall i :: 0 <= i < |names| ==> cs[i].path == JoinPath(source, names[i])
    requires forall name :: name in names ==> IsFile(fs, JoinPath(source, name))
    ensures forall c: Chapter :: c in cs ==> IsFile(fs, c.path)
  {
    forall c: Chapter | c in cs ensures IsFile(fs, c.path) {
      var i :| 0 <= i < |cs| && cs[i] == c;
      assert names[i] in names;
    }
  }

  /** Every name has its chapter's target among the written files. */
  lemma TargetsCovered(source: Path, cs: seq<Chapter>, names: seq<string>, written: map<string, string>)
    requires |cs| == |names| && forall i :: 0 <= i < |names| ==> cs[i].path == JoinPath(source, names[i])
    requires written.Keys == set c: Chapter | c in cs :: c.target
    ensures forall name :: name in names ==> Dawg.TargetName(name) in written
  {
    forall name | name in names ensures Dawg.TargetName(name) in written {
      var i :| 0 <= i < |names| && names[i] == name;
      assert cs[i].filename == name;
      assert cs[i] in cs;
    }
  }

  /** The `forEach` of `write`, as intended: each chapter's page goes to its
      target. */
  method WritePages(cs: seq<Chapter>, rendered: map<string, string>) returns (written: map<string, string>)
    requires forall c: Chapter :: c in cs ==> c.filename in rendered
    ensures written.Keys == set c: Chapter | c in cs :: c.target
    ensures forall t :: t in written ==> exists c: Chapter :: c in cs && c.target == t && written[t] == rendered[c.filename]
  {
    written := map[];
    for i := 0 to |cs|
      invariant written.Keys == set j | 0 <= j < i :: cs[j].target
      invariant forall t :: t in written ==>
        exists j :: 0 <= j < i && cs[j].target == t && written[t] == rendered[cs[j].filename]
    {
      written := written[cs[i].target := rendered[cs[i].filename]];
    }
    assert (set j | 0 <= j < |cs| :: cs[j].target) == set c: Chapter | c in cs :: c.target by {
      forall c: Chapter | c in cs ensures c.target in set j | 0 <= j < |cs| :: cs[j].target {
        var j :| 0 <= j < |cs| && cs[j] == c;
      }
    }
  }

  /** The slots `render` sees for chapters just gathered for `names`, none
      of which has cached anything: each name with the markdown of its file. */
  ghost function NameSlots(fs: FileSystem, source: Path, names: seq<string>, markdown: string -> string)
    : (slots: seq<Slot>)
    requires forall name :: name in names ==> IsFile(fs, JoinPath(source, name))
    ensures |slots| == |names|
  {
    seq(|names|, i requires 0 <= i < |names| =>
      Some((names[i], Converted(ReadFile(fs, JoinPath(source, names[i])), markdown))))
  }

  /** Freshly gathered chapters render from the files of their names. */
  lemma GatheredSlots(fs: FileSystem, source: Path, cs: seq<Chapter>, names: seq<string>, markdown: string -> string)
    requires forall name :: name in names ==> IsFile(fs, JoinPath(source, name))
    requires |cs| == |names|
    requires forall i :: 0 <= i < |names| ==> cs[i].path == JoinPath(source, names[i]) && cs[i].Pristine()
    ensures PageSlots(cs, fs, markdown) == NameSlots(fs, source, names, markdown)
  {
    var slots := PageSlots(cs, fs, markdown);
    var want := NameSlots(fs, source, names, markdown);
    forall i | 0 <= i < |names| ensures slots[i] == want[i] {
      assert cs[i].filename == names[i];
    }
  }

  /** What `WritePages` promises of each target, in terms of the names the
      chapters were gathered for. */
  lemma WrittenNames(source: Path, cs: seq<Chapter>, names: seq<string>, rendered: map<string, string>,
                     written: map<string, string>)
    requires |cs| == |names| && forall i :: 0 <= i < |names| ==> cs[i].path == JoinPath(source, names[i])
    requires forall c: Chapter :: c in cs ==> c.filename in rendered
    requires forall t :: t in written ==> exists c: Chapter :: c in cs && c.target == t && written[t] == rendered[c.filename]
    ensures forall t :: t in written ==>
      exists name :: name in names && Dawg.TargetName(name) == t && name in rendered && written[t] == rendered[name]
  {
    forall t | t in written
      ensures exists name :: name in names && Dawg.TargetName(name) == t && name in rendered && written[t] == rendered[name]
    {
      var c: Chapter :| c in cs && c.target == t && written[t] == rendered[c.filename];
      var i :| 0 <= i < |cs| && cs[i] == c;
      assert c.filename == names[i];
    }
  }

  /** `convert` as intended: each chapter's page is written to its target;
      the result is what is written, by file name. Every target written
      holds the page rendered for a supported name with that target. */
  method ConvertIntended(fs: FileSystem, source: Path, template: Value, default: Path,
                         markdown: string -> string, apply: (string, string, string, string) -> string)
    returns (r: Result<map<string, string>>)
    ensures ReadDir(fs, source).Err? ==> r == Err(ReadDir(fs, source).error)
    ensures ReadDir(fs, source).Ok?
      && (forall name :: name in SupportedNames(fs[source].listing) ==> IsFile(fs, JoinPath(source, name)))
      && IsFile(fs, TemplatePath(fs, template, default))
      ==> r.Ok?
    ensures r.Ok? ==> ReadDir(fs, source).Ok? && forall name :: name in SupportedNames(fs[source].listing) ==>
      Dawg.TargetName(name) in r.value
    ensures r.Ok? ==>
      && ReadDir(fs, source).Ok?
      && ReadFile(fs, TemplatePath(fs, template, default)).Ok?
      && var names := SupportedNames(fs[source].listing);
         && (forall name :: name in names ==> IsFile(fs, JoinPath(source, name)))
         && var pages := Dawg.Rendered(NameSlots(fs, source, names, markdown),
                                       ReadFile(fs, TemplatePath(fs, template, default)).value, "", apply);
            && pages.Ok?
            && forall t :: t in r.value ==>
                 exists name :: name in names && Dawg.TargetName(name) == t && name in pages.value
                   && r.value[t] == pages.value[name]
  {
    var chapters := Gather(fs, source);
    if chapters.Err? {
      return Err(chapters.error);
    }
    var cs := chapters.value;
    ghost var names := SupportedNames(fs[source].listing);
    ghost var readable := forall name :: name in names ==> IsFile(fs, JoinPath(source, name));
    if readable {
      GatheredFiles(fs, source, cs, names);
      if IsFile(fs, TemplatePath(fs, template, default)) {
        ReadableRenders(fs, cs, template, default, markdown, apply);
      }
    }
    GatheredSlots(fs, source, cs, names, markdown);
    var rendered := Render(fs, cs, template, default, markdown, apply);
    if rendered.Err? {
      return Err(rendered.error);
    }
    var written := WritePages(cs, rendered.value);
    TargetsCovered(source, cs, names, written);
    WrittenNames(source, cs, names, rendered.value, written);
    r := Ok(written);
  }
}
