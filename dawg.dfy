/** The entry points of lib/dawg.js: gathering the chapters of a directory,
    rendering them with the template, converting a directory to HTML files,
    and the state of the development server (its chapter list, its rendered
    pages and the resolution of a request to a response). */
module Dawg {
  import opened Wrappers
  import opened FileSystem
  import opened Utils
  import opened Chapters
  import opened Templating
  import Monitor

  /** The foreign functions the generator calls, never interpreted. */
  datatype Libraries = Libraries(
    makeHash: string -> string,                         // `utils.makeHash` (MD5)
    markdown: string -> string,                         // `marked`
    compress: string -> string,                         // `clean-css`
    apply: (string, string, string, string) -> string)  // a compiled template applied to
                                                         // (template, styling, chapter id, content)

  // ---------------------------------------------------------------------------
  // gather

  /** `gather(source)`: every entry of the directory listing with a supported
      extension becomes a chapter, in listing order, whose index is its
      position in the listing plus one (skipped entries counted). */
  method Gather(fs: FileSystem, source: Path, makeHash: string -> string) returns (r: Result<ChapterCollection>)
    ensures ReadDir(fs, source).Err? ==> r == Err(ReadDir(fs, source).error)
    ensures ReadDir(fs, source).Ok? ==>
      (r.Ok? <==> SupportedAreFiles(fs, ListingPaths(source, ReadDir(fs, source).value)))
    ensures r.Ok? ==>
      && ReadDir(fs, source).Ok? && fresh(r.value)
      && var paths := ListingPaths(source, ReadDir(fs, source).value);
         ListedChapters(r.value.items, paths, SupportedPositions(paths), makeHash)
  {
    var listing := ReadDir(fs, source);
    if listing.Err? {
      return Err(listing.error);
    }
    var paths := ListingPaths(source, listing.value);
    SupportedFlagsFiles(fs, paths);
    var coll := new ChapterCollection();
    var err := AddListed(coll, fs, paths, SupportedFlags(paths), makeHash);
    if err.Some? {
      return Err(err.value);
    }
    assert coll.items == coll.items[0..];
    r := Ok(coll);
  }

  // ---------------------------------------------------------------------------
  // render

  /** What `render` sees of each slot of the list: nothing for a falsy slot,
      else the chapter's id and what its `parse()` gives now. */
  function ParsedSlots(cs: seq<Chapter?>, fs: FileSystem, markdown: string -> string): (slots: seq<Slot>)
    reads set c: Chapter | c in cs
    ensures |slots| == |cs|
    ensures forall i :: 0 <= i < |cs| && cs[i] != null ==>
      slots[i] == Some((cs[i].id, cs[i].ParsedNow(fs, markdown)))
    ensures forall i :: 0 <= i < |cs| && cs[i] == null ==> slots[i] == None
  {
    seq(|cs|, i reads set c: Chapter | c in cs requires 0 <= i < |cs| =>
        if cs[i] == null then None else Some((cs[i].id, cs[i].ParsedNow(fs, markdown))))
  }

  /** Each (id, content) pair becomes the page the template renders for it. */
  function Pages(es: seq<(string, string)>, template: string, styling: string,
                 apply: (string, string, string, string) -> string): (ps: seq<(string, string)>)
    ensures |ps| == |es|
    ensures forall i :: 0 <= i < |es| ==> ps[i] == (es[i].0, apply(template, styling, es[i].0, es[i].1))
  {
    if |es| == 0 then []
    else
      var last := es[|es| - 1];
      Pages(es[..|es| - 1], template, styling, apply) + [(last.0, apply(template, styling, last.0, last.1))]
  }

  /** An object filled by assignments in order. */
  function ToMap(pairs: seq<(string, string)>): map<string, string>
  {
    if |pairs| == 0 then map[]
    else ToMap(pairs[..|pairs| - 1])[pairs[|pairs| - 1].0 := pairs[|pairs| - 1].1]
  }

  /** The object has exactly the assigned keys. */
  lemma {:induction false} ToMapKeys(pairs: seq<(string, string)>)
    ensures ToMap(pairs).Keys == set i | 0 <= i < |pairs| :: pairs[i].0
  {
    if |pairs| > 0 {
      var n := |pairs| - 1;
      ToMapKeys(pairs[..n]);
      assert (set i | 0 <= i < |pairs| :: pairs[i].0) == (set i | 0 <= i < n :: pairs[..n][i].0) + {pairs[n].0} by {
        forall i | 0 <= i < n ensures pairs[..n][i].0 == pairs[i].0 { }
      }
    }
  }

  /** A key holds the value of its last assignment. */
  lemma {:induction false} ToMapLast(pairs: seq<(string, string)>, i: nat)
    requires i < |pairs|
    requires forall j :: i < j < |pairs| ==> pairs[j].0 != pairs[i].0
    ensures pairs[i].0 in ToMap(pairs) && ToMap(pairs)[pairs[i].0] == pairs[i].1
  {
    var n := |pairs| - 1;
    if i < n {
      ToMapLast(pairs[..n], i);
    }
  }

  /** Rendering one more page assigns one more key. */
  lemma PagesSnoc(es: seq<(string, string)>, e: (string, string), template: string, styling: string,
                  apply: (string, string, string, string) -> string)
    ensures ToMap(Pages(es + [e], template, styling, apply))
      == ToMap(Pages(es, template, styling, apply))[e.0 := apply(template, styling, e.0, e.1)]
  {
    assert (es + [e])[..|es|] == es;
  }

  /** What `render` returns for the given slots, template and styling: the
      first chapter that cannot be parsed makes it fail; otherwise one page
      per chapter, keyed by chapter id. */
  function Rendered(slots: seq<Slot>, template: string, styling: string,
                    apply: (string, string, string, string) -> string): Result<map<string, string>>
  {
    match Entries(slots)
    case Err(e) => Err(e)
    case Ok(es) => Ok(ToMap(Pages(es, template, styling, apply)))
  }

  /** The keys of the entries are the ids of the non-falsy slots. */
  lemma {:induction false} EntriesKeys(slots: seq<Slot>)
    requires Entries(slots).Ok?
    ensures (set i | 0 <= i < |Entries(slots).value| :: Entries(slots).value[i].0)
      == set i | 0 <= i < |slots| && slots[i].Some? :: slots[i].value.0
  {
    if |slots| > 0 {
      var n := |slots| - 1;
      assert slots[..n + 1] == slots;
      assert Entries(slots[..n]).Ok?;
      EntriesKeys(slots[..n]);
      EntriesStep(slots, n);
      var es := Entries(slots[..n]).value;
      var all := Entries(slots).value;
      var extra: set<string> := if slots[n].Some? then {slots[n].value.0} else {};
      assert (set i | 0 <= i < |slots| && slots[i].Some? :: slots[i].value.0)
          == (set i | 0 <= i < n && slots[..n][i].Some? :: slots[..n][i].value.0) + extra by {
        forall i | 0 <= i < n ensures slots[..n][i] == slots[i] { }
      }
      if slots[n].Some? {
        assert all == es + [(slots[n].value.0, slots[n].value.1.value)];
        assert all[|es|].0 == slots[n].value.0;
        assert (set i | 0 <= i < |all| :: all[i].0) == (set i | 0 <= i < |es| :: es[i].0) + extra by {
          forall i | 0 <= i < |es| ensures all[i] == es[i] { }
        }
      } else {
        assert all == es;
      }
    }
  }

  /** A successful render has exactly one page per non-falsy chapter, keyed by
      its id, and no other key. */
  lemma RenderedKeys(slots: seq<Slot>, template: string, styling: string,
                     apply: (string, string, string, string) -> string)
    requires Rendered(slots, template, styling, apply).Ok?
    ensures Rendered(slots, template, styling, apply).value.Keys
      == set i | 0 <= i < |slots| && slots[i].Some? :: slots[i].value.0
  {
    var es := Entries(slots).value;
    var ps := Pages(es, template, styling, apply);
    ToMapKeys(ps);
    EntriesKeys(slots);
    assert (set i | 0 <= i < |ps| :: ps[i].0) == (set i | 0 <= i < |es| :: es[i].0) by {
      forall i | 0 <= i < |es| ensures ps[i].0 == es[i].0 { }
    }
  }

  /** The `<style>` element wrapping the stylesheets. */
  function StylingTag(css: string): string
  {
    "<style type=\"text/css\" media=\"screen\">" + css + "</style>"
  }

  /** What `buildCSS(options.styles, options.dev, options.dev)` returns in
      the current state. */
  function RenderStyling(engine: Engine, fs: FileSystem, options: map<string, Value>, libs: Libraries): Result<string>
    reads engine`compiledStyling
  {
    var dev := Truthy(Get(options, "dev"));
    engine.StylingNow(fs, Get(options, "styles"), dev, dev, libs.compress)
  }

  /** What `render(chapters, options)` returns in the current state: the
      template (cached if any), the styling (from `options.styles`, rebuilt
      and uncompressed when `options.dev`), then one page per chapter. */
  function RenderNow(engine: Engine, fs: FileSystem, chapters: seq<Chapter?>, options: map<string, Value>,
                     libs: Libraries): Result<map<string, string>>
    reads engine`compiledTemplate, engine`compiledStyling, set c: Chapter | c in chapters
  {
    match engine.TemplateNow(fs, Get(options, "template"), false)
    case Err(e) => Err(e)
    case Ok(template) =>
      match RenderStyling(engine, fs, options, libs)
      case Err(e) => Err(e)
      case Ok(css) => Rendered(ParsedSlots(chapters, fs, libs.markdown), template, StylingTag(css), libs.apply)
  }

  /** The ids of the slots are the ids of the non-falsy chapters. */
  lemma ParsedSlotIds(cs: seq<Chapter?>, fs: FileSystem, markdown: string -> string)
    ensures var slots := ParsedSlots(cs, fs, markdown);
      (set i | 0 <= i < |slots| && slots[i].Some? :: slots[i].value.0) == set c: Chapter | c in cs :: c.id
  {
    var slots := ParsedSlots(cs, fs, markdown);
    forall c: Chapter | c in cs
      ensures c.id in set i | 0 <= i < |slots| && slots[i].Some? :: slots[i].value.0
    {
      var i :| 0 <= i < |cs| && cs[i] == c;
      assert slots[i].value.0 == c.id;
    }
  }

  /** What a chapter answers now: `parse()`, `content()`, and its two title
      caches. */
  ghost function Answers(c: Chapter, fs: FileSystem, markdown: string -> string)
    : (Result<string>, Result<string>, Option<string>, Option<string>)
    reads c
  {
    (c.ParsedNow(fs, markdown), c.CurrentContent(fs, false), c.title, c.filenameTitle)
  }

  /** What parsing leaves of a chapter: `parse()` and `content()` answer as
      they did, and the title caches are untouched. */
  twostate predicate Kept(c: Chapter, fs: FileSystem, markdown: string -> string)
    reads c
  {
    Answers(c, fs, markdown) == old(Answers(c, fs, markdown))
  }

  /** The loop of `render`: parses each non-falsy chapter in order and
      renders its page under its id; the first chapter that cannot be parsed
      makes it fail. */
  method RenderPages(chapters: seq<Chapter?>, fs: FileSystem, template: string, styling: string, libs: Libraries)
    returns (r: Result<map<string, string>>)
    modifies set c: Chapter | c in chapters
    ensures r == old(Rendered(ParsedSlots(chapters, fs, libs.markdown), template, styling, libs.apply))
    ensures r.Ok? ==> r.value.Keys == set c: Chapter | c in chapters :: c.id
    ensures forall c: Chapter :: c in chapters ==> Kept(c, fs, libs.markdown)
  {
    ghost var slots := ParsedSlots(chapters, fs, libs.markdown);
    ParsedSlotIds(chapters, fs, libs.markdown);
    var rendered: map<string, string> := map[];
    ghost var es: seq<(string, string)> := [];
    for i := 0 to |chapters|
      invariant forall c: Chapter :: c in chapters ==> Answers(c, fs, libs.markdown) == old(Answers(c, fs, libs.markdown))
      invariant Entries(slots[..i]) == Ok(es)
      invariant rendered == ToMap(Pages(es, template, styling, libs.apply))
    {
      EntriesStep(slots, i);
      var c := chapters[i];
      if c != null {
        assert slots[i] == Some((c.id, c.ParsedNow(fs, libs.markdown)));
        label Before:
        var content := c.Parse(fs, false, libs.markdown);
        assert Answers(c, fs, libs.markdown) == old@Before(Answers(c, fs, libs.markdown));
        assert forall d: Chapter :: d in chapters && d != c ==>
          Answers(d, fs, libs.markdown) == old@Before(Answers(d, fs, libs.markdown));
        if content.Err? {
          EntriesErrPrefix(slots, i + 1);
          assert Entries(slots) == Err(content.error);
          return Err(content.error);
        }
        PagesSnoc(es, (c.id, content.value), template, styling, libs.apply);
        rendered := rendered[c.id := libs.apply(template, styling, c.id, content.value)];
        es := es + [(c.id, content.value)];
      }
    }
    assert slots[..|chapters|] == slots;
    assert Entries(slots) == Ok(es);
    RenderedKeys(slots, template, styling, libs.apply);
    r := Ok(rendered);
  }

  /** `render(chapters, options)`: registers the chapter helpers for this list
      first, then compiles the template and builds the styling, then renders
      every chapter. */
  method Render(engine: Engine, fs: FileSystem, chapters: seq<Chapter?>, options: map<string, Value>, libs: Libraries)
    returns (r: Result<map<string, string>>)
    modifies engine, set c: Chapter | c in chapters
    ensures engine.helperChapters == Some(chapters)
    ensures r == old(RenderNow(engine, fs, chapters, options, libs))
    ensures r.Ok? ==> r.value.Keys == set c: Chapter | c in chapters :: c.id
    ensures Recached(engine, old(engine.TemplateNow(fs, Get(options, "template"), false)),
      old(RenderStyling(engine, fs, options, libs)))
    ensures forall c: Chapter :: c in chapters ==> Kept(c, fs, libs.markdown)
  {
    var dev := Truthy(Get(options, "dev"));
    ghost var slots := ParsedSlots(chapters, fs, libs.markdown);
    ghost var template0 := engine.TemplateNow(fs, Get(options, "template"), false);
    ghost var css0 := engine.StylingNow(fs, Get(options, "styles"), dev, dev, libs.compress);
    engine.RegisterChapterHelpers(chapters);
    var template := engine.CompileTemplate(fs, Get(options, "template"), false);
    assert template == template0;
    if template.Err? {
      return Err(template.error);
    }
    var css := engine.BuildCSS(fs, Get(options, "styles"), dev, dev, libs.compress);
    assert css == css0;
    if css.Err? {
      return Err(css.error);
    }
    assert ParsedSlots(chapters, fs, libs.markdown) == slots;
    r := RenderPages(chapters, fs, template.value, StylingTag(css.value), libs);
  }

  // ---------------------------------------------------------------------------
  // convert

  /** The file a rendered page is written to. */
  function TargetName(id: string): string
  {
    StripExtension(id) + ".html"
  }

  /** Ids without a '.' (such as hexadecimal hashes) keep their whole text. */
  lemma TargetOfPlainId(id: string)
    requires '.' !in id
    ensures TargetName(id) == id + ".html"
  {
    ExtnameNoDot(id);
  }

  /** The `for (original in rendered)` loop of `convert`: each page is written
      to its target name. When two ids share a target the later write wins;
      which one is later is not modelled. */
  method ConvertWrites(rendered: map<string, string>) returns (written: map<string, string>)
    ensures WrittenFrom(rendered, written)
  {
    written := map[];
    var todo := rendered.Keys;
    while todo != {}
      invariant todo <= rendered.Keys
      invariant written.Keys == set k | k in rendered && k !in todo :: TargetName(k)
      invariant forall t :: t in written ==> exists k :: k in rendered && k !in todo && TargetName(k) == t && written[t] == rendered[k]
      decreases todo
    {
      var k :| k in todo;
      written := written[TargetName(k) := rendered[k]];
      todo := todo - {k};
    }
  }

  /** `written` holds a file for each page's target, with the content of a
      page published there. */
  ghost predicate WrittenFrom(rendered: map<string, string>, written: map<string, string>)
  {
    && written.Keys == (set k | k in rendered :: TargetName(k))
    && forall t :: t in written ==> exists k :: k in rendered && TargetName(k) == t && written[t] == rendered[k]
  }

  /** When no id has a '.', as for hexadecimal hashes, each page is written
      to its id plus `.html`. */
  lemma PlainTargets(rendered: map<string, string>, written: map<string, string>)
    requires WrittenFrom(rendered, written)
    requires forall k :: k in rendered ==> '.' !in k
    ensures forall k :: k in rendered ==> k + ".html" in written && written[k + ".html"] == rendered[k]
  {
    forall k | k in rendered ensures k + ".html" in written && written[k + ".html"] == rendered[k] {
      TargetOfPlainId(k);
      var k' :| k' in rendered && TargetName(k') == k + ".html" && written[k + ".html"] == rendered[k'];
      TargetOfPlainId(k');
      assert k' == (k' + ".html")[..|k'|];
    }
  }

  /** The chapters gathered from a listing carry, for each supported entry,
      the hash of its name without extension as their id. */
  lemma GatheredIds(cs: seq<Chapter>, source: Path, listing: seq<string>, makeHash: string -> string)
    requires var paths := ListingPaths(source, listing);
      && |cs| == |SupportedPositions(paths)|
      && forall j :: 0 <= j < |cs| ==> ListedChapter(cs[j], paths, SupportedPositions(paths)[j], makeHash)
    ensures forall name :: name in listing && IsSupported(name) ==>
      makeHash(StripExtension(name)) in set c: Chapter | c in cs :: c.id
  {
    var paths := ListingPaths(source, listing);
    var ps := SupportedPositions(paths);
    SupportedPositionsOrdered(paths);
    forall name | name in listing && IsSupported(name)
      ensures makeHash(StripExtension(name)) in set c: Chapter | c in cs :: c.id
    {
      var i :| 0 <= i < |listing| && listing[i] == name;
      assert Basename(paths[i]) == name;
      var j :| 0 <= j < |ps| && ps[j] == i;
      assert Named(cs[j], paths[i], makeHash);
      assert cs[j].id == makeHash(StripExtension(name));
    }
  }

  /** The markdown of a file's text, or the error reading it. */
  function FileMarkdown(fs: FileSystem, p: Path, markdown: string -> string): Result<string>
  {
    match ReadFile(fs, p)
    case Ok(text) => Ok(markdown(text))
    case Err(e) => Err(e)
  }

  /** The slots `render` sees for the chapters just gathered from `paths`,
      none of which has cached anything: one per supported entry, in order,
      under the hash of its stripped name, with the markdown of its file. */
  ghost function GatheredSlots(fs: FileSystem, paths: seq<Path>, libs: Libraries): (slots: seq<Slot>)
    ensures |slots| == |SupportedPositions(paths)|
  {
    var ps := SupportedPositions(paths);
    seq(|ps|, j requires 0 <= j < |ps| =>
      Some((libs.makeHash(StripExtension(Basename(paths[ps[j]]))), FileMarkdown(fs, paths[ps[j]], libs.markdown))))
  }

  /** Freshly gathered chapters parse to the markdown of their files. */
  lemma GatheredParsed(cs: seq<Chapter>, fs: FileSystem, paths: seq<Path>, libs: Libraries)
    requires |cs| == |SupportedPositions(paths)|
    requires forall j :: 0 <= j < |cs| ==> ListedChapter(cs[j], paths, SupportedPositions(paths)[j], libs.makeHash)
    ensures ParsedSlots(cs, fs, libs.markdown) == GatheredSlots(fs, paths, libs)
  {
    var slots := ParsedSlots(cs, fs, libs.markdown);
    var want := GatheredSlots(fs, paths, libs);
    forall j | 0 <= j < |cs| ensures slots[j] == want[j] {
      var c := cs[j];
      assert Named(c, paths[SupportedPositions(paths)[j]], libs.makeHash) && Pristine(c);
    }
  }

  /** When every supported entry is a file, every gathered chapter can be
      parsed, so rendering them does not fail. */
  lemma GatheredReadable(fs: FileSystem, paths: seq<Path>, libs: Libraries)
    requires SupportedAreFiles(fs, paths)
    ensures Entries(GatheredSlots(fs, paths, libs)).Ok?
  {
    var slots := GatheredSlots(fs, paths, libs);
    var ps := SupportedPositions(paths);
    SupportedPositionsOrdered(paths);
    forall j | 0 <= j < |slots| && slots[j].Some? ensures slots[j].value.1.Ok? {
      var p := paths[ps[j]];
      assert IsSupported(Basename(p));
      assert IsFile(fs, p);
      assert ReadFile(fs, p).Ok?;
      assert slots[j].value.1 == FileMarkdown(fs, p, libs.markdown);
    }
    EntriesAllReadable(slots);
  }

  /** The ids of the gathered slots are the hashes of the stripped names of
      the supported entries of the listing. */
  lemma GatheredSlotIds(fs: FileSystem, source: Path, listing: seq<string>, libs: Libraries)
    ensures var slots := GatheredSlots(fs, ListingPaths(source, listing), libs);
      (set j | 0 <= j < |slots| && slots[j].Some? :: slots[j].value.0)
        == set name | name in listing && IsSupported(name) :: libs.makeHash(StripExtension(name))
  {
    var paths := ListingPaths(source, listing);
    var slots := GatheredSlots(fs, paths, libs);
    var ps := SupportedPositions(paths);
    SupportedPositionsOrdered(paths);
    forall j | 0 <= j < |slots| && slots[j].Some?
      ensures slots[j].value.0 in set name | name in listing && IsSupported(name) :: libs.makeHash(StripExtension(name))
    {
      GatheredSlotId(fs, source, listing, libs, j);
    }
    forall name | name in listing && IsSupported(name)
      ensures libs.makeHash(StripExtension(name)) in set j | 0 <= j < |slots| && slots[j].Some? :: slots[j].value.0
    {
      var i :| 0 <= i < |listing| && listing[i] == name;
      assert Basename(paths[i]) == name;
      var j :| 0 <= j < |ps| && ps[j] == i;
      GatheredSlotId(fs, source, listing, libs, j);
    }
  }

  /** Gathered slot `j` is the entry at the `j`-th supported position. */
  lemma GatheredSlotId(fs: FileSystem, source: Path, listing: seq<string>, libs: Libraries, j: nat)
    requires j < |SupportedPositions(ListingPaths(source, listing))|
    ensures var ps := SupportedPositions(ListingPaths(source, listing));
      var slots := GatheredSlots(fs, ListingPaths(source, listing), libs);
      && ps[j] < |listing| && listing[ps[j]] in listing && IsSupported(listing[ps[j]])
      && slots[j].Some? && slots[j].value.0 == libs.makeHash(StripExtension(listing[ps[j]]))
  {
    var paths := ListingPaths(source, listing);
    var ps := SupportedPositions(paths);
    SupportedPositionsOrdered(paths);
    assert Basename(paths[ps[j]]) == listing[ps[j]];
  }

  /** Writing the pages rendered for a gathered listing gives one file for
      the target of each supported entry, and no other. */
  lemma ConvertedKeys(fs: FileSystem, source: Path, listing: seq<string>, libs: Libraries,
                      template: string, styling: string, written: map<string, string>)
    requires var pages := Rendered(GatheredSlots(fs, ListingPaths(source, listing), libs), template, styling, libs.apply);
      pages.Ok? && WrittenFrom(pages.value, written)
    ensures written.Keys == set name | name in listing && IsSupported(name) :: TargetName(libs.makeHash(StripExtension(name)))
  {
    var slots := GatheredSlots(fs, ListingPaths(source, listing), libs);
    var rendered := Rendered(slots, template, styling, libs.apply).value;
    RenderedKeys(slots, template, styling, libs.apply);
    GatheredSlotIds(fs, source, listing, libs);
    var ids := set name | name in listing && IsSupported(name) :: libs.makeHash(StripExtension(name));
    assert rendered.Keys == ids;
    assert written.Keys == set id | id in ids :: TargetName(id);
  }

  /** `convert(source, destination, options)`: gathers, renders and writes;
      the result is what is written, by file name. It fails exactly when the
      source cannot be listed, a supported entry is not a file, or the
      template or the styling cannot be built; otherwise one file is written
      for the target of each supported entry, and nothing else, holding the
      page rendered for an entry with that target. */
  method Convert(fs: FileSystem, source: Path, options: map<string, Value>, engine: Engine, libs: Libraries)
    returns (r: Result<map<string, string>>)
    modifies engine
    ensures ReadDir(fs, source).Err? ==> r == Err(ReadDir(fs, source).error)
    ensures ReadDir(fs, source).Ok? ==>
      var dev := Truthy(Get(options, "dev"));
      (r.Ok? <==>
        && SupportedAreFiles(fs, ListingPaths(source, ReadDir(fs, source).value))
        && old(engine.TemplateNow(fs, Get(options, "template"), false)).Ok?
        && old(engine.StylingNow(fs, Get(options, "styles"), dev, dev, libs.compress)).Ok?)
    ensures r.Ok? ==>
      && ReadDir(fs, source).Ok?
      && r.value.Keys == set name | name in ReadDir(fs, source).value && IsSupported(name) ::
        TargetName(libs.makeHash(StripExtension(name)))
    ensures r.Ok? ==>
      var dev := Truthy(Get(options, "dev"));
      var paths := ListingPaths(source, ReadDir(fs, source).value);
      var template := old(engine.TemplateNow(fs, Get(options, "template"), false));
      var css := old(engine.StylingNow(fs, Get(options, "styles"), dev, dev, libs.compress));
      var pages := Rendered(GatheredSlots(fs, paths, libs), template.value, StylingTag(css.value), libs.apply);
      template.Ok? && css.Ok? && pages.Ok? && WrittenFrom(pages.value, r.value)
  {
    ghost var dev := Truthy(Get(options, "dev"));
    ghost var template0 := engine.TemplateNow(fs, Get(options, "template"), false);
    ghost var css0 := engine.StylingNow(fs, Get(options, "styles"), dev, dev, libs.compress);
    var chapters := Gather(fs, source, libs.makeHash);
    if chapters.Err? {
      return Err(chapters.error);
    }
    var coll := chapters.value;
    ghost var paths := ListingPaths(source, fs[source].listing);
    GatheredParsed(coll.items, fs, paths, libs);
    GatheredReadable(fs, paths, libs);
    ghost var slots := GatheredSlots(fs, paths, libs);
    assert RenderNow(engine, fs, coll.items, options, libs)
      == if template0.Err? then Err(template0.error) else if css0.Err? then Err(css0.error)
         else Rendered(slots, template0.value, StylingTag(css0.value), libs.apply);
    var rendered := Render(engine, fs, coll.items, options, libs);
    if rendered.Err? {
      return Err(rendered.error);
    }
    var written := ConvertWrites(rendered.value);
    ConvertedKeys(fs, source, fs[source].listing, libs, template0.value, StylingTag(css0.value), written);
    r := Ok(written);
  }

  // ---------------------------------------------------------------------------
  // serve

  /** The options `serve` fills in. */
  function ServeDefaults(): map<string, Value>
  {
    map["port" := Num(5678), "host" := Str("127.0.0.1"), "watch" := Bool(true), "dev" := Bool(false)]
  }

  datatype Response = Response(status: nat, body: string)

  /** The chapter name of a request URL: one leading '/' removed. */
  function RequestName(url: string): (name: string)
    ensures |url| > 0 && url[0] == '/' ==> name == url[1..]
    ensures (|url| == 0 || url[0] != '/') ==> name == url
  {
    if |url| > 0 && url[0] == '/' then url[1..] else url
  }

  /** `cs` are chapters for the supported entries of `paths`, in order. */
  ghost predicate GatheredFrom(cs: seq<Chapter>, paths: seq<Path>, makeHash: string -> string)
  {
    var ps := SupportedPositions(paths);
    |cs| == |ps| && forall j :: 0 <= j < |cs| ==> Named(cs[j], paths[ps[j]], makeHash)
  }

  /** The closure state of `serve`: the options (defaulted in place), the
      chapter list and the rendered pages, which `updateChapters` replaces. */
  class Server {
    const source: Path
    const options: Dict
    const engine: Engine
    const libs: Libraries
    var chapters: ChapterCollection
    var rendered: map<string, string>

    constructor (source: Path, options: Dict, engine: Engine, libs: Libraries)
      ensures this.source == source && this.options == options && this.engine == engine && this.libs == libs
      ensures fresh(chapters) && chapters.items == [] && rendered == map[]
    {
      this.source := source;
      this.options := options;
      this.engine := engine;
      this.libs := libs;
      chapters := new ChapterCollection();
      rendered := map[];
    }

    /** Every chapter of the list has a rendered page. */
    ghost predicate Synced()
      reads this, chapters
    {
      forall c: Chapter :: c in chapters.items ==> c.id in rendered
    }

    /** The first two steps of `renderChapters()`: the template is compiled
        again (bypassing the cache in dev mode) and the styling rebuilt from
        `options.style`; the first failure is returned. */
    method Recompile(fs: FileSystem) returns (err: Option<Error>)
      modifies engine
      ensures var dev := Truthy(Get(options.props, "dev"));
        var template := old(engine.TemplateNow(fs, Get(options.props, "template"), dev));
        var css := old(engine.StylingNow(fs, Get(options.props, "style"), dev, dev, libs.compress));
        err == if template.Err? then Some(template.error) else if css.Err? then Some(css.error) else None
      ensures Recached(engine, old(engine.TemplateNow(fs, Get(options.props, "template"), Truthy(Get(options.props, "dev")))),
        old(engine.StylingNow(fs, Get(options.props, "style"), Truthy(Get(options.props, "dev")),
                              Truthy(Get(options.props, "dev")), libs.compress)))
      ensures engine.helperChapters == old(engine.helperChapters)
    {
      var dev := Truthy(Get(options.props, "dev"));
      var template := engine.CompileTemplate(fs, Get(options.props, "template"), dev);
      if template.Err? {
        return Some(template.error);
      }
      var css := engine.BuildCSS(fs, Get(options.props, "style"), dev, dev, libs.compress);
      if css.Err? {
        return Some(css.error);
      }
      err := None;
    }

    /** The last step of `renderChapters()`, `rendered = render(chapters,
        options)`: the pages are replaced only when the render succeeds. */
    method Rerender(fs: FileSystem) returns (err: Option<Error>)
      modifies engine, this`rendered, set c: Chapter | c in chapters.items
      ensures old(RenderNow(engine, fs, chapters.items, options.props, libs)).Err? ==>
        err == Some(old(RenderNow(engine, fs, chapters.items, options.props, libs)).error) && rendered == old(rendered)
      ensures old(RenderNow(engine, fs, chapters.items, options.props, libs)).Ok? ==>
        err.None? && rendered == old(RenderNow(engine, fs, chapters.items, options.props, libs)).value
      ensures err.None? ==> rendered.Keys == set c: Chapter | c in chapters.items :: c.id
      ensures Recached(engine, old(engine.TemplateNow(fs, Get(options.props, "template"), false)),
        old(RenderStyling(engine, fs, options.props, libs)))
      ensures forall c: Chapter :: c in chapters.items ==> Kept(c, fs, libs.markdown)
    {
      var pages := Render(engine, fs, chapters.items, options.props, libs);
      if pages.Err? {
        return Some(pages.error);
      }
      rendered := pages.value;
      err := None;
    }

    /** `renderChapters()`: recompile the template (bypassing the cache in
        dev mode), rebuild the styling from `options.style`, then render the
        current list with the options; the pages are replaced only when the
        render succeeds. */
    method RenderChapters(fs: FileSystem) returns (err: Option<Error>)
      modifies engine, this`rendered, set c: Chapter | c in chapters.items
      ensures err.Some? ==> rendered == old(rendered)
      ensures err.None? ==> rendered.Keys == set c: Chapter | c in chapters.items :: c.id
      ensures err.None? ==> Synced()
      ensures err.None? ==>
        && engine.compiledTemplate.Some? && engine.compiledStyling.Some?
        && Rendered(old(ParsedSlots(chapters.items, fs, libs.markdown)), engine.compiledTemplate.value,
                    StylingTag(engine.compiledStyling.value), libs.apply) == Ok(rendered)
      ensures var css := old(engine.StylingNow(fs, Get(options.props, "style"), false, false, libs.compress));
        err.None? && !Truthy(Get(options.props, "dev")) && css.Ok? && css.value != "" ==>
          engine.compiledStyling == Some(css.value)
      ensures forall c: Chapter :: c in chapters.items ==> Kept(c, fs, libs.markdown)
    {
      ghost var slots := ParsedSlots(chapters.items, fs, libs.markdown);
      err := Recompile(fs);
      if err.Some? {
        return;
      }
      assert ParsedSlots(chapters.items, fs, libs.markdown) == slots;
      ghost var template := engine.compiledTemplate.value;
      assert engine.TemplateNow(fs, Get(options.props, "template"), false) == Ok(template);
      ghost var css := RenderStyling(engine, fs, options.props, libs);
      err := Rerender(fs);
      if err.None? {
        assert css.Ok? && engine.compiledStyling == Some(css.value) && engine.compiledTemplate == Some(template);
        assert Rendered(slots, template, StylingTag(css.value), libs.apply) == Ok(rendered);
      }
    }

    /** `updateChapters()`: the list is replaced by a fresh `gather(source)`
        before rendering, so a failed render leaves the new list with the
        old pages; a failed gather changes nothing. */
    method UpdateChapters(fs: FileSystem) returns (err: Option<Error>)
      modifies this, engine
      ensures ReadDir(fs, source).Err? ==>
        err == Some(ReadDir(fs, source).error) && chapters == old(chapters) && rendered == old(rendered)
      ensures chapters != old(chapters) ==>
        && ReadDir(fs, source).Ok? && fresh(chapters)
        && GatheredFrom(chapters.items, ListingPaths(source, ReadDir(fs, source).value), libs.makeHash)
      ensures ReadDir(fs, source).Ok? ==>
        (chapters != old(chapters) <==> SupportedAreFiles(fs, ListingPaths(source, ReadDir(fs, source).value)))
      ensures chapters == old(chapters) ==> err.Some? && rendered == old(rendered)
      ensures err.None? ==> chapters != old(chapters) && Synced()
      ensures err.Some? ==> rendered == old(rendered)
      ensures err.None? ==>
        && ReadDir(fs, source).Ok? && engine.compiledTemplate.Some? && engine.compiledStyling.Some?
        && Rendered(GatheredSlots(fs, ListingPaths(source, ReadDir(fs, source).value), libs),
                    engine.compiledTemplate.value, StylingTag(engine.compiledStyling.value), libs.apply) == Ok(rendered)
    {
      var gathered := Gather(fs, source, libs.makeHash);
      if gathered.Err? {
        return Some(gathered.error);
      }
      chapters := gathered.value;
      ghost var paths := ListingPaths(source, fs[source].listing);
      assert GatheredFrom(chapters.items, paths, libs.makeHash);
      GatheredParsed(chapters.items, fs, paths, libs);
      err := RenderChapters(fs);
    }

    /** The chapter a request resolves to: by index 1 for the empty name,
        else by name. */
    function Requested(url: string): Option<Chapter>
      reads this, chapters, set c: Chapter | c in chapters.items :: c.options
    {
      var name := RequestName(url);
      if |name| > 0 then chapters.FindByName(name, libs.makeHash) else chapters.FindByIndex(1)
    }

    /** `handleRequest(request, response)`: 404 with `404 - Not Found` when
        no chapter matches, else 200 with the chapter's page; writing a
        missing page fails. */
    function HandleRequest(url: string): (r: Result<Response>)
      reads this, chapters, set c: Chapter | c in chapters.items :: c.options
      ensures r.Ok? ==> r.value.status == 200 || r.value.status == 404
      ensures |RequestName(url)| > 0 ==>
        (r == Ok(Response(404, "404 - Not Found")) <==>
          forall c: Chapter :: c in chapters.items ==> c.id != libs.makeHash(StripExtension(RequestName(url))))
      ensures |RequestName(url)| == 0 ==>
        (r == Ok(Response(404, "404 - Not Found")) <==>
          forall c: Chapter :: c in chapters.items ==> !LooseEqualsInt(c.Index(), 1))
      ensures r.Ok? && r.value.status == 200 ==>
        exists c: Chapter :: c in chapters.items && c.id in rendered && r.value.body == rendered[c.id]
          && (|RequestName(url)| > 0 ==> c.id == libs.makeHash(StripExtension(RequestName(url))))
          && (|RequestName(url)| == 0 ==> LooseEqualsInt(c.Index(), 1))
      ensures Synced() ==> r.Ok?
    {
      match Requested(url)
      case None => Ok(Response(404, "404 - Not Found"))
      case Some(c) => if c.id in rendered then Ok(Response(200, rendered[c.id])) else Err(WriteUndefined)
    }
  }

  /** `serve(source, options)`: fills the option defaults in place, does the
      first update, watches the source when `options.watch`, and fails in dev
      mode because `templating.watch` does not exist. */
  method Serve(fs: FileSystem, source: Path, options: Dict, engine: Engine, watchers: Monitor.Watchers,
               onChange: Monitor.Callback, libs: Libraries)
    returns (r: Result<Server>)
    requires watchers.Valid() && source != []
    modifies options, engine, watchers
    ensures options.props == WithDefaults(old(options.props), ServeDefaults())
    ensures watchers.Valid()
    ensures r.Ok? ==> fresh(r.value) && r.value.options == options && r.value.Synced()
    ensures r.Ok? ==> !Truthy(Get(options.props, "dev"))
    ensures r.Ok? && Truthy(Get(options.props, "watch")) ==>
      source in fs && watchers.State() == Monitor.Monitored(old(watchers.State()), fs[source].Dir?, source, onChange)
    ensures r.Ok? && !Truthy(Get(options.props, "watch")) ==> watchers.State() == old(watchers.State())
  {
    var opts := Defaults(options, ServeDefaults());
    var server := new Server(source, opts, engine, libs);
    var err := server.UpdateChapters(fs);
    if err.Some? {
      return Err(err.value);
    }
    if Truthy(Get(opts.props, "watch")) {
      // the source was just read as a directory, so watching it cannot fail
      var _ := watchers.Monitor(fs, source, onChange);
    }
    if Truthy(Get(opts.props, "dev")) {
      return Err(NotAFunction("templating.watch"));
    }
    r := Ok(server);
  }
}
