/** lib/templating.js: the process-wide caches of the compiled page template
    and of the stylesheet text, the rule that decides when they are rebuilt,
    the stylesheet concatenation format, and the `listChapters` / `listTOC`
    template helpers. `handlebars.compile` keeps the template text (rendering
    it is a parameter of the callers) and `clean-css` is the parameter
    `compress`. */
module Templating {
  import opened Wrappers
  import opened FileSystem
  import opened Utils
  import opened Chapters

  /** `TEMPLATE`: `template.html` in the template directory. */
  function DefaultTemplate(dir: Path): Path
  {
    JoinPath(dir, "template.html")
  }

  /** `STYLESHEETS`: the three default stylesheets, in this order. */
  function DefaultStylesheets(dir: Path): seq<Path>
  {
    [JoinPath(dir, "normalize.css"), JoinPath(dir, "style.css"), JoinPath(dir, "code.css")]
  }

  /** The template file `compileTemplate` reads: the given path when it is a
      truthy string naming an existing file, the default template otherwise. */
  function TemplateChoice(fs: FileSystem, template: Value, dir: Path): (p: Path)
    ensures template.Str? && Truthy(template) && IsFile(fs, ParsePath(template.s)) ==> p == ParsePath(template.s)
    ensures !(template.Str? && Truthy(template) && IsFile(fs, ParsePath(template.s))) ==> p == DefaultTemplate(dir)
  {
    if template.Str? && Truthy(template) && IsFile(fs, ParsePath(template.s)) then ParsePath(template.s)
    else DefaultTemplate(dir)
  }

  /** Whichever template is chosen, reading it fails only when the default
      template itself is missing. */
  lemma TemplateChoiceReadable(fs: FileSystem, template: Value, dir: Path)
    requires IsFile(fs, DefaultTemplate(dir))
    ensures ReadFile(fs, TemplateChoice(fs, template, dir)).Ok?
  {
  }

  /** `styles || STYLESHEETS` as `forEach` sees it: a falsy value gives the
      defaults, an array its paths, and any other value has no `forEach`. */
  function StylesheetList(styles: Value, dir: Path): (r: Result<seq<Path>>)
    ensures !Truthy(styles) ==> r == Ok(DefaultStylesheets(dir))
    ensures styles.StrList? ==> (r.Ok? && |r.value| == |styles.items|
      && forall i :: 0 <= i < |styles.items| ==> r.value[i] == ParsePath(styles.items[i]))
    ensures Truthy(styles) && !styles.StrList? ==> r.Err?
  {
    if !Truthy(styles) then Ok(DefaultStylesheets(dir))
    else if styles.StrList? then Ok(seq(|styles.items|, i requires 0 <= i < |styles.items| => ParsePath(styles.items[i])))
    else Err(NotAFunction("styles.forEach"))
  }

  /** What one stylesheet contributes: a comment naming it, its text and a
      blank line. */
  function StyleBlock(name: string, content: string): string
  {
    "/* " + name + "*/\n" + content + "\n\n"
  }

  /** The concatenation `buildCSS` accumulates: one block per path that is a
      file, in list order; other paths contribute nothing. */
  function Stylesheets(fs: FileSystem, paths: seq<Path>): string
  {
    if |paths| == 0 then ""
    else
      var p := paths[|paths| - 1];
      Stylesheets(fs, paths[..|paths| - 1])
        + (if IsFile(fs, p) then StyleBlock(Basename(p), fs[p].content) else "")
  }

  /** The concatenation of two lists is the concatenation of their texts. */
  lemma {:induction false} StylesheetsAppend(fs: FileSystem, a: seq<Path>, b: seq<Path>)
    ensures Stylesheets(fs, a + b) == Stylesheets(fs, a) + Stylesheets(fs, b)
    decreases |b|
  {
    if |b| == 0 {
      assert a + b == a;
    } else {
      assert (a + b)[..|a + b| - 1] == a + b[..|b| - 1];
      StylesheetsAppend(fs, a, b[..|b| - 1]);
    }
  }

  /** A list with no existing file yields no text at all. */
  lemma {:induction false} StylesheetsNoFiles(fs: FileSystem, paths: seq<Path>)
    requires forall i :: 0 <= i < |paths| ==> !IsFile(fs, paths[i])
    ensures Stylesheets(fs, paths) == ""
    decreases |paths|
  {
    if |paths| > 0 {
      StylesheetsNoFiles(fs, paths[..|paths| - 1]);
    }
  }

  /** A stylesheet followed by a path that is not a file yields exactly that
      stylesheet's block. */
  lemma OneStylesheet(fs: FileSystem, p: Path, q: Path)
    requires IsFile(fs, p) && !IsFile(fs, q)
    ensures Stylesheets(fs, [p, q]) == StyleBlock(Basename(p), fs[p].content)
  {
    assert [p, q][..1] == [p];
    assert [p][..0] == [];
    assert Stylesheets(fs, [p]) == StyleBlock(Basename(p), fs[p].content);
  }

  /** The `<h1>` line, present only for a truthy heading, and the list's
      opening tag. */
  function HeadLines(heading: Value): seq<string>
  {
    (if Truthy(heading) then ["<h1>" + ToStr(heading) + "</h1>"] else []) + ["<ol class=\"chapters\">"]
  }

  /** One list entry linking to `href` with the text `title`. */
  function EntryLine(href: string, title: string): string
  {
    "<li><a href=\"" + href + "\">" + title + "</a></li>"
  }

  function EntryLines(entries: seq<(string, string)>): (lines: seq<string>)
    ensures |lines| == |entries|
  {
    if |entries| == 0 then []
    else
      var e := entries[|entries| - 1];
      EntryLines(entries[..|entries| - 1]) + [EntryLine(e.0, e.1)]
  }

  /** The lines of the `listChapters` output for the given (file name, title)
      entries. */
  function ListLines(heading: Value, entries: seq<(string, string)>): seq<string>
  {
    HeadLines(heading) + EntryLines(entries) + ["</ol>"]
  }

  /** One more entry adds one more line at the end. */
  lemma EntryLinesSnoc(heading: Value, entries: seq<(string, string)>, e: (string, string))
    ensures HeadLines(heading) + EntryLines(entries + [e])
      == (HeadLines(heading) + EntryLines(entries)) + [EntryLine(e.0, e.1)]
  {
    assert (entries + [e])[..|entries|] == entries;
  }

  /** The `listChapters` output: its lines joined with '\n'. */
  function ChapterListHtml(heading: Value, entries: seq<(string, string)>): string
  {
    Join(ListLines(heading, entries), "\n")
  }

  /** Entry `k` is line `k` of the entry lines: entries keep their order. */
  lemma {:induction false} EntryLinesAt(entries: seq<(string, string)>, k: nat)
    requires k < |entries|
    ensures EntryLines(entries)[k] == EntryLine(entries[k].0, entries[k].1)
    decreases |entries|
  {
    if k < |entries| - 1 {
      EntryLinesAt(entries[..|entries| - 1], k);
    }
  }

  /** The shape of the list: an `<h1>` line exactly for a truthy heading,
      the opening tag, one line per entry in order, the closing tag. */
  lemma ListLinesShape(heading: Value, entries: seq<(string, string)>)
    ensures var lines := ListLines(heading, entries);
      var off := if Truthy(heading) then 2 else 1;
      && |lines| == |entries| + off + 1
      && (Truthy(heading) ==> lines[0] == "<h1>" + ToStr(heading) + "</h1>")
      && lines[off - 1] == "<ol class=\"chapters\">"
      && lines[|lines| - 1] == "</ol>"
      && forall k :: 0 <= k < |entries| ==> lines[off + k] == EntryLine(entries[k].0, entries[k].1)
  {
    forall k | 0 <= k < |entries| ensures EntryLines(entries)[k] == EntryLine(entries[k].0, entries[k].1) {
      EntryLinesAt(entries, k);
    }
  }

  lemma NoNewlineConcat(a: string, b: string)
    requires '\n' !in a && '\n' !in b
    ensures '\n' !in a + b
  {
    forall k | 0 <= k < |a + b| ensures (a + b)[k] != '\n' {
      if k < |a| {
        assert (a + b)[k] == a[k] && a[k] in a;
      } else {
        assert (a + b)[k] == b[k - |a|] && b[k - |a|] in b;
      }
    }
  }

  lemma NoNewlineEntryLine(href: string, title: string)
    requires '\n' !in href && '\n' !in title
    ensures '\n' !in EntryLine(href, title)
  {
    NoNewlineConcat("<li><a href=\"", href);
    NoNewlineConcat("<li><a href=\"" + href, "\">");
    NoNewlineConcat("<li><a href=\"" + href + "\">", title);
    NoNewlineConcat("<li><a href=\"" + href + "\">" + title, "</a></li>");
  }

  lemma NoNewlineEntryLines(entries: seq<(string, string)>)
    requires forall k :: 0 <= k < |entries| ==> '\n' !in entries[k].0 && '\n' !in entries[k].1
    ensures forall k :: 0 <= k < |entries| ==> '\n' !in EntryLines(entries)[k]
  {
    forall k | 0 <= k < |entries| ensures '\n' !in EntryLines(entries)[k] {
      EntryLinesAt(entries, k);
      NoNewlineEntryLine(entries[k].0, entries[k].1);
    }
  }

  /** When no file name, title or heading contains a line break, splitting
      the output on '\n' gives back exactly its lines. */
  lemma ChapterListSplit(heading: Value, entries: seq<(string, string)>)
    requires '\n' !in ToStr(heading)
    requires forall k :: 0 <= k < |entries| ==> '\n' !in entries[k].0 && '\n' !in entries[k].1
    ensures Split(ChapterListHtml(heading, entries), '\n') == ListLines(heading, entries)
  {
    var lines := ListLines(heading, entries);
    NoNewlineEntryLines(entries);
    if Truthy(heading) {
      NoNewlineConcat("<h1>", ToStr(heading));
      NoNewlineConcat("<h1>" + ToStr(heading), "</h1>");
    }
    var head := HeadLines(heading);
    var body := EntryLines(entries);
    forall i | 0 <= i < |lines| ensures '\n' !in lines[i] {
      if i < |head| {
        assert lines[i] == head[i];
      } else if i < |head| + |body| {
        assert lines[i] == body[i - |head|];
      }
    }
    assert "\n" == ['\n'];
    SplitJoin(lines, '\n');
  }

  /** `listTOC(chapter)`: an empty table of contents, whatever the chapter. */
  function ListTOC(chapter: Value): (html: string)
    ensures html == "<ul class=\"toc\"></ul>"
  {
    "<ul class=\"toc\"></ul>"
  }

  /** What `listChapters` sees of one slot of its chapter list: nothing for a
      `null` slot, else the chapter's file name and the outcome of reading
      its title. */
  type Slot = Option<(string, Result<string>)>

  /** The text `'...' + chapter.title + '...'` concatenates: `null` for a
      missing title. */
  function TitleText(t: Option<string>): (text: string)
    ensures t.Some? ==> text == t.value
    ensures t.None? ==> text == "null"
  {
    if t.Some? then t.value else "null"
  }

  /** The outcome of reading a title, as the text printed for it. */
  function TitleResult(t: Result<Option<string>>): (r: Result<string>)
    ensures t.Err? <==> r.Err?
    ensures t.Err? ==> r.error == t.error
    ensures t.Ok? ==> r.value == TitleText(t.value)
  {
    match t
    case Ok(o) => Ok(TitleText(o))
    case Err(e) => Err(e)
  }

  /** The slots of a chapter list in the current state: each chapter is
      read through the `title` getter as written. */
  function Slots(cs: seq<Chapter?>, fs: FileSystem): (slots: seq<Slot>)
    reads set c: Chapter | c in cs
    reads set c: Chapter | c in cs :: c.options
    ensures |slots| == |cs|
    ensures forall i :: 0 <= i < |cs| && cs[i] != null ==>
      slots[i] == Some((cs[i].filename, TitleResult(cs[i].TitleNow(fs))))
    ensures forall i :: 0 <= i < |cs| && cs[i] == null ==> slots[i] == None
  {
    seq(|cs|, i reads set c: Chapter | c in cs, set c: Chapter | c in cs :: c.options
              requires 0 <= i < |cs| =>
        if cs[i] == null then None else Some((cs[i].filename, TitleResult(cs[i].TitleNow(fs)))))
  }

  /** The (file name, title) entries `listChapters` prints: `null` slots are
      skipped, and the first title that cannot be read makes the whole
      helper fail. */
  function Entries(slots: seq<Slot>): (r: Result<seq<(string, string)>>)
    ensures r.Ok? ==> |r.value| <= |slots|
  {
    if |slots| == 0 then Ok([])
    else
      match Entries(slots[..|slots| - 1])
      case Err(e) => Err(e)
      case Ok(es) =>
        match slots[|slots| - 1]
        case None => Ok(es)
        case Some((name, title)) =>
          match title
          case Err(e) => Err(e)
          case Ok(t) => Ok(es + [(name, t)])
  }

  /** Extending a readable prefix by one slot. */
  lemma EntriesStep(slots: seq<Slot>, i: nat)
    requires i < |slots| && Entries(slots[..i]).Ok?
    ensures slots[i] == None ==> Entries(slots[..i + 1]) == Entries(slots[..i])
    ensures slots[i].Some? && slots[i].value.1.Err? ==>
      Entries(slots[..i + 1]) == Err(slots[i].value.1.error)
    ensures slots[i].Some? && slots[i].value.1.Ok? ==>
      Entries(slots[..i + 1]) == Ok(Entries(slots[..i]).value + [(slots[i].value.0, slots[i].value.1.value)])
  {
    assert slots[..i + 1][..i] == slots[..i];
  }

  /** Once a prefix fails, the whole list fails with the same error. */
  lemma {:induction false} EntriesErrPrefix(slots: seq<Slot>, k: nat)
    requires k <= |slots| && Entries(slots[..k]).Err?
    ensures Entries(slots) == Entries(slots[..k])
    decreases |slots| - k
  {
    if k < |slots| {
      assert slots[..k + 1][..k] == slots[..k];
      EntriesErrPrefix(slots, k + 1);
    } else {
      assert slots[..k] == slots;
    }
  }

  /** The (file name, title) pairs of the non-null slots whose title can be
      read, in order. */
  function Present(slots: seq<Slot>): seq<(string, string)>
  {
    if |slots| == 0 then []
    else
      var last := slots[|slots| - 1];
      Present(slots[..|slots| - 1])
      + if last.Some? && last.value.1.Ok? then [(last.value.0, last.value.1.value)] else []
  }

  /** When every title can be read, the entries are exactly the non-null
      slots' file names and titles, in order. */
  lemma {:induction false} EntriesAllReadable(slots: seq<Slot>)
    requires forall i :: 0 <= i < |slots| && slots[i].Some? ==> slots[i].value.1.Ok?
    ensures Entries(slots) == Ok(Present(slots))
    decreases |slots|
  {
    if |slots| > 0 {
      var init, last := slots[..|slots| - 1], slots[|slots| - 1];
      EntriesAllReadable(init);
      assert slots[..|slots| - 1] == init;
      if last.Some? {
        assert last.value.1.Ok?;
        assert Present(slots) == Present(init) + [(last.value.0, last.value.1.value)];
      } else {
        assert Present(slots) == Present(init) + [] == Present(init);
      }
    }
  }

  /** A list with no `null` slot and only readable titles has one entry per
      slot, and entry `k` comes from slot `k`. */
  lemma {:induction false} PresentAll(slots: seq<Slot>)
    requires forall i :: 0 <= i < |slots| ==> slots[i].Some? && slots[i].value.1.Ok?
    ensures |Present(slots)| == |slots|
    ensures forall k :: 0 <= k < |slots| ==> Present(slots)[k] == (slots[k].value.0, slots[k].value.1.value)
    decreases |slots|
  {
    if |slots| > 0 {
      PresentAll(slots[..|slots| - 1]);
    }
  }

  /** The loop of `buildCSS`: the block of each listed stylesheet that is a
      file, in list order. */
  method ConcatStylesheets(fs: FileSystem, paths: seq<Path>) returns (css: string)
    ensures css == Stylesheets(fs, paths)
  {
    css := "";
    for i := 0 to |paths|
      invariant css == Stylesheets(fs, paths[..i])
    {
      assert paths[..i + 1][..i] == paths[..i];
      var p := paths[i];
      if IsFile(fs, p) {
        var style := fs[p].content;
        css := css + StyleBlock(Basename(p), style);
      }
    }
    assert paths[..|paths|] == paths;
  }

  /** The module state of lib/templating.js. */
  /** What a chapter answers now: `content()`, the `_parsed` cache (so
      `parse()` answers the same) and the `title` getter. */
  ghost function TitleAnswers(c: Chapter, fs: FileSystem): (Result<string>, Option<string>, Result<Option<string>>)
    reads c, c.options
  {
    (c.CurrentContent(fs, false), c.parsed, c.TitleNow(fs))
  }

  /** The caches after compiling the template with result `template` and
      then, when that succeeded, building the styling with result `css`:
      each holds what was built, or keeps its value. */
  twostate predicate Recached(engine: Engine, template: Result<string>, css: Result<string>)
    reads engine
  {
    && engine.compiledTemplate == (if template.Ok? then Some(template.value) else old(engine.compiledTemplate))
    && engine.compiledStyling == (if template.Ok? && css.Ok? then Some(css.value) else old(engine.compiledStyling))
  }

  class Engine {
    const templateDir: Path                        // `TEMPLATE_PATH`
    var compiledTemplate: Option<string>           // `_compiledTemplate`
    var compiledStyling: Option<string>            // `_compiledStyling`
    var helperChapters: Option<seq<Chapter?>>      // the list the registered helpers close over

    constructor (templateDir: Path)
      ensures this.templateDir == templateDir
      ensures compiledTemplate == None && compiledStyling == None && helperChapters == None
    {
      this.templateDir := templateDir;
      compiledTemplate, compiledStyling, helperChapters := None, None, None;
    }

    /** What `compileTemplate(template, uncached)` returns in the current state. */
    function TemplateNow(fs: FileSystem, template: Value, uncached: bool): Result<string>
      reads `compiledTemplate
    {
      if !uncached && compiledTemplate.Some? then Ok(compiledTemplate.value)
      else ReadFile(fs, TemplateChoice(fs, template, templateDir))
    }

    /** What `buildCSS(styles, uncompressed, uncached)` returns in the current state. */
    function StylingNow(fs: FileSystem, styles: Value, uncompressed: bool, uncached: bool, compress: string -> string)
      : Result<string>
      reads `compiledStyling
    {
      if !uncached && compiledStyling.Some? && compiledStyling.value != "" then Ok(compiledStyling.value)
      else match StylesheetList(styles, templateDir)
        case Err(e) => Err(e)
        case Ok(paths) =>
          var css := Stylesheets(fs, paths);
          Ok(if uncompressed then css else compress(css))
    }

    /** `compileTemplate(template, uncached)`: the cached template unless
        nothing is cached or `uncached` is set; otherwise the chosen file is
        read and becomes the cache. */
    method CompileTemplate(fs: FileSystem, template: Value, uncached: bool) returns (r: Result<string>)
      modifies this
      ensures !uncached && old(compiledTemplate).Some? ==>
        r == Ok(old(compiledTemplate).value) && compiledTemplate == old(compiledTemplate)
      ensures uncached || old(compiledTemplate).None? ==>
        r == ReadFile(fs, TemplateChoice(fs, template, templateDir))
        && compiledTemplate == (if r.Ok? then Some(r.value) else old(compiledTemplate))
      ensures compiledStyling == old(compiledStyling) && helperChapters == old(helperChapters)
      ensures r == old(TemplateNow(fs, template, uncached))
    {
      if compiledTemplate.None? || uncached {
        var chosen := TemplateChoice(fs, template, templateDir);
        var content := ReadFile(fs, chosen);
        if content.Err? {
          return content;
        }
        compiledTemplate := Some(content.value);
      }
      r := Ok(compiledTemplate.value);
    }

    /** `buildCSS(styles, uncompressed, uncached)`: rebuilt when nothing (or
        the empty string, which is falsy) is cached or `uncached` is set;
        the rebuilt text is compressed unless `uncompressed` and becomes the
        cache. A usable cache is returned whatever `styles` is. */
    method BuildCSS(fs: FileSystem, styles: Value, uncompressed: bool, uncached: bool, compress: string -> string)
      returns (r: Result<string>)
      modifies this
      ensures !uncached && old(compiledStyling).Some? && old(compiledStyling).value != "" ==>
        r == Ok(old(compiledStyling).value) && compiledStyling == old(compiledStyling)
      ensures uncached || old(compiledStyling).None? || old(compiledStyling) == Some("") ==>
        match StylesheetList(styles, templateDir)
        case Err(e) => r == Err(e) && compiledStyling == old(compiledStyling)
        case Ok(paths) =>
          var css := Stylesheets(fs, paths);
          r == Ok(if uncompressed then css else compress(css)) && compiledStyling == Some(r.value)
      ensures compiledTemplate == old(compiledTemplate) && helperChapters == old(helperChapters)
      ensures r == old(StylingNow(fs, styles, uncompressed, uncached, compress))
    {
      if compiledStyling.None? || compiledStyling.value == "" || uncached {
        var list := StylesheetList(styles, templateDir);
        if list.Err? {
          return Err(list.error);
        }
        var css := ConcatStylesheets(fs, list.value);
        if !uncompressed {
          css := compress(css);
        }
        compiledStyling := Some(css);
      }
      r := Ok(compiledStyling.value);
    }

    /** `registerChapterHelpers(chapters)`: the helpers now list `chapters`. */
    method RegisterChapterHelpers(chapters: seq<Chapter?>)
      modifies this
      ensures helperChapters == Some(chapters)
      ensures compiledTemplate == old(compiledTemplate) && compiledStyling == old(compiledStyling)
    {
      helperChapters := Some(chapters);
    }

    /** The `listChapters(title)` helper: one entry per chapter of the
        registered list, in order, linking to its file name with the text of
        its `title` getter; asking for the titles does not change them. */
    method ListChapters(fs: FileSystem, heading: Value) returns (r: Result<string>)
      requires helperChapters.Some?
      modifies set c: Chapter | c in helperChapters.value
      ensures forall c: Chapter :: c in helperChapters.value ==> TitleAnswers(c, fs) == old(TitleAnswers(c, fs))
      ensures forall c: Chapter :: c in helperChapters.value ==> c.TitleNow(fs) == old(c.TitleNow(fs))
      ensures Entries(old(Slots(helperChapters.value, fs))).Ok? ==>
        r == Ok(ChapterListHtml(heading, Entries(old(Slots(helperChapters.value, fs))).value))
      ensures Entries(old(Slots(helperChapters.value, fs))).Err? ==>
        r == Err(Entries(old(Slots(helperChapters.value, fs))).error)
    {
      var cs := helperChapters.value;
      ghost var slots := Slots(cs, fs);
      var lines := HeadLines(heading);
      ghost var es: seq<(string, string)> := [];
      for i := 0 to |cs|
        invariant helperChapters == old(helperChapters)
        invariant forall c: Chapter :: c in cs ==> TitleAnswers(c, fs) == old(TitleAnswers(c, fs))
        invariant Entries(slots[..i]) == Ok(es)
        invariant lines == HeadLines(heading) + EntryLines(es)
      {
        EntriesStep(slots, i);
        var c := cs[i];
        if c != null {
          assert slots[i] == Some((c.filename, TitleResult(c.TitleNow(fs))));
          label Before:
          var t := c.Title(fs);
          assert TitleAnswers(c, fs) == old@Before(TitleAnswers(c, fs));
          assert forall d: Chapter :: d in cs && d != c ==> TitleAnswers(d, fs) == old@Before(TitleAnswers(d, fs));
          if t.Err? {
            EntriesErrPrefix(slots, i + 1);
            assert Entries(slots) == Err(t.error);
            return Err(t.error);
          }
          var entry := (c.filename, TitleText(t.value));
          EntryLinesSnoc(heading, es, entry);
          lines := lines + [EntryLine(entry.0, entry.1)];
          es := es + [entry];
        }
      }
      assert slots[..|cs|] == slots;
      assert Entries(slots) == Ok(es);
      r := Ok(Join(lines + ["</ol>"], "\n"));
    }
  }
}
