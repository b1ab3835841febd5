/** lib/chapter.js: a Chapter is one markdown file on disk, with its name, its
    id (the hash of the name), its options and three lazy caches; a
    ChapterCollection is an ordered list of chapters with lookups by name and
    by index; `find` turns a source path into a collection. */
module Chapters {
  import opened Wrappers
  import opened FileSystem
  import opened Utils

  /** `supported.indexOf(path.extname(filename).substr(1)) >= 0` with the
      supported extensions `markdown`, `mdown` and `md`: an `extname` is
      empty or starts with its dot, so this compares it with the dotted
      forms, and agrees with the source's own test on the undotted text. */
  predicate IsSupported(filename: string): (b: bool)
    ensures b <==> Extname(filename) != "" && Extname(filename)[1..] in ["markdown", "mdown", "md"]
  {
    var ext := Extname(filename);
    if ext == "" then false
    else
      assert ext == "." + ext[1..];
      SupportedDotted(ext[1..]);
      SupportedExtname(ext)
  }

  predicate SupportedExtname(ext: string)
  {
    ext == ".markdown" || ext == ".mdown" || ext == ".md"
  }

  /** A plain name `stem.ext` is a chapter exactly when `ext` is one of the
      supported extensions. */
  lemma SupportedName(stem: string, ext: string)
    requires stem != "" && '/' !in stem && '/' !in ext && '.' !in ext
    ensures IsSupported(stem + "." + ext) <==> ext == "markdown" || ext == "mdown" || ext == "md"
  {
    ExtnameOfName(stem, ext);
    SupportedDotted(ext);
  }

  lemma SupportedDotted(ext: string)
    ensures SupportedExtname("." + ext) <==> ext == "markdown" || ext == "mdown" || ext == "md"
  {
    DotPrefix(ext, "md");
    DotPrefix(ext, "mdown");
    DotPrefix(ext, "markdown");
  }

  lemma DotPrefix(a: string, b: string)
    ensures "." + a == "." + b <==> a == b
  {
    if "." + a == "." + b {
      assert a == ("." + a)[1..];
    }
  }

  /** A name without a '.' is never a chapter. */
  lemma UnsupportedWithoutDot(name: string)
    requires '.' !in name
    ensures !IsSupported(name)
  {
    ExtnameNoDot(name);
  }

  // ---------------------------------------------------------------------------
  // Titles

  predicate IsDigit(c: char) { '0' <= c <= '9' }

  /** Length of the leading run of digits of `s` from `i`. */
  function DigitRun(s: string): (n: nat)
    ensures n <= |s|
    ensures forall i :: 0 <= i < n ==> IsDigit(s[i])
    ensures n < |s| ==> !IsDigit(s[n])
  {
    if |s| == 0 || !IsDigit(s[0]) then 0 else 1 + DigitRun(s[1..])
  }

  /** `filenameTitle(filename)`: the name without its extension, and without
      one leading `[0-9]*-` prefix when it has one. */
  function FilenameTitle(filename: string): (t: string)
    ensures var n := StripExtension(filename);
      |t| <= |n| && t == n[|n| - |t|..]
    ensures var n := StripExtension(filename); var k := |n| - |t|;
      k == 0 || (n[k - 1] == '-' && forall i :: 0 <= i < k - 1 ==> IsDigit(n[i]))
  {
    var title := StripExtension(filename);
    var d := DigitRun(title);
    if d < |title| && title[d] == '-' then title[d + 1..] else title
  }

  lemma {:induction false} DigitRunOf(digits: string, rest: string)
    requires forall i :: 0 <= i < |digits| ==> IsDigit(digits[i])
    ensures DigitRun(digits + "-" + rest) == |digits|
  {
    if |digits| > 0 {
      assert (digits + "-" + rest)[1..] == digits[1..] + "-" + rest;
      DigitRunOf(digits[1..], rest);
    }
  }

  /** `01-intro.md` is titled `intro`; exactly one numbered prefix goes, so
      `01-02-x.md` is titled `02-x`. */
  lemma FilenameTitleNumbered(digits: string, rest: string, ext: string)
    requires forall i :: 0 <= i < |digits| ==> IsDigit(digits[i])
    requires '/' !in digits && '/' !in rest && '.' !in rest
    requires '/' !in ext && '.' !in ext
    ensures FilenameTitle(digits + "-" + rest + "." + ext) == rest
  {
    var stem := digits + "-" + rest;
    assert '/' !in stem by {
      forall i | 0 <= i < |stem| ensures stem[i] != '/' {
        if i < |digits| { assert stem[i] == digits[i]; }
        else if i > |digits| { assert stem[i] == rest[i - |digits| - 1]; }
      }
    }
    ExtnameOfName(stem, ext);
    assert digits + "-" + rest + "." + ext == stem + "." + ext;
    DigitRunOf(digits, rest);
    assert stem[|digits|] == '-';
    assert stem[|digits| + 1..] == rest;
  }

  /** JavaScript's `\s`. */
  predicate IsSpace(c: char)
  {
    c == ' ' || c == '\t' || c == '\n' || c == '\U{000B}' || c == '\U{000C}' || c == '\r'
    || c == '\U{00A0}' || c == '\U{1680}' || ('\U{2000}' <= c <= '\U{200A}')
    || c == '\U{2028}' || c == '\U{2029}' || c == '\U{202F}' || c == '\U{205F}'
    || c == '\U{3000}' || c == '\U{FEFF}'
  }

  /** End of the run of '#' starting at `i`. */
  function HashEnd(s: string, i: nat): (j: nat)
    requires i <= |s|
    ensures i <= j <= |s|
    ensures forall k :: i <= k < j ==> s[k] == '#'
    ensures j < |s| ==> s[j] != '#'
    decreases |s| - i
  {
    if i == |s| || s[i] != '#' then i else HashEnd(s, i + 1)
  }

  /** End of the run of `\s` starting at `i`. */
  function SpaceEnd(s: string, i: nat): (j: nat)
    requires i <= |s|
    ensures i <= j <= |s|
    ensures forall k :: i <= k < j ==> IsSpace(s[k])
    ensures j < |s| ==> !IsSpace(s[j])
    decreases |s| - i
  {
    if i == |s| || !IsSpace(s[i]) then i else SpaceEnd(s, i + 1)
  }

  /** End of the line starting at `i`: the next '\n' or the end. */
  function LineEnd(s: string, i: nat): (j: nat)
    requires i <= |s|
    ensures i <= j <= |s|
    ensures forall k :: i <= k < j ==> s[k] != '\n'
    ensures j < |s| ==> s[j] == '\n'
    decreases |s| - i
  {
    if i == |s| || s[i] == '\n' then i else LineEnd(s, i + 1)
  }

  /** Backtracking of the greedy `\s+` over `s[j..k]`: the longest choice
      after which `[^\n]` can match one character. */
  function CaptureStart(s: string, j: nat, k: nat): (m: Option<nat>)
    requires j <= k <= |s|
    ensures m.Some? ==> j < m.value <= k && m.value < |s| && s[m.value] != '\n'
    ensures m.Some? ==> forall q :: m.value < q <= k && q < |s| ==> s[q] == '\n'
    ensures m.None? ==> forall q :: j < q <= k && q < |s| ==> s[q] == '\n'
    decreases k
  {
    if k <= j then None
    else if k < |s| && s[k] != '\n' then Some(k)
    else CaptureStart(s, j, k - 1)
  }

  /** The regular expression `#*\s+([^\n]+)` tried at position `i`. */
  function MatchAt(s: string, i: nat): (r: Option<string>)
    requires i <= |s|
    ensures r.Some? ==> r.value != "" && '\n' !in r.value
  {
    var j := HashEnd(s, i);
    var k := SpaceEnd(s, j);
    match CaptureStart(s, j, k)
    case None => None
    case Some(m) => Some(s[m..LineEnd(s, m)])
  }

  /** `content.match(/#*\s+([^\n]+)/)`: the captured group of the leftmost
      match, if any. */
  function FirstHeading(s: string): (r: Option<string>)
    ensures r.Some? ==> r.value != "" && '\n' !in r.value
  {
    SearchFrom(s, 0)
  }

  function SearchFrom(s: string, i: nat): (r: Option<string>)
    requires i <= |s|
    ensures r.Some? ==> r.value != "" && '\n' !in r.value
    decreases |s| - i
  {
    if i == |s| then None
    else match MatchAt(s, i)
      case Some(t) => Some(t)
      case None => SearchFrom(s, i + 1)
  }

  /** The regex matches somewhere exactly when some whitespace character is
      followed by a character other than a newline. */
  predicate HasHeadingCandidate(s: string)
  {
    exists p :: 0 <= p < |s| - 1 && IsSpace(s[p]) && s[p + 1] != '\n'
  }

  lemma {:induction false} SearchFinds(s: string, i: nat, p: nat)
    requires i <= p < |s| - 1 && IsSpace(s[p]) && s[p + 1] != '\n'
    ensures SearchFrom(s, i).Some?
    decreases p - i
  {
    if i == p {
      var j := HashEnd(s, p);
      assert j == p;
      var k := SpaceEnd(s, j);
      assert p + 1 <= k;
      assert CaptureStart(s, j, k).Some?;
      assert MatchAt(s, p).Some?;
    } else if MatchAt(s, i).None? {
      SearchFinds(s, i + 1, p);
    }
  }

  lemma {:induction false} SearchWitness(s: string, i: nat)
    requires i <= |s|
    requires SearchFrom(s, i).Some?
    ensures HasHeadingCandidate(s)
    decreases |s| - i
  {
    if MatchAt(s, i).Some? {
      var j := HashEnd(s, i);
      var k := SpaceEnd(s, j);
      var m := CaptureStart(s, j, k).value;
      assert IsSpace(s[m - 1]) && s[m] != '\n';
    } else {
      SearchWitness(s, i + 1);
    }
  }

  lemma FirstHeadingExists(s: string)
    ensures FirstHeading(s).Some? <==> HasHeadingCandidate(s)
  {
    if HasHeadingCandidate(s) {
      var p :| 0 <= p < |s| - 1 && IsSpace(s[p]) && s[p + 1] != '\n';
      SearchFinds(s, 0, p);
    }
    if FirstHeading(s).Some? {
      SearchWitness(s, 0);
    }
  }

  /** A file that opens with a markdown heading line `## Text` is titled
      `Text`, whatever follows on later lines. */
  lemma {:induction false} FirstHeadingOfHeading(hashes: string, text: string, rest: string)
    requires forall i :: 0 <= i < |hashes| ==> hashes[i] == '#'
    requires text != "" && !IsSpace(text[0]) && '\n' !in text
    requires rest == "" || rest[0] == '\n'
    ensures FirstHeading(hashes + " " + text + rest) == Some(text)
  {
    var s := hashes + " " + text + rest;
    var h := |hashes|;
    assert HashEnd(s, 0) == h by { HashEndOf(s, 0, h); }
    assert s[h] == ' ' && s[h + 1] == text[0];
    assert SpaceEnd(s, h) == h + 1;
    assert CaptureStart(s, h, h + 1) == Some(h + 1);
    assert LineEnd(s, h + 1) == h + 1 + |text| by {
      forall q | h + 1 <= q < h + 1 + |text| ensures s[q] != '\n' {
        assert s[q] == text[q - h - 1];
      }
      LineEndOf(s, h + 1, h + 1 + |text|);
    }
    assert s[h + 1..h + 1 + |text|] == text;
  }

  lemma {:induction false} HashEndOf(s: string, i: nat, j: nat)
    requires i <= j < |s| && s[j] != '#'
    requires forall k :: i <= k < j ==> s[k] == '#'
    ensures HashEnd(s, i) == j
    decreases j - i
  {
    if i < j { HashEndOf(s, i + 1, j); }
  }

  lemma {:induction false} LineEndOf(s: string, i: nat, j: nat)
    requires i <= j <= |s|
    requires forall k :: i <= k < j ==> s[k] != '\n'
    requires j < |s| ==> s[j] == '\n'
    ensures LineEnd(s, i) == j
    decreases j - i
  {
    if i < j { LineEndOf(s, i + 1, j); }
  }

  /** What the `title` getter stores when it discovers titles: the first
      heading of the content, or else the filename title. */
  function DiscoveredTitle(content: string, filename: string): (t: string)
    ensures HasHeadingCandidate(content) ==> FirstHeading(content) == Some(t)
    ensures !HasHeadingCandidate(content) ==> t == FilenameTitle(filename)
  {
    FirstHeadingExists(content);
    match FirstHeading(content)
    case Some(h) => h
    case None => FilenameTitle(filename)
  }

  // ---------------------------------------------------------------------------
  // Chapter

  /** The options a chapter fills in when they are missing. */
  function ChapterDefaults(): map<string, Value>
  {
    map["discoverTitle" := Bool(true), "index" := Num(-1)]
  }

  /** A chapter as `new Chapter(source, …)` leaves it: made from the source,
      with empty caches. */
  ghost predicate FreshChapter(c: Chapter, source: Path, makeHash: string -> string)
    reads c
  {
    Named(c, source, makeHash) && Pristine(c)
  }

  /** The chapter was made from `source`, which fixes its file name and its
      name, and its id is the hash of that name. */
  ghost predicate Named(c: Chapter, source: Path, makeHash: string -> string)
  {
    c.path == source && c.id == makeHash(c.name)
  }

  /** The file name `path.basename` reads off a path string is the last
      segment of the path it resolves to, unless it is empty or `.`, which
      resolving drops. */
  lemma {:induction false} ParsedBasename(s: string)
    requires BaseName(s) != "" && BaseName(s) != "."
    ensures Basename(ParsePath(s)) == BaseName(s)
    decreases |s|
  {
    var n := SegmentLength(s);
    if n == |s| {
      LastIndexOfAbsent(s, '/');
      assert BaseName(s) == s[0..] == s;
      ParsedSegment(s);
    } else {
      BaseNameAfter(s, n);
      ParsedBasename(s[n + 1..]);
      ParsedLast(s);
    }
  }

  /** A string without '/' other than `""` and `.` resolves to one segment. */
  lemma ParsedSegment(s: string)
    requires SegmentLength(s) == |s| && s != "" && s != "."
    ensures ParsePath(s) == [s]
  {
    assert s[..|s|] == s;
  }

  /** The last segment of a resolved path comes from what follows its first
      '/', when that resolves to anything. */
  lemma ParsedLast(s: string)
    requires SegmentLength(s) < |s| && ParsePath(s[SegmentLength(s) + 1..]) != []
    ensures Basename(ParsePath(s)) == Basename(ParsePath(s[SegmentLength(s) + 1..]))
  {
    var rest := ParsePath(s[SegmentLength(s) + 1..]);
    var p := ParsePath(s);
    assert p == rest || p == [s[..SegmentLength(s)]] + rest;
    assert p[|p| - 1] == rest[|rest| - 1];
  }

  /** `hashFilename(source, true)` is the id `new Chapter(source)` assigns:
      the hash of the stripped basename of the resolved path. */
  lemma HashFilenameIsId(c: Chapter, s: string, makeHash: string -> string)
    requires BaseName(s) != "" && BaseName(s) != "."
    requires Named(c, ParsePath(s), makeHash)
    ensures c.id == HashFilename(s, true, makeHash)
    ensures HashFilename(s, true, makeHash) == makeHash(StripExtension(Basename(ParsePath(s))))
  {
    ParsedBasename(s);
  }

  /** None of the three caches holds anything yet. */
  ghost predicate Pristine(c: Chapter)
    reads c
  {
    c.content == None && c.parsed == None && c.title == None && c.filenameTitle == None
  }

  class Chapter {
    const path: Path
    const filename: string := Basename(path)
    const name: string := StripExtension(filename)
    const id: string
    const options: Dict
    var content: Option<string>        // `_content`
    var parsed: Option<string>         // `_parsed`
    var title: Option<string>          // `_title`
    var filenameTitle: Option<string>  // the `_filename` property the title getter sets

    constructor Make(source: Path, options: Dict, makeHash: string -> string)
      ensures path == source
      ensures filename == Basename(source) && name == StripExtension(filename) && id == makeHash(name)
      ensures this.options == options
      ensures content == None && parsed == None && title == None && filenameTitle == None
    {
      path := source;
      id := makeHash(StripExtension(Basename(source)));
      this.options := options;
      content, parsed, title, filenameTitle := None, None, None, None;
    }

    /** `new Chapter(source, options)`: fails unless the source is a file;
        fills the missing options in place (or in a new object when none is
        given). */
    static method New(fs: FileSystem, source: Path, options: Dict?, makeHash: string -> string)
      returns (r: Result<Chapter>)
      modifies options
      ensures source !in fs ==> r == Err(SourceMissing(source))
      ensures source in fs && fs[source].Dir? ==> r == Err(SourceNotFile(source))
      ensures r.Err? && options != null ==> options.props == old(options.props)
      ensures IsFile(fs, source) ==> r.Ok?
      ensures r.Ok? ==> fresh(r.value) && FreshChapter(r.value, source, makeHash)
      ensures r.Ok? && options != null ==>
        r.value.options == options && options.props == WithDefaults(old(options.props), ChapterDefaults())
      ensures r.Ok? && options == null ==> fresh(r.value.options) && r.value.options.props == ChapterDefaults()
    {
      if source !in fs {
        return Err(SourceMissing(source));
      } else if !fs[source].File? {
        return Err(SourceNotFile(source));
      }
      var opts: Dict;
      if options == null {
        opts := new Dict(map[]);
      } else {
        opts := options;
      }
      opts := Defaults(opts, ChapterDefaults());
      var c := new Chapter.Make(source, opts, makeHash);
      r := Ok(c);
    }

    /** The `index` getter: `options.index`, whatever it now holds. */
    function Index(): (v: Value)
      reads options
      ensures "index" in options.props ==> v == options.props["index"]
      ensures "index" !in options.props ==> v == Undefined
    {
      Get(options.props, "index")
    }

    /** What `content(uncached)` returns in the current state. */
    function CurrentContent(fs: FileSystem, uncached: bool): Result<string>
      reads this
    {
      if !uncached && content.Some? then Ok(content.value) else ReadFile(fs, path)
    }

    /** What `parse()` (without `uncached`) returns in the current state. */
    function ParsedNow(fs: FileSystem, markdown: string -> string): Result<string>
      reads this
    {
      if parsed.Some? then Ok(parsed.value)
      else match CurrentContent(fs, false)
        case Ok(text) => Ok(markdown(text))
        case Err(e) => Err(e)
    }

    /** `content(uncached)`: reads the file only when asked to or when
        nothing is cached, and caches what it read. */
    method Content(fs: FileSystem, uncached: bool) returns (r: Result<string>)
      modifies this
      ensures r == old(CurrentContent(fs, uncached))
      ensures content == (if r.Ok? then Some(r.value) else old(content))
      ensures parsed == old(parsed) && title == old(title) && filenameTitle == old(filenameTitle)
    {
      if uncached || content.None? {
        var read := ReadFile(fs, path);
        if read.Err? {
          return read;
        }
        content := Some(read.value);
      }
      r := Ok(content.value);
    }

    /** `parse(uncached)`: converts the content to HTML only when asked to or
        when nothing is cached; the content is then fetched with the same
        `uncached` flag. */
    method Parse(fs: FileSystem, uncached: bool, markdown: string -> string) returns (r: Result<string>)
      modifies this
      ensures !uncached && old(parsed).Some? ==> r == Ok(old(parsed).value) && content == old(content)
      ensures (uncached || old(parsed).None?) ==>
        match old(CurrentContent(fs, uncached))
        case Ok(text) => r == Ok(markdown(text)) && content == Some(text)
        case Err(e) => r == Err(e) && content == old(content)
      ensures parsed == (if r.Ok? then Some(r.value) else old(parsed))
      ensures title == old(title) && filenameTitle == old(filenameTitle)
      ensures !uncached ==> r == old(ParsedNow(fs, markdown)) && ParsedNow(fs, markdown) == r
      ensures !uncached ==> CurrentContent(fs, false) == old(CurrentContent(fs, false))
    {
      if uncached || parsed.None? {
        var text := Content(fs, uncached);
        if text.Err? {
          return text;
        }
        parsed := Some(markdown(text.value));
      }
      r := Ok(parsed.value);
    }

    /** What the `title` getter as written returns in the current state: the
        discovered title of the (cached or read) content with
        `discoverTitle`, else `_title` as it is. */
    function TitleNow(fs: FileSystem): Result<Option<string>>
      reads this, options
    {
      if Truthy(Get(options.props, "discoverTitle")) then
        match CurrentContent(fs, false)
        case Ok(text) => Ok(Some(DiscoveredTitle(text, filename)))
        case Err(e) => Err(e)
      else Ok(title)
    }

    /** The `title` getter as written: with `discoverTitle` it stores and
        returns the discovered title, caching the content it read; without
        it, it stores the filename title under `_filename` and returns
        `_title` unchanged. Asking again gives the same answer. */
    method Title(fs: FileSystem) returns (r: Result<Option<string>>)
      modifies this
      ensures r == old(TitleNow(fs)) && TitleNow(fs) == r
      ensures Truthy(Get(options.props, "discoverTitle")) ==>
        filenameTitle == old(filenameTitle) &&
        match old(CurrentContent(fs, false))
        case Ok(text) => r == Ok(Some(DiscoveredTitle(text, filename))) && title == r.value && content == Some(text)
        case Err(e) => r == Err(e) && title == old(title) && content == old(content)
      ensures !Truthy(Get(options.props, "discoverTitle")) ==>
        r == Ok(old(title)) && title == old(title) && filenameTitle == Some(FilenameTitle(filename))
        && content == old(content)
      ensures parsed == old(parsed)
      ensures CurrentContent(fs, false) == old(CurrentContent(fs, false))
    {
      if Truthy(Get(options.props, "discoverTitle")) {
        var text := Content(fs, false);
        if text.Err? {
          return Err(text.error);
        }
        title := Some(DiscoveredTitle(text.value, filename));
      } else {
        filenameTitle := Some(FilenameTitle(filename));
      }
      r := Ok(title);
    }

    /** The `title` getter as intended: without `discoverTitle` the filename
        title is stored in `_title` and returned, so a title is always a
        string. The title it computes does not change by computing it. */
    method TitleIntended(fs: FileSystem) returns (r: Result<string>)
      modifies this
      ensures r == old(IntendedTitle(this, fs))
      ensures IntendedTitle(this, fs) == r
      ensures r.Ok? ==> title == Some(r.value)
      ensures r.Err? ==> title == old(title)
      ensures Truthy(Get(options.props, "discoverTitle")) ==>
        match old(CurrentContent(fs, false))
        case Ok(text) => content == Some(text)
        case Err(_) => content == old(content)
      ensures !Truthy(Get(options.props, "discoverTitle")) ==> content == old(content)
      ensures parsed == old(parsed) && filenameTitle == old(filenameTitle)
    {
      if Truthy(Get(options.props, "discoverTitle")) {
        var text := Content(fs, false);
        if text.Err? {
          return Err(text.error);
        }
        title := Some(DiscoveredTitle(text.value, filename));
      } else {
        title := Some(FilenameTitle(filename));
      }
      r := Ok(title.value);
    }
  }

  /** The title the intended getter gives in the current state: the
      discovered title of the (cached or read) content, or the filename
      title when titles are not discovered. */
  function IntendedTitle(c: Chapter, fs: FileSystem): (r: Result<string>)
    reads c, c.options
    ensures !Truthy(Get(c.options.props, "discoverTitle")) ==> r == Ok(FilenameTitle(c.filename))
    ensures Truthy(Get(c.options.props, "discoverTitle")) ==> (r.Err? <==> c.CurrentContent(fs, false).Err?)
  {
    if Truthy(Get(c.options.props, "discoverTitle")) then
      match c.CurrentContent(fs, false)
      case Ok(text) => Ok(DiscoveredTitle(text, c.filename))
      case Err(e) => Err(e)
    else Ok(FilenameTitle(c.filename))
  }

  /** A chapter created with `discoverTitle: false` has a `null` title: the
      getter as written never sets `_title` on that path. */
  method UntitledChapter(fs: FileSystem, source: Path, makeHash: string -> string)
    returns (t: Result<Option<string>>)
    requires IsFile(fs, source)
    ensures t == Ok(None)
  {
    var opts := new Dict(map["discoverTitle" := Bool(false)]);
    var c := Chapter.New(fs, source, opts, makeHash);
    t := c.value.Title(fs);
  }

  /** The same chapter read through the intended getter is titled after its
      file name. */
  method TitledChapter(fs: FileSystem, source: Path, makeHash: string -> string)
    returns (t: Result<string>)
    requires IsFile(fs, source)
    ensures t == Ok(FilenameTitle(Basename(source)))
  {
    var opts := new Dict(map["discoverTitle" := Bool(false)]);
    var c := Chapter.New(fs, source, opts, makeHash);
    t := c.value.TitleIntended(fs);
  }

  // ---------------------------------------------------------------------------
  // ChapterCollection

  /** JavaScript's `v == i` for a number `i`; strings compare by their
      canonical decimal form only. */
  predicate LooseEqualsInt(v: Value, i: int)
  {
    match v
    case Num(n) => n == i
    case Bool(b) => i == (if b then 1 else 0)
    case Str(s) => s == ToStr(Num(i))
    case _ => false
  }

  /** Position of the first chapter with the given id, or `|cs|`. */
  function FirstWithId(cs: seq<Chapter>, id: string): (k: nat)
    ensures k <= |cs|
    ensures k < |cs| ==> cs[k].id == id
    ensures forall j :: 0 <= j < k ==> cs[j].id != id
  {
    if |cs| == 0 then 0
    else if cs[0].id == id then 0
    else 1 + FirstWithId(cs[1..], id)
  }

  /** Position of the first chapter whose `index` equals `i`, or `|cs|`. */
  function FirstWithIndex(cs: seq<Chapter>, i: int): (k: nat)
    reads set c | c in cs :: c.options
    ensures k <= |cs|
    ensures k < |cs| ==> LooseEqualsInt(cs[k].Index(), i)
    ensures forall j :: 0 <= j < k ==> !LooseEqualsInt(cs[j].Index(), i)
  {
    if |cs| == 0 then 0
    else if LooseEqualsInt(cs[0].Index(), i) then 0
    else 1 + FirstWithIndex(cs[1..], i)
  }

  class ChapterCollection {
    var items: seq<Chapter>

    constructor ()
      ensures items == []
    {
      items := [];
    }

    /** `addNewChapter(source, options)`: creates the chapter and appends it;
        nothing is appended when the chapter cannot be created. */
    method AddNewChapter(fs: FileSystem, source: Path, options: Dict?, makeHash: string -> string)
      returns (r: Result<Chapter>)
      modifies this, options
      ensures IsFile(fs, source) <==> r.Ok?
      ensures r.Ok? ==> items == old(items) + [r.value] && fresh(r.value) && FreshChapter(r.value, source, makeHash)
      ensures r.Ok? && options != null ==>
        r.value.options == options && options.props == WithDefaults(old(options.props), ChapterDefaults())
      ensures r.Ok? && options == null ==> fresh(r.value.options) && r.value.options.props == ChapterDefaults()
      ensures r.Err? ==> items == old(items)
    {
      r := Chapter.New(fs, source, options, makeHash);
      if r.Ok? {
        items := items + [r.value];
      }
    }

    /** `findByName(name)`: the first chapter whose id is the hash of the
        name without its extension, or `undefined`. */
    function FindByName(name: string, makeHash: string -> string): (r: Option<Chapter>)
      reads this
      ensures r.Some? <==> exists j :: 0 <= j < |items| && items[j].id == makeHash(StripExtension(name))
      ensures r.Some? ==> r.value.id == makeHash(StripExtension(name))
      ensures r.Some? ==> exists j :: (0 <= j < |items| && items[j] == r.value
        && forall i :: 0 <= i < j ==> items[i].id != r.value.id)
    {
      var k := FirstWithId(items, makeHash(StripExtension(name)));
      if k < |items| then Some(items[k]) else None
    }

    /** `findByIndex(i)`: the first chapter whose `index` equals `i`, or
        `undefined`. */
    function FindByIndex(i: int): (r: Option<Chapter>)
      reads this, set c | c in items :: c.options
      ensures r.Some? <==> exists j :: 0 <= j < |items| && LooseEqualsInt(items[j].Index(), i)
      ensures r.Some? ==> LooseEqualsInt(r.value.Index(), i)
      ensures r.Some? ==> exists j :: (0 <= j < |items| && items[j] == r.value
        && forall q :: 0 <= q < j ==> !LooseEqualsInt(items[q].Index(), i))
    {
      var k := FirstWithIndex(items, i);
      if k < |items| then Some(items[k]) else None
    }
  }

  // ---------------------------------------------------------------------------
  // Finding chapters

  /** Which entries of a listing are chapters. */
  function SupportedFlags(paths: seq<Path>): (flags: seq<bool>)
    ensures |flags| == |paths|
  {
    if |paths| == 0 then []
    else SupportedFlags(paths[..|paths| - 1]) + [IsSupported(Basename(paths[|paths| - 1]))]
  }

  /** The flag of an entry says whether its file name is supported. */
  lemma {:induction false} SupportedFlagsAt(paths: seq<Path>, i: nat)
    requires i < |paths|
    ensures SupportedFlags(paths)[i] == IsSupported(Basename(paths[i]))
  {
    if i < |paths| - 1 {
      SupportedFlagsAt(paths[..|paths| - 1], i);
    }
  }

  /** The positions, among the first `n` flags, that are set. */
  function SetPositions(flags: seq<bool>, n: nat): (ps: seq<nat>)
    requires n <= |flags|
    ensures forall j :: 0 <= j < |ps| ==> ps[j] < n && flags[ps[j]]
  {
    if n == 0 then []
    else SetPositions(flags, n - 1) + (if flags[n - 1] then [n - 1] else [])
  }

  /** The positions come in listing order and none of the set ones is
      missing. */
  lemma {:induction false} SetPositionsOrdered(flags: seq<bool>, n: nat)
    requires n <= |flags|
    ensures var ps := SetPositions(flags, n);
      (forall j, k :: 0 <= j < k < |ps| ==> ps[j] < ps[k])
      && (forall i :: 0 <= i < n && flags[i] ==> i in ps)
  {
    if n > 0 {
      SetPositionsOrdered(flags, n - 1);
    }
  }

  /** The listing positions of the chapters of a list of paths. */
  function SupportedPositions(paths: seq<Path>): (ps: seq<nat>)
    ensures forall j :: 0 <= j < |ps| ==> ps[j] < |paths|
  {
    SetPositions(SupportedFlags(paths), |paths|)
  }

  /** Exactly the supported entries yield chapters, in listing order. */
  lemma SupportedPositionsOrdered(paths: seq<Path>)
    ensures var ps := SupportedPositions(paths);
      && (forall j :: 0 <= j < |ps| ==> IsSupported(Basename(paths[ps[j]])))
      && (forall j, k :: 0 <= j < k < |ps| ==> ps[j] < ps[k])
      && (forall i :: 0 <= i < |paths| && IsSupported(Basename(paths[i])) ==> i in ps)
  {
    var ps := SupportedPositions(paths);
    SetPositionsOrdered(SupportedFlags(paths), |paths|);
    forall j | 0 <= j < |ps| ensures IsSupported(Basename(paths[ps[j]])) {
      SupportedFlagsAt(paths, ps[j]);
    }
    forall i | 0 <= i < |paths| && IsSupported(Basename(paths[i])) ensures i in ps {
      SupportedFlagsAt(paths, i);
    }
  }

  /** The chapter made for the entry at listing position `pos`. */
  ghost predicate ListedChapter(c: Chapter, paths: seq<Path>, pos: nat, makeHash: string -> string)
    reads c, c.options
  {
    && pos < |paths|
    && Named(c, paths[pos], makeHash) && Pristine(c)
    && c.options.props == ListedOptions(pos)
  }

  /** `cs` are the chapters made, in order, for the entries at `positions`;
      each is a new object with new options. */
  twostate predicate ListedChapters(new cs: seq<Chapter>, paths: seq<Path>, positions: seq<nat>, makeHash: string -> string)
    reads cs, set c | c in cs :: c.options
  {
    && |cs| == |positions|
    && forall j :: 0 <= j < |cs| ==>
         fresh(cs[j]) && fresh(cs[j].options) && ListedChapter(cs[j], paths, positions[j], makeHash)
  }

  /** The options of the chapter at listing position `pos`, once defaulted. */
  function ListedOptions(pos: nat): map<string, Value>
  {
    map["index" := Num(pos + 1), "discoverTitle" := Bool(true)]
  }

  /** One chapter of a listing: the entry at `pos`, with `index: pos + 1`. */
  method AddListedOne(coll: ChapterCollection, fs: FileSystem, paths: seq<Path>, pos: nat, makeHash: string -> string)
    returns (r: Result<Chapter>)
    requires pos < |paths|
    modifies coll
    ensures IsFile(fs, paths[pos]) <==> r.Ok?
    ensures r.Ok? ==> (coll.items == old(coll.items) + [r.value]
      && fresh(r.value) && fresh(r.value.options) && ListedChapter(r.value, paths, pos, makeHash))
    ensures r.Err? ==> coll.items == old(coll.items)
  {
    var options := new Dict(map["index" := Num(pos + 1)]);
    r := coll.AddNewChapter(fs, paths[pos], options, makeHash);
    assert WithDefaults(map["index" := Num(pos + 1)], ChapterDefaults()) == ListedOptions(pos);
  }

  /** Every path among the first `n` whose flag is set is a file. */
  ghost predicate FlaggedAreFiles(fs: FileSystem, paths: seq<Path>, flags: seq<bool>, n: nat)
    requires n <= |paths| && n <= |flags|
  {
    forall i :: 0 <= i < n && flags[i] ==> IsFile(fs, paths[i])
  }

  /** The loop shared by `find` and `gather`: every path whose flag is set
      (whose extension is supported) becomes a chapter whose index is its
      position in the list plus one, skipped entries included. */
  method AddListed(coll: ChapterCollection, fs: FileSystem, paths: seq<Path>, flags: seq<bool>,
                   makeHash: string -> string)
    returns (err: Option<Error>)
    requires |flags| == |paths|
    modifies coll
    ensures err.None? ==>
      && |old(coll.items)| <= |coll.items| && coll.items[..|old(coll.items)|] == old(coll.items)
      && ListedChapters(coll.items[|old(coll.items)|..], paths, SetPositions(flags, |paths|), makeHash)
    ensures err.Some? ==> exists i :: 0 <= i < |paths| && flags[i] && !IsFile(fs, paths[i])
    ensures err.None? <==> FlaggedAreFiles(fs, paths, flags, |paths|)
  {
    ghost var ps: seq<nat> := [];
    ghost var made: seq<Chapter> := [];
    for i: nat := 0 to |paths|
      invariant ps == SetPositions(flags, i)
      invariant coll.items == old(coll.items) + made
      invariant |made| == |ps|
      invariant forall j :: 0 <= j < |made| ==> fresh(made[j]) && fresh(made[j].options)
      invariant forall j :: 0 <= j < |made| ==> ListedChapter(made[j], paths, ps[j], makeHash)
      invariant FlaggedAreFiles(fs, paths, flags, i)
    {
      if flags[i] {
        var r := AddListedOne(coll, fs, paths, i, makeHash);
        if r.Err? {
          assert !FlaggedAreFiles(fs, paths, flags, |paths|) by {
            assert flags[i] && !IsFile(fs, paths[i]);
          }
          return Some(r.error);
        }
        ps, made := ps + [i], made + [r.value];
      }
    }
    assert coll.items[..|old(coll.items)|] == old(coll.items);
    assert coll.items[|old(coll.items)|..] == made;
    err := None;
  }

  /** Every supported path of the list is a file. */
  ghost predicate SupportedAreFiles(fs: FileSystem, paths: seq<Path>)
  {
    forall i :: 0 <= i < |paths| && IsSupported(Basename(paths[i])) ==> IsFile(fs, paths[i])
  }

  /** The paths `SupportedFlags` sets are exactly the supported ones, so the
      loop meets no error exactly when every supported path is a file. */
  lemma SupportedFlagsFiles(fs: FileSystem, paths: seq<Path>)
    ensures SupportedAreFiles(fs, paths) <==> FlaggedAreFiles(fs, paths, SupportedFlags(paths), |paths|)
  {
    forall i | 0 <= i < |paths| ensures SupportedFlags(paths)[i] == IsSupported(Basename(paths[i])) {
      SupportedFlagsAt(paths, i);
    }
  }

  /** `find(source)`: a source file yields itself (index 1) if supported; a
      directory yields its supported entries in listing order. Fails exactly
      when the source does not exist or a supported entry is not a file. */
  method Find(fs: FileSystem, source: Path, makeHash: string -> string)
    returns (r: Result<ChapterCollection>)
    ensures source !in fs ==> r == Err(NoEntry(source))
    ensures source in fs ==> (r.Ok? <==> SupportedAreFiles(fs, SourcePaths(fs, source)))
    ensures r.Ok? ==>
      var paths := SourcePaths(fs, source);
      fresh(r.value) && ListedChapters(r.value.items, paths, SupportedPositions(paths), makeHash)
  {
    if source !in fs {
      return Err(NoEntry(source));
    }
    var paths := SourcePaths(fs, source);
    SupportedFlagsFiles(fs, paths);
    var coll := new ChapterCollection();
    var err := AddListed(coll, fs, paths, SupportedFlags(paths), makeHash);
    if err.Some? {
      return Err(err.value);
    }
    assert coll.items == coll.items[0..];
    r := Ok(coll);
  }

  /** The paths `find` considers: the source itself when it is a file, else
      its entries joined to it. */
  function SourcePaths(fs: FileSystem, source: Path): (ps: seq<Path>)
    requires source in fs
    ensures fs[source].File? ==> ps == [source]
    ensures fs[source].Dir? ==> ps == ListingPaths(source, fs[source].listing)
  {
    if fs[source].File? then [source] else ListingPaths(source, fs[source].listing)
  }

  /** `readdirSync(dir).map(name => path.join(dir, name))`. */
  function ListingPaths(dir: Path, listing: seq<string>): (ps: seq<Path>)
    ensures |ps| == |listing|
    ensures forall i :: 0 <= i < |listing| ==> ps[i] == JoinPath(dir, listing[i])
  {
    seq(|listing|, i requires 0 <= i < |listing| => JoinPath(dir, listing[i]))
  }

  /** A source that is a single supported file gives exactly one chapter,
      with index 1. */
  lemma SingleFileSource(source: Path)
    requires IsSupported(Basename(source))
    ensures SupportedPositions([source]) == [0]
  {
    var flags := SupportedFlags([source]);
    SupportedFlagsAt([source], 0);
    assert SetPositions(flags, 0) == [];
  }
}
