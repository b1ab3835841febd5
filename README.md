# dawg, modelled in Dafny

dawg turns a directory of markdown files into a small HTML site. Every
file with a `.md`, `.mdown` or `.markdown` extension is a *chapter*.
A chapter has a hashed id, a title and lazily read content. One page
template and a set of stylesheets are compiled once and cached for the
whole process. `render` produces one page per chapter, keyed by id.
`convert` writes those pages to `<id>.html` files. `serve` keeps the
pages in memory, answers HTTP requests from them, and re-renders when
a watched file changes. The watcher registry keeps one OS watch per
directory and merges the watches of files into their parent
directory's watch.

The model has one Dafny module per source file:

| module | source | form |
|---|---|---|
| `FileSystem` (fs.dfy) | Node's `fs` and `path` as the code uses them | values: a map from normalised paths to files and directories |
| `Utils` (utils.dfy) | lib/utils.js | functions, and a `Dict` class for objects mutated in place |
| `Chapters` (chapter.dfy) | lib/chapter.js | classes `Chapter` and `ChapterCollection`, pure title and heading functions |
| `Templating` (templating.dfy) | lib/templating.js | class `Engine` holding the module-level caches |
| `Monitor` (monitor.dfy) | lib/monitor.js | class `Watchers` over the module-level map, proved against pure registry functions |
| `Dawg` (dawg.dfy) | lib/dawg.js | methods `Gather`, `Render`, `Convert`, `Serve` and class `Server` (the closure state of `serve`) |
| `Legacy` (legacy.dfy) | dawg.js (the older single-file generator) | its own `Chapter` class and entry points |
| `Logging` (logging.dfy) | lib/logging.js | class `Log` with the two flags and the written lines |

Each stateful method is proved against a pure function of the state
before the call. `Chapter.Content` is proved against `CurrentContent`.
`Engine.CompileTemplate` is proved against `TemplateNow`. `Watchers.Monitor`
is proved against `Monitored`. The properties the code promises are
then lemmas about those functions. Examples: the registry invariant,
no callback lost when watches merge, one page per chapter keyed by id,
and the first error wins.

Foreign libraries are opaque function parameters:

- the markdown converter;
- the CSS compressor;
- the template application;
- `makeHash`.

Watch handles and callbacks are opaque identities. The file system is
a value passed to every operation. HTTP responses are values.

Where the code and its comments or documentation disagree, the model
follows the code:

- `renderChapters` rebuilds the CSS from `options.style`, but the defaults and `render` use `options.styles` (lib/dawg.js:134). `Dawg.Server.Recompile` reads `"style"`. Outside dev mode the non-empty styling it builds stays cached, so the pages ignore `options.styles` (Dawg.Server.RenderChapters).
- The development branch of `serve` calls `templating.watch`, which lib/templating.js does not define (lib/dawg.js:150). `Dawg.Serve` therefore returns `NotAFunction` whenever `dev` is truthy.
- A failed re-render leaves the previous pages in place (lib/dawg.js:129-138). `Dawg.Server.RenderChapters` keeps `rendered` unchanged on error.

## Model

| member | source | states |
|---|---|---|
| FileSystem.ReadFile | lib/chapter.js:55 | reading succeeds exactly when the path is an existing file, and then yields that file's content |
| FileSystem.ReadDir | lib/dawg.js:25 | listing succeeds exactly when the path is an existing directory, and then yields its entries |
| FileSystem.JoinPath | lib/dawg.js:31 | joining a directory and a name gives a path whose dirname is the directory and whose basename is the name |
| FileSystem.Dirname | lib/monitor.js:24 | the parent path is the path without its last segment; the root is its own parent |
| Utils.WithDefaults | lib/utils.js:47-55 | the defaulted object has the keys of both objects, keeps every value the target had, and takes the default only for keys the target lacks |
| Utils.Defaults | lib/utils.js:47-55 | `defaults` mutates and returns the target itself, leaving exactly `WithDefaults` of its old properties |
| Utils.HasOP | lib/utils.js:35-37 | a key that is not an own property reads as `undefined` |
| Utils.DefaultsIdempotent | lib/utils.js:47-55 | applying the same defaults twice gives what applying them once gave |
| Utils.BaseName | lib/utils.js:80 | the basename contains no '/' and is a suffix of the path |
| Utils.BaseNameIdempotent | lib/utils.js:80 | the basename of a basename is itself |
| Utils.HashFilename | lib/utils.js:79-87 | the hash is always taken of a name without '/', never of a whole path |
| Chapters.ParsedBasename | lib/chapter.js:27-28 | for a source string whose basename is a real name, the last segment of the resolved path is exactly the string's basename, so `path.basename` agrees on the string and on the resolved path |
| Chapters.HashFilenameIsId | lib/utils.js:79-87 | `hashFilename(source, true)` equals `makeHash(stripExtension(basename(source)))`, which is the id a chapter made from that source is given (lib/chapter.js:27-30) |
| Utils.HashFilenameBasename | lib/utils.js:79-87 | the filename hash depends only on the basename, with or without the extension |
| Utils.Extname | lib/utils.js:108-110 | an extension is a suffix of the path; a non-empty one starts with its '.' and holds no '/' |
| Utils.StripExtension | lib/utils.js:108-110 | the stripped path followed by its extension is the path again |
| Utils.ExtnameOfName | lib/utils.js:108-110 | for `stem.ext` with a non-empty stem, the extension is `.ext` and stripping it leaves `stem` |
| Utils.ExtnameNoDot | lib/utils.js:108-110 | a name without a '.' has no extension and is its own stripped form |
| Utils.Split | dawg.js:374 | splitting yields at least one piece, and no piece contains the separator |
| Utils.SplitFront | dawg.js:374 | a separator-free piece followed by the separator splits off as the first piece |
| Utils.SplitJoin | lib/templating.js:109 | splitting a join on a separator that occurs in no piece gives the pieces back |
| Chapters.SupportedName | lib/chapter.js:223-224 | a plain `stem.ext` is a chapter exactly when `ext` is `markdown`, `mdown` or `md` |
| Chapters.UnsupportedWithoutDot | lib/chapter.js:223-224 | a name without a '.' is never a chapter |
| Chapters.IsSupported | lib/chapter.js:247-249 | a name is supported exactly when it has an extension whose text after the '.' is `markdown`, `mdown` or `md` |
| Chapters.FilenameTitle | lib/chapter.js:69-79 | the filename title is a suffix of the name without its extension, and what is cut in front is one run of digits followed by '-' |
| Chapters.FilenameTitleNumbered | lib/chapter.js:69-79 | `01-intro.md` is titled `intro`: exactly one numbered prefix and the extension go |
| Chapters.FirstHeading | lib/chapter.js:84 | a discovered heading is non-empty and holds no line break |
| Chapters.FirstHeadingExists | lib/chapter.js:84 | the heading regex matches exactly when some whitespace character is followed by a character other than a line break |
| Chapters.FirstHeadingOfHeading | lib/chapter.js:84 | a file opening with `## Text` is titled `Text` |
| Chapters.DiscoveredTitle | lib/chapter.js:81-87 | the discovered title is the first heading when there is one, and otherwise the filename title |
| Chapters.Chapter.Make | lib/chapter.js:27-41 | a new chapter has its path, basename, stripped name and hashed id, and nothing cached |
| Chapters.Chapter.New | lib/chapter.js:19-42 | a missing source and a directory source throw their own errors; any existing file gives a fresh chapter whose options are defaulted in place |
| Chapters.Chapter.Index | lib/chapter.js:101-106 | the index is the current `options.index`, or undefined |
| Chapters.Chapter.Content | lib/chapter.js:51-59 | the file is read only when asked to or when nothing is cached; a successful read becomes the cache; other caches are untouched |
| Chapters.Chapter.Parse | lib/chapter.js:115-130 | the HTML is the cached parse unless asked to redo it or nothing is cached; otherwise it is the markdown of the content, and it becomes the cache on success |
| Chapters.Chapter.Title | lib/chapter.js:66-94 | the result is `TitleNow` of the state before the call; with `discoverTitle` a read content becomes the cache and the discovered title is stored and returned, a read error is returned and changes nothing, `_filename` stays; without it the stored title (still `null` for a new chapter) is returned and only `_filename` is set to the filename title |
| Chapters.Chapter.TitleNow | lib/chapter.js:81-92 | what the title getter returns in the current state: the discovered title or the read error with discovery, the stored title without it |
| Chapters.Chapter.TitleIntended | lib/chapter.js:66-94 | the intended getter returns and stores the filename title when discovery is off, leaving the content cache and `_filename`; with discovery it reads and caches the content and stores the discovered title, or returns the read error |
| Chapters.IntendedTitle | lib/chapter.js:66-94 | without discovery the title is the filename title; with it the title fails exactly when the content cannot be read |
| Chapters.UntitledChapter | lib/chapter.js:88-90 | a new chapter made with `discoverTitle: false` reports a `null` title |
| Chapters.TitledChapter | lib/chapter.js:88-90 | the same chapter read through the intended getter is titled after its file name |
| Chapters.FirstWithId | lib/chapter.js:184-192 | the position found is the first whose id matches, or the end of the list |
| Chapters.FirstWithIndex | lib/chapter.js:201-208 | the position found is the first whose index loosely equals the number, or the end of the list |
| Chapters.ChapterCollection.constructor | lib/chapter.js:153-159 | a new collection is empty |
| Chapters.ChapterCollection.AddNewChapter | lib/chapter.js:171-175 | a chapter is appended exactly when its source is a file; otherwise the list is unchanged |
| Chapters.ChapterCollection.FindByName | lib/chapter.js:184-192 | a chapter is found exactly when one has the hash of the name without its extension as id, and it is the first such chapter |
| Chapters.ChapterCollection.FindByIndex | lib/chapter.js:201-208 | a chapter is found exactly when one has an index loosely equal to the number, and it is the first such chapter |
| Chapters.SupportedFlagsAt | lib/chapter.js:248-249 | each listing entry is flagged exactly when its file name is supported |
| Chapters.SetPositionsOrdered | lib/chapter.js:247-255 | the chosen positions increase strictly and are exactly the flagged ones |
| Chapters.SupportedPositionsOrdered | lib/chapter.js:247-255 | exactly the supported entries yield chapters, in listing order |
| Chapters.AddListedOne | lib/chapter.js:250-253 | one listing entry is added with `index` set to its position plus one, exactly when it is a file |
| Chapters.AddListed | lib/chapter.js:247-255 | it fails exactly when some flagged path is not a file; on success every flagged path became a chapter, in listing order, after the chapters already there |
| Chapters.SupportedFlagsFiles | lib/chapter.js:247-255 | the flagged paths are all files exactly when the supported ones are |
| Chapters.Find | lib/chapter.js:221-258 | a missing source is an error; otherwise it fails exactly when a supported path of the source is not a file; on success a file source yields itself when supported, and a directory its supported entries in listing order |
| Chapters.ListingPaths | lib/chapter.js:238-240 | each listed name is joined onto the directory, in order |
| Chapters.SourcePaths | lib/chapter.js:232-241 | a file source is its own single path; a directory's paths are its entries joined onto it |
| Chapters.SingleFileSource | lib/chapter.js:233-235 | a supported single-file source gives exactly one chapter, at position 0 |
| Templating.TemplateChoice | lib/templating.js:36-39 | the given template is used exactly when it is a non-empty string naming a file; otherwise `template.html` in the template directory is used |
| Templating.TemplateChoiceReadable | lib/templating.js:36-42 | when the default template exists, reading the chosen template always succeeds |
| Templating.StylesheetList | lib/templating.js:62-67 | a falsy `styles` gives the three default sheets; a list of strings gives one path per string; any other truthy value makes the loop throw |
| Templating.Stylesheets | lib/templating.js:65-75 | the CSS of a list of sheets: a comment, the text and a blank line for each sheet that exists, in order; its properties are the next three rows |
| Templating.StylesheetsAppend | lib/templating.js:65-75 | the CSS of two lists of sheets is the CSS of the first followed by that of the second |
| Templating.StylesheetsNoFiles | lib/templating.js:67-75 | sheets that do not exist contribute nothing |
| Templating.OneStylesheet | lib/templating.js:71-74 | an existing sheet contributes a comment naming it, its text and a blank line |
| Templating.ConcatStylesheets | lib/templating.js:65-75 | the loop builds exactly the blocks of the existing sheets, in order |
| Templating.EntryLinesAt | lib/templating.js:103-106 | entry k of the chapter list is line k, with its link and title |
| Templating.ListLinesShape | lib/templating.js:97-110 | the list has an `<h1>` line exactly for a truthy heading, then the opening `<ol>`, one line per entry and the closing `</ol>` |
| Templating.ChapterListHtml | lib/templating.js:97-110 | the helper's HTML is its lines joined with line breaks; its shape is the row above and the next row |
| Templating.ChapterListSplit | lib/templating.js:97-110 | when no name, title or heading holds a line break, splitting the list's HTML on line breaks recovers its lines |
| Templating.ListTOC | lib/templating.js:113-117 | the table of contents is the same empty list whatever the chapter |
| Templating.Slots | lib/templating.js:103-105 | each non-null chapter contributes its file name and the title the getter gives now, as text, `null` when there is none; a null slot contributes nothing |
| Templating.TitleText | lib/templating.js:105 | a title prints as its text, and a missing one as `null` |
| Templating.TitleResult | lib/templating.js:105 | the printed title fails exactly when the getter fails, with the same error; otherwise it is the text of the title |
| Templating.Entries | lib/templating.js:103-106 | the entries of a list of slots: at most one per slot; the next rows say which |
| Templating.EntriesStep | lib/templating.js:103-106 | one more slot either adds nothing (null), fails with its title error, or adds its entry at the end |
| Templating.EntriesErrPrefix | lib/templating.js:103-106 | once a prefix of the list fails, the whole list fails with that first error |
| Templating.EntriesAllReadable | lib/templating.js:103-106 | when every title can be read, the entries are exactly the non-null chapters' file names and titles, in order |
| Templating.PresentAll | lib/templating.js:103-106 | when no slot is null or unreadable, entry k is the name and title of slot k |
| Templating.Engine.constructor | lib/templating.js:19-20 | both caches start empty and no helpers are registered |
| Templating.Engine.CompileTemplate | lib/templating.js:33-49 | the cached template is returned unless it is absent or bypassed; otherwise the chosen file is read and cached on success |
| Templating.Engine.BuildCSS | lib/templating.js:60-88 | an empty cache is treated as absent; otherwise the sheets are concatenated, compressed unless asked not to, and cached |
| Templating.Engine.RegisterChapterHelpers | lib/templating.js:95-124 | the helpers now list exactly the given chapters; the caches are untouched |
| Templating.Engine.ListChapters | lib/templating.js:97-110 | the helper prints the heading line and one entry per registered chapter, with the title the getter gives (`null` when there is none), or fails with the first title error; every chapter's content, `_parsed` cache and title answer as before |
| Monitor.WithoutDistinct | lib/monitor.js:82 | deleting a key keeps the other keys distinct |
| Monitor.Unregister | lib/monitor.js:70-84 | `unmonitor`: an unregistered path changes nothing; a registered one has its watch closed and its entry and key removed (its properties are Monitor.UnregisterValid) |
| Monitor.Register | lib/monitor.js:25-43 | a new entry for the path with no callbacks and the next watch handle, its key added last (its properties are Monitor.RegisterValid) |
| Monitor.Monitored | lib/monitor.js:19-61 | `monitor(fp, cb)`: choose the parent's or the path's own entry, creating it if missing, absorb the direct children when `fp` is a directory, then append `cb` (its properties are the Monitor.Monitored* rows) |
| Monitor.UnregisterValid | lib/monitor.js:70-84 | `unmonitor` keeps the registry invariant, closes that entry's watch, deletes its key and leaves every other entry as it was |
| Monitor.RegisterValid | lib/monitor.js:25-43 | adding a fresh entry with a new watch keeps the registry invariant |
| Monitor.AppendValid | lib/monitor.js:60 | appending callbacks to an entry keeps the registry invariant |
| Monitor.AbsorbStepEffect | lib/monitor.js:47-57 | a direct child of the directory hands its callbacks to the chosen entry, has its watch closed and is removed; any other entry is left alone |
| Monitor.AbsorbValid | lib/monitor.js:47-57 | the absorbing loop keeps the registry invariant |
| Monitor.AbsorbEntries | lib/monitor.js:47-57 | after the loop the entries are exactly the old ones minus the direct children visited, and the survivors other than the chosen one are unchanged |
| Monitor.AbsorbChosen | lib/monitor.js:47-57 | the chosen entry gains the callbacks of the direct children, in key order, after its own |
| Monitor.AbsorbClosed | lib/monitor.js:47-57 | the loop closes the watches of the direct children, in key order, and opens none |
| Monitor.MonitoredChosen | lib/monitor.js:19-61 | the callback goes to the parent directory's entry when there is one, else to the path's own entry; a watch is opened only when neither exists |
| Monitor.MonitoredOthers | lib/monitor.js:19-61 | when a directory is monitored its direct children's entries are removed and their watches closed; other unchosen entries are untouched |
| Monitor.MonitoredValid | lib/monitor.js:19-61 | `monitor` keeps the registry invariant |
| Monitor.AllCallbacksRemove | lib/monitor.js:47-57 | the callbacks of all entries are those of one entry plus those of the rest |
| Monitor.AbsorbStepKeeps | lib/monitor.js:50-55 | one turn of the loop moves callbacks between entries and drops none |
| Monitor.AbsorbKeeps | lib/monitor.js:47-57 | the absorbing loop keeps the multiset of all registered callbacks |
| Monitor.AppendKeeps | lib/monitor.js:60 | pushing callbacks adds exactly those callbacks |
| Monitor.MonitoredKeepsCallbacks | lib/monitor.js:19-61 | after `monitor(fp, cb)` every callback registered before is still registered, plus `cb` once |
| Monitor.Watchers.constructor | lib/monitor.js:8 | the registry starts empty and valid |
| Monitor.Watchers.Unmonitor | lib/monitor.js:70-84 | the new registry is `Unregister` of the old one, and validity is kept |
| Monitor.Watchers.AbsorbChildren | lib/monitor.js:47-57 | the loop over the keys present when it starts leaves `Absorb` of the old registry |
| Monitor.Watchers.AbsorbOne | lib/monitor.js:48-56 | one turn leaves `AbsorbStep` of the old registry |
| Monitor.Watchers.Monitor | lib/monitor.js:19-61 | a missing path is an error that changes nothing; otherwise the registry becomes `Monitored` of the old one and stays valid |
| Monitor.Watchers.ChooseEntry | lib/monitor.js:24-43 | the entry chosen is the parent's or the path's own, created with a new watch only when missing |
| Monitor.Watchers.AddCallback | lib/monitor.js:60 | the callback is appended to the chosen entry |
| Monitor.Watchers.Fire | lib/monitor.js:34-39 | a change on a watch runs exactly the entry's callbacks, in registration order |
| Dawg.Gather | lib/dawg.js:17-38 | an unreadable source is the listing error; otherwise it fails exactly when a supported entry is not a file; on success the chapters are the supported entries, in listing order, each numbered by its position |
| Dawg.ParsedSlots | lib/dawg.js:59-65 | each non-falsy chapter contributes its id and its parsed HTML; a falsy slot contributes nothing |
| Dawg.Pages | lib/dawg.js:61-65 | each (id, HTML) pair becomes the template applied to it, in order |
| Dawg.ToMapKeys | lib/dawg.js:58-66 | the rendered object has exactly the assigned ids as keys |
| Dawg.ToMapLast | lib/dawg.js:58-66 | an id holds the page of its last assignment |
| Dawg.PagesSnoc | lib/dawg.js:59-66 | rendering one more chapter assigns one more key |
| Dawg.EntriesKeys | lib/dawg.js:59-66 | the entries of a successful parse are keyed by the ids of the non-falsy slots |
| Dawg.RenderedKeys | lib/dawg.js:45-69 | a successful render has exactly one page per non-falsy chapter, keyed by id |
| Dawg.Rendered | lib/dawg.js:57-68 | the pages of a list of slots: the first parse error, else one page per entry, each key holding its last assignment |
| Dawg.RenderNow | lib/dawg.js:45-69 | what `render` gives in the current state: the template error, then the CSS error, then `Rendered` of the parsed slots |
| Dawg.ParsedSlotIds | lib/dawg.js:59-61 | the slot ids are exactly the ids of the non-null chapters |
| Dawg.RenderPages | lib/dawg.js:57-68 | the loop returns `Rendered` of the parsed slots, stops at the first parse error, and has exactly one key per chapter; every chapter's `parse()`, `content()` and title caches answer as before (`Kept`) |
| Dawg.Render | lib/dawg.js:45-69 | the helpers list the chapters; the result is `RenderNow` of the state before the call; a template or CSS error comes first; success has one page per chapter id; the template cache then holds the template used (when it was built) and the styling cache the CSS used (when both were); every chapter is `Kept` |
| Dawg.TargetName | lib/dawg.js:97 | the file a page is written to: the id without its extension, plus `.html` |
| Dawg.TargetOfPlainId | lib/dawg.js:97 | an id without a '.' is written to `<id>.html` |
| Dawg.ConvertWrites | lib/dawg.js:93-100 | every page is written to its target, with the content of some page of that target |
| Dawg.PlainTargets | lib/dawg.js:93-100 | when no id holds a '.', each page is written to `<id>.html` with its own content |
| Dawg.GatheredIds | lib/dawg.js:17-38 | every supported entry of the listing gives a chapter whose id is the hash of its stripped name |
| Dawg.GatheredSlots | lib/dawg.js:57-68 | the slots of a fresh gathering: one per supported entry, in order, under its hash, with the markdown of its file |
| Dawg.GatheredParsed | lib/dawg.js:57-68 | chapters just gathered parse to exactly those slots |
| Dawg.GatheredReadable | lib/dawg.js:57-68 | when every supported entry is a file, none of those slots fails |
| Dawg.GatheredSlotIds | lib/dawg.js:17-38 | the ids of those slots are the hashes of the supported entries' stripped names |
| Dawg.ConvertedKeys | lib/dawg.js:93-100 | writing those pages gives one file per supported entry's target, and no other |
| Dawg.Convert | lib/dawg.js:77-101 | an unreadable source is that error; otherwise it fails exactly when a supported entry is not a file or the template or CSS cannot be built; on success one file is written per supported entry's target and no other, each holding the page rendered for an entry with that target |
| Dawg.RequestName | lib/dawg.js:156-159 | a leading '/' is removed from the URL and nothing else changes |
| Dawg.Server.constructor | lib/dawg.js:108-126 | the server starts with its options, no chapters and no pages |
| Dawg.Server.Recompile | lib/dawg.js:129-135 | the template is recompiled and the CSS rebuilt from `options.style`, bypassing the caches in dev mode; the first error is reported; the template cache is repopulated when the template was built, the styling cache when both were, and otherwise each keeps its value |
| Dawg.Server.Rerender | lib/dawg.js:137 | `rendered = render(chapters, options)`: the pages become `RenderNow` of the state before the call when it succeeds and stay otherwise, with its error reported; the caches and chapters are left as by Dawg.Render |
| Dawg.Server.RenderChapters | lib/dawg.js:129-138 | an error leaves the pages as they were; success gives exactly one page per chapter, each the template in the template cache applied with the styling in the styling cache to the chapter's parse; outside dev mode a non-empty styling built from `options.style` is the one used, so `options.styles` is ignored; every chapter is `Kept` |
| Dawg.Server.UpdateChapters | lib/dawg.js:121-126 | an unreadable source leaves the chapters and pages; with a readable one the list is replaced exactly when every supported entry is a file, and otherwise nothing changes; success renders the markdown of each supported file with the cached template and styling |
| Dawg.Server.HandleRequest | lib/dawg.js:153-172 | the empty path serves chapter 1; a name is looked up by its hash; a found chapter answers 200 with its page; an unknown name answers 404 with `404 - Not Found`; when the pages are in sync a request never fails |
| Dawg.Serve | lib/dawg.js:108-180 | the options get their defaults in place; on success the server is in sync, `dev` is off, and the registry is valid and changed only when `watch` is on |
| Legacy.ParseAddress | dawg.js:373-386 | host and port hold no ':'; the host is never empty nor `localhost` |
| Legacy.SplitPair | dawg.js:374 | `host:port` splits into exactly the two parts |
| Legacy.ParseFormat | dawg.js:373-386 | parsing a formatted address gives it back, for every address a parse can return |
| Legacy.ParseHostPort | dawg.js:373-386 | `localhost` maps to `127.0.0.1` and any other host is kept, with the port |
| Legacy.ParsePortOnly | dawg.js:373-386 | a bare port, or an empty host, listens on `127.0.0.1` |
| Legacy.SplitLong | dawg.js:374 | `host:port:rest` splits into the host, the port and at least one more piece |
| Legacy.ParseDropsRest | dawg.js:374 | text after a second ':' is ignored |
| Legacy.SupportedNames | dawg.js:84-86 | the kept names are exactly the supported entries of the listing |
| Legacy.SupportedNamesAppend | dawg.js:84-86 | filtering keeps listing order: it distributes over concatenation |
| Legacy.Chapter.Make | dawg.js:17-34 | a new chapter has its path, file name and `<stem>.html` target, discovers titles and caches nothing |
| Legacy.Chapter.New | dawg.js:17-34 | a missing source and a directory throw their own errors; a chapter is made exactly when the source is a file |
| Legacy.Chapter.Content | dawg.js:36-44 | only a boolean `true` forces a read; otherwise the cache is returned when present; a successful read becomes the cache |
| Legacy.Chapter.ContentNow | dawg.js:36-44 | what `content()` returns in the current state: the cache unless asked to read again or empty, else the file |
| Legacy.Chapter.Title | dawg.js:46-71 | the result is `TitleNow` of the state before the call; with `autoTitle` a read content becomes the cache and the discovered title is stored and returned, a read error is returned and changes nothing, `_filename` stays; without it the stored title is returned and only `_filename` is set to the filename title |
| Legacy.Chapter.TitleNow | dawg.js:46-71 | what `title()` returns in the current state: the discovered title or the read error with `autoTitle`, the stored title without it |
| Legacy.Gather | dawg.js:80-90 | an unreadable source is the listing error; success means every supported entry is a file, each becoming a chapter in listing order |
| Legacy.TemplatePath | dawg.js:122-128 | the given template is used exactly when it names a file; otherwise the default is |
| Legacy.PageSlots | dawg.js:97-114 | each chapter contributes its file name and the markdown of its content |
| Legacy.RenderNowKeys | dawg.js:97-114 | a successful render has exactly one page per file name |
| Legacy.Render | dawg.js:97-114 | the result is `RenderNow` of the state before the call, with one page per chapter file name; every chapter's `content()` and `title()` answer as before |
| Legacy.TitleSlots | dawg.js:133-146 | each chapter contributes its target and its title text |
| Legacy.ListChapters | dawg.js:133-146 | the helper prints one entry per chapter, or fails with the first title error; every chapter's `content()` and `title()` answer as before |
| Legacy.FindTarget | dawg.js:222-228 | no chapter is found exactly when no target matches; one found is the last chapter with that target |
| Legacy.HandleRequest | dawg.js:210-240 | the empty name serves the first chapter; a matching target answers 200 with its page; anything else answers 404 with an empty body |
| Legacy.Convert | dawg.js:183-192 | as written, `convert` never succeeds: an unreadable source is the listing error, and otherwise writing fails |
| Legacy.ReadableRenders | dawg.js:97-114 | chapters whose files exist render whenever the template exists |
| Legacy.GatheredFiles | dawg.js:80-90 | the chapters gathered for names that are files are files |
| Legacy.TargetsCovered | dawg.js:163-175 | every gathered name has its chapter's target among the written files |
| Legacy.WritePages | dawg.js:163-175 | the written files are exactly the chapters' targets, each with the page of a chapter having that target |
| Legacy.NameSlots | dawg.js:97-114 | the slots of a fresh gathering: each supported name with the markdown of its file |
| Legacy.GatheredSlots | dawg.js:97-114 | chapters just gathered render from exactly those slots |
| Legacy.WrittenNames | dawg.js:163-175 | each written target holds the page of a gathered name with that target |
| Legacy.ConvertIntended | dawg.js:183-192 | as intended, `convert` succeeds whenever the listing is readable, every supported name is a file and the template exists; an unreadable source is the listing error; on success every supported name has its target written, and each written target holds the page rendered for a supported name with that target |
| Logging.LineParts | lib/logging.js:21-27 | an unprefixed line has one part, or two with the category first; the message comes last |
| Logging.LinePartsText | lib/logging.js:21-35 | joining the parts with ` - ` gives the category, then the message, then a newline |
| Logging.Log.constructor | lib/logging.js:7-8 | `prefix` starts true and `silent` false, with nothing written |
| Logging.Log.LogLine | lib/logging.js:12-36 | nothing is written when silent or when the message is falsy; with `prefix` on, building the prefix fails with a TypeError and nothing is written; otherwise exactly one line, where a one-argument call also uses the message as category |
| Logging.Log.LogLineIntended | lib/logging.js:12-36 | the same, with a one-argument call writing the message once |
| Logging.OneArgumentTwice | lib/logging.js:15-18 | as written, `log('m')` with `prefix` off writes `m - m` |
| Logging.OneArgumentOnce | lib/logging.js:15-18 | as intended, the same call writes `m` |

## Left out

- Real I/O is not modelled: the disk, `http.createServer(...).listen`, `console.log`, the OS watches of `watchr` and the clock behind the log prefix. The file system is a value, a response is a value and watch handles are opaque identities.
- The markdown converter, the template engine, the CSS compressor and the hash are opaque function parameters. The model does not say what they compute.
- Dawg.Render: the template is applied to the chapter's id and HTML, not to the chapter object that lib/dawg.js:61-65 passes, so a page cannot depend on the chapter's title in the model. Helper calls made while the template is applied are outside this member: `{{listChapters}}` reads every chapter's `title`, which can read files, fill caches and throw (lib/templating.js:103-106). That helper is modelled on its own as Templating.Engine.ListChapters.
- Legacy.Render: the template is applied to the chapter's file name and HTML, not to the chapter object that dawg.js:107-110 passes. The same holds for helper calls during the application (dawg.js:139-142), modelled on their own as Legacy.ListChapters.
- Node path corner cases are not modelled: paths are absolute and normalised, so `..`, relative paths and working-directory resolution are out.
- Utils.Extname: follows `path.extname` only for names that end in a real segment: for `..` the model gives `.` where Node gives the empty string, and for a name ending in '/' (`x.md/`) the model gives the empty string where Node gives `.md`. Names looked up through Dawg.RequestName and FindByName are not normalised, so such a request name would be stripped differently than in the original.
- Monitor.Watchers.constructor: lib/monitor.js:8 passes an equality function and `utils.makeHash` as the first two arguments of the collections package's `Map`, whose signature is `Map(values, equals, hash, getDefault)`, so the original's map is built with those functions in the wrong places; the model starts from an empty map keyed by path with plain equality, which is what the surrounding code relies on.
- lib/cli.js and the command-line part of dawg.js are not part of this model. They only parse arguments and call the entry points.
- Dead code in lib/monitor.js is left out: `statPath` and `watchPath` (lib/monitor.js:93-158) are never called.
- Monitor.Watchers.Monitor: the root path `/` is excluded by `requires fp != []`. Its parent would be itself, and the code's merging on that path is not modelled.
- Logging: the time prefix calls `utils.pad`, which lib/utils.js does not define (lib/logging.js:43-53). A call with `prefix` on, the default, therefore fails with a TypeError before writing, and the model says so. The format of the time it would build is not modelled.
- `log.error` and `highlight` (lib/chapter.js:269-285) are not modelled. They only print or wrap text for the console.
- The recursive removal and `mkdirSync` of the destination in `convert` are not modelled (lib/utils.js:119-135, lib/dawg.js:78-84). Dawg.Convert returns the written files as a map.
- Legacy.Convert: the `fs.mkdirSync(destination)` of `write` (dawg.js:169) is not modelled. For a destination that is a file or has no parent directory, the source throws that error first, where the model returns `NotAFunction("chapters.forEach")`.
- Dawg.Convert: when two ids share a target, the contract says only that the written file holds the page of one of them, not which.
- Chapters.FirstWithIndex: JavaScript `==` turns a string into a number before comparing, so `"01"`, `" 1"`, `"1.0"` and `"0x1"` equal `1`, and so does the list `[1]`. The model counts only the number's own decimal text as equal, and no list. The indexes `find` sets are numbers, which compare exactly.
- Chapters.ChapterCollection.FindByIndex: the same approximation of `==`, through Chapters.FirstWithIndex.
- Chapters.LooseEqualsInt: the same approximation of `==` for strings and lists.
- Templating.Engine.ListChapters: called as `{{listChapters}}` with no argument, handlebars passes its options object as `title`. That object is truthy, so the source prints `<h1>[object Object]</h1>`. `Value` has no object case, so the model covers only the values a template passes.
- Legacy.ListChapters: the same `if (title)` (dawg.js:135) prints `<h1>[object Object]</h1>` for `{{listChapters}}` with no argument, and the model covers only the values a template passes.
- Dawg.Serve: the contract says the server is in sync after a successful start. It does not give the pages' exact contents; Dawg.Server.UpdateChapters does.
- Dawg.Serve: the root path `/` is excluded as a source by `requires source != []`, even with `watch` off, because watching it goes through Monitor.Watchers.Monitor.
- Dawg.Server.RenderChapters: when a step fails, the contract gives the pages and not which error, nor the caches left behind by a render that failed after the recompile.
- The objects and maps passed to the `ChapterCollection` and chapter constructors become `Dict` instances. Prototype properties and getters on them are not modelled.
- `Chapter.toString` and the `isBoolean`/`isObject` helpers are not modelled. They are used only in printing and argument checks.
- The legacy dawg.js `serve` is modelled only through its request handling (Legacy.HandleRequest) and the address parsing. Its `_.defaults`, its type checks and `listen` are I/O around those.
- The legacy `remove` (dawg.js:349-365) is modelled only as the error it raises when called, because `path.lstatSync` does not exist.

## Findings

| source | as written | input that shows it | evidently intended | confidence | as-written member | corrected member |
|---|---|---|---|---|---|---|
| lib/chapter.js:88-90 | when `discoverTitle` is false the getter stores the filename title in `_filename` and returns the still `null` `_title` | a chapter made with `{discoverTitle: false}` for `01-intro.md` | the title `intro` | high, not executed | Chapters.UntitledChapter | Chapters.TitledChapter |
| lib/logging.js:15-18 | a one-argument call assigns the misspelled `catergory`, so `category` keeps the message | `log.prefix = false; log.log('started')` writes `started - started` | `started` | high, not executed | Logging.OneArgumentTwice | Logging.OneArgumentOnce |
| dawg.js:163-191 | `write` calls `chapters.forEach` on the object returned by `render`, and `remove` calls the non-existent `path.lstatSync` | any readable source directory: `convert` throws before writing a page | one `<stem>.html` file per chapter | high, not executed | Legacy.Convert | Legacy.ConvertIntended |
