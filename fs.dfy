/** The file system the generator sees: absolute, normalised paths as sequences
    of segments, each mapped to a file (its text) or a directory (its listing,
    in the order `readdirSync` returns it). Reads and stats are lookups in this
    map; nothing here performs I/O. */
module FileSystem {

  type Segment = string

  /** An absolute, normalised path; `[]` is the root `/`. */
  type Path = seq<Segment>

  datatype Node = File(content: string) | Dir(listing: seq<string>)

  type FileSystem = map<Path, Node>

  /** The errors the source raises, as thrown by `fs` or by its own `throw`. */
  datatype Error =
    | NoEntry(path: Path)          // ENOENT from lstatSync/readdirSync/readFileSync
    | NotADirectory(path: Path)    // ENOTDIR from readdirSync
    | IsADirectory(path: Path)     // EISDIR from readFileSync
    | SourceMissing(path: Path)    // 'Source "…" does not exist.'
    | SourceNotFile(path: Path)    // 'Source "…" is not a file.'
    | NotAFunction(what: string)   // TypeError: calling something that is not a function
    | WriteUndefined               // TypeError: `response.write(undefined)`

  /** `path.dirname`: drops the last segment; the root is its own parent. */
  function Dirname(p: Path): (d: Path)
    ensures |p| > 0 ==> d + [p[|p| - 1]] == p
    ensures |p| == 0 ==> d == p
  {
    if |p| == 0 then p else p[..|p| - 1]
  }

  /** `path.basename`: the last segment, `""` for the root. */
  function Basename(p: Path): string
  {
    if |p| == 0 then "" else p[|p| - 1]
  }

  /** `path.join(dir, name)` for a single plain name. */
  function JoinPath(dir: Path, name: Segment): (p: Path)
    ensures Dirname(p) == dir && Basename(p) == name
  {
    dir + [name]
  }

  /** `fs.existsSync(p) && fs.statSync(p).isFile()`. */
  predicate IsFile(fs: FileSystem, p: Path)
  {
    p in fs && fs[p].File?
  }

  /** `fs.readFileSync(p, 'utf-8')`. */
  function ReadFile(fs: FileSystem, p: Path): (r: Result<string>)
    ensures r.Ok? <==> IsFile(fs, p)
    ensures r.Ok? ==> r.value == fs[p].content
  {
    if p !in fs then Err(NoEntry(p))
    else if fs[p].Dir? then Err(IsADirectory(p))
    else Ok(fs[p].content)
  }

  /** `fs.readdirSync(p)`. */
  function ReadDir(fs: FileSystem, p: Path): (r: Result<seq<string>>)
    ensures r.Ok? <==> p in fs && fs[p].Dir?
    ensures r.Ok? ==> r.value == fs[p].listing
  {
    if p !in fs then Err(NoEntry(p))
    else if fs[p].File? then Err(NotADirectory(p))
    else Ok(fs[p].listing)
  }

  datatype Result<+T> = Ok(value: T) | Err(error: Error)

  /** `path.normalize`/`path.resolve` of a '/'-separated string: the non-empty
      segments other than `.`; `..` and the working directory are not modelled. */
  function ParsePath(s: string): (p: Path)
    ensures forall i :: 0 <= i < |p| ==> p[i] != "" && '/' !in p[i]
    decreases |s|
  {
    if |s| == 0 then []
    else
      var n := SegmentLength(s);
      var seg := s[..n];
      var rest := if n < |s| then ParsePath(s[n + 1..]) else [];
      if seg == "" || seg == "." then rest else [seg] + rest
  }

  /** Length of the leading run of non-'/' characters. */
  function SegmentLength(s: string): (n: nat)
    ensures n <= |s|
    ensures forall i :: 0 <= i < n ==> s[i] != '/'
    ensures n < |s| ==> s[n] == '/'
  {
    if |s| == 0 || s[0] == '/' then 0 else 1 + SegmentLength(s[1..])
  }

}
