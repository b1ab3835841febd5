/** Helpers of lib/utils.js: JavaScript values and objects as the generator
    uses them, the `defaults` merge, and the string helpers for file names
    (`extname`, `stripExtension`, `basename`, `hashFilename`). */
module Utils {

  /** The JavaScript values that appear in options objects and log calls. */
  datatype Value =
    | Undefined
    | Null
    | Bool(b: bool)
    | Num(n: int)
    | Str(s: string)
    | StrList(items: seq<string>)

  /** JavaScript truthiness: `undefined`, `null`, `false`, `0` and `""` are
      falsy; every array is truthy, even an empty one. */
  predicate Truthy(v: Value)
  {
    match v
    case Undefined => false
    case Null => false
    case Bool(b) => b
    case Num(n) => n != 0
    case Str(s) => s != ""
    case StrList(_) => true
  }

  /** `String(v)`, as used by string concatenation and `Array.join`. */
  function ToStr(v: Value): string
  {
    match v
    case Undefined => "undefined"
    case Null => "null"
    case Bool(b) => if b then "true" else "false"
    case Num(n) => if n < 0 then "-" + NatToString(-n) else NatToString(n)
    case Str(s) => s
    case StrList(items) => Join(items, ",")
  }

  function NatToString(n: nat): (s: string)
    ensures |s| >= 1
    ensures forall i :: 0 <= i < |s| ==> '0' <= s[i] <= '9'
  {
    var d := ['0' + (n % 10) as char];
    if n < 10 then d else NatToString(n / 10) + d
  }

  /** A JavaScript object that the source mutates in place: its own
      enumerable properties. */
  class Dict {
    var props: map<string, Value>

    constructor (props: map<string, Value>)
      ensures this.props == props
    {
      this.props := props;
    }
  }

  /** Property access `target[key]`: `undefined` when the key is absent. */
  function Get(props: map<string, Value>, key: string): (v: Value)
    ensures key !in props ==> v == Undefined
    ensures key in props ==> v == props[key]
  {
    if key in props then props[key] else Undefined
  }

  /** `hasOP(target, key)`: whether `key` is an own property of `target`.
      A key that is not one reads as `undefined` (an own property may hold
      `undefined` too). */
  predicate HasOP(target: Dict, key: string): (b: bool)
    reads target
    ensures !b ==> Get(target.props, key) == Undefined
  {
    key in target.props
  }

  /** The object `defaults(target, defaults)` leaves behind: every key of the
      target keeps its value (even `undefined`), every other key of the
      defaults is added with its default value. */
  function WithDefaults(target: map<string, Value>, defaults: map<string, Value>): (r: map<string, Value>)
    ensures r.Keys == target.Keys + defaults.Keys
    ensures forall k :: k in target ==> r[k] == target[k]
    ensures forall k :: k in defaults && k !in target ==> r[k] == defaults[k]
  {
    map k | k in target.Keys + defaults.Keys :: if k in target then target[k] else defaults[k]
  }

  /** `defaults(target, defaults)`: copies each key of `defaults` that is not
      an own property of `target`, in place, and returns the same object. */
  method Defaults(target: Dict, defaults: map<string, Value>) returns (r: Dict)
    modifies target
    ensures r == target
    ensures target.props == WithDefaults(old(target.props), defaults)
  {
    var todo := defaults.Keys;
    while todo != {}
      invariant todo <= defaults.Keys
      invariant target.props.Keys == old(target.props).Keys + (defaults.Keys - todo)
      invariant forall k :: k in old(target.props) ==> target.props[k] == old(target.props)[k]
      invariant forall k :: k in defaults && k !in todo && k !in old(target.props) ==> target.props[k] == defaults[k]
      decreases todo
    {
      var key :| key in todo;
      if !HasOP(target, key) {
        target.props := target.props[key := defaults[key]];
      }
      todo := todo - {key};
    }
    r := target;
  }

  /** Applying the same defaults twice leaves what applying them once did. */
  lemma DefaultsIdempotent(target: map<string, Value>, defaults: map<string, Value>)
    ensures WithDefaults(WithDefaults(target, defaults), defaults) == WithDefaults(target, defaults)
  {
  }

  /** Index of the last occurrence of `c` in `s`, or -1. */
  function LastIndexOf(s: string, c: char): (r: int)
    ensures -1 <= r < |s|
    ensures r >= 0 ==> s[r] == c
    ensures forall j :: r < j < |s| ==> s[j] != c
  {
    if |s| == 0 then -1
    else if s[|s| - 1] == c then |s| - 1
    else LastIndexOf(s[..|s| - 1], c)
  }

  lemma {:induction false} LastIndexOfAt(s: string, c: char, i: nat)
    requires i < |s| && s[i] == c
    requires forall j :: i < j < |s| ==> s[j] != c
    ensures LastIndexOf(s, c) == i
  {
    if s[|s| - 1] != c {
      LastIndexOfAt(s[..|s| - 1], c, i);
    }
  }

  lemma {:induction false} LastIndexOfAbsent(s: string, c: char)
    requires c !in s
    ensures LastIndexOf(s, c) == -1
  {
    if |s| > 0 {
      assert s[|s| - 1] in s;
      LastIndexOfAbsent(s[..|s| - 1], c);
    }
  }

  /** `path.basename` of a '/'-separated string: what follows the last '/'. */
  function BaseName(s: string): (r: string)
    ensures '/' !in r
    ensures |r| <= |s| && r == s[|s| - |r|..]
    ensures |r| < |s| ==> s[|s| - |r| - 1] == '/'
  {
    s[LastIndexOf(s, '/') + 1..]
  }

  /** Everything up to a '/' can be dropped without changing the basename. */
  lemma BaseNameAfter(s: string, n: nat)
    requires n < |s| && s[n] == '/'
    ensures BaseName(s) == BaseName(s[n + 1..])
  {
    var r, r' := BaseName(s), BaseName(s[n + 1..]);
    assert r' == s[|s| - |r'|..];
  }

  /** `path.extname`: the suffix of the final segment from its last '.', or
      `""` when that segment has no '.' or the '.' is its first character.
      An extension is a suffix of the path; a non-empty one starts with its
      '.' and lies within the final segment. */
  function Extname(s: string): (r: string)
    ensures |r| <= |s| && r == s[|s| - |r|..]
    ensures r != [] ==> r[0] == '.' && '/' !in r
  {
    ExtnameBeforeShape(s, |s|);
    ExtnameBefore(s, |s|)
  }

  /** The scan of `path.extname` from position `i` towards the start: the
      first '.' met gives the extension, unless it starts its segment; a
      '/' met first means there is none. */
  function ExtnameBefore(s: string, i: nat): (r: string)
    requires i <= |s|
    ensures |r| <= |s|
  {
    if i == 0 || s[i - 1] == '/' then ""
    else if s[i - 1] == '.' then (if i == 1 || s[i - 2] == '/' then "" else s[i - 1..])
    else ExtnameBefore(s, i - 1)
  }

  /** Scanning from `i` is scanning from `j` when nothing in between is a
      '.' or a '/'. */
  lemma {:induction false} ExtnameBeforeSkip(s: string, i: nat, j: nat)
    requires j <= i <= |s|
    requires forall k :: j <= k < i ==> s[k] != '/' && s[k] != '.'
    ensures ExtnameBefore(s, i) == ExtnameBefore(s, j)
    decreases i
  {
    if j < i {
      ExtnameBeforeSkip(s, i - 1, j);
    }
  }

  lemma {:induction false} ExtnameBeforeShape(s: string, i: nat)
    requires i <= |s|
    requires forall k :: i <= k < |s| ==> s[k] != '/'
    ensures var r := ExtnameBefore(s, i);
      && r == s[|s| - |r|..]
      && (r != [] ==> r[0] == '.' && '/' !in r)
    decreases i
  {
    if i == 0 || s[i - 1] == '/' {
    } else if s[i - 1] == '.' {
      if !(i == 1 || s[i - 2] == '/') {
        var r := s[i - 1..];
        forall k | 0 <= k < |r| ensures r[k] != '/' {
          assert r[k] == s[i - 1 + k];
        }
      }
    } else {
      ExtnameBeforeShape(s, i - 1);
    }
  }

  /** `stripExtension(p)`: `p` without its `extname`; putting the extension
      back gives the path again. */
  function StripExtension(p: string): (r: string)
    ensures r + Extname(p) == p
  {
    p[..|p| - |Extname(p)|]
  }

  /** A plain file name `stem.ext` (no '/' anywhere, a non-empty stem, an
      extension without '.') has extension `.ext` and strips back to `stem`. */
  lemma {:induction false} ExtnameOfName(stem: string, ext: string)
    requires stem != "" && '/' !in stem && '/' !in ext && '.' !in ext
    ensures Extname(stem + "." + ext) == "." + ext
    ensures StripExtension(stem + "." + ext) == stem
  {
    var s := stem + "." + ext;
    forall k | |stem| + 1 <= k < |s| ensures s[k] != '/' && s[k] != '.' {
      assert s[k] == ext[k - |stem| - 1];
    }
    ExtnameBeforeSkip(s, |s|, |stem| + 1);
    assert s[|stem|] == '.';
    assert s[|stem| - 1] == stem[|stem| - 1];
    assert s[|stem|..] == "." + ext;
    assert s[..|s| - |ext| - 1] == stem;
  }

  /** A name without any '.' has no extension. */
  lemma {:induction false} ExtnameNoDot(s: string)
    requires '.' !in s
    ensures Extname(s) == ""
    ensures StripExtension(s) == s
  {
    var i := |s|;
    while i > 0 && s[i - 1] != '/'
      invariant 0 <= i <= |s|
      invariant ExtnameBefore(s, i) == Extname(s)
      decreases i
    {
      assert s[i - 1] in s;
      i := i - 1;
    }
  }

  /** `hashFilename(filename, withoutExtension)`: the hash of the basename,
      optionally without its extension. */
  function HashFilename(filename: string, withoutExtension: bool, makeHash: string -> string): (h: string)
    ensures exists name :: '/' !in name && h == makeHash(name)
  {
    var base := BaseName(filename);
    var name := if withoutExtension then StripExtension(base) else base;
    assert forall i :: 0 <= i < |name| ==> name[i] == base[i];
    makeHash(name)
  }

  lemma BaseNameIdempotent(s: string)
    ensures BaseName(BaseName(s)) == BaseName(s)
  {
    LastIndexOfAbsent(BaseName(s), '/');
    assert BaseName(s)[0..] == BaseName(s);
  }

  /** The hash depends only on the basename: every path ending in the same
      file name hashes alike. */
  lemma HashFilenameBasename(filename: string, withoutExtension: bool, makeHash: string -> string)
    ensures HashFilename(filename, withoutExtension, makeHash)
         == HashFilename(BaseName(filename), withoutExtension, makeHash)
  {
    BaseNameIdempotent(filename);
  }

  /** `Array.prototype.join(sep)` over strings. */
  function Join(items: seq<string>, sep: string): string
  {
    if |items| == 0 then ""
    else if |items| == 1 then items[0]
    else items[0] + sep + Join(items[1..], sep)
  }

  /** `String.prototype.split(c)` for a single-character separator: always at
      least one piece. */
  function Split(s: string, c: char): (parts: seq<string>)
    ensures |parts| >= 1
    ensures forall i :: 0 <= i < |parts| ==> c !in parts[i]
    decreases |s|
  {
    var n := IndexOf(s, c);
    if n == |s| then [s] else [s[..n]] + Split(s[n + 1..], c)
  }

  /** Index of the first `c` in `s`, or `|s|`. */
  function IndexOf(s: string, c: char): (n: nat)
    ensures n <= |s|
    ensures forall i :: 0 <= i < n ==> s[i] != c
    ensures n < |s| ==> s[n] == c
  {
    if |s| == 0 || s[0] == c then 0 else 1 + IndexOf(s[1..], c)
  }

  lemma {:induction false} IndexOfPrefix(a: string, b: string, c: char)
    requires c !in a
    ensures IndexOf(a + [c] + b, c) == |a|
  {
    if |a| > 0 {
      assert (a + [c] + b)[1..] == a[1..] + [c] + b;
      assert a[0] in a;
      IndexOfPrefix(a[1..], b, c);
    }
  }

  /** A piece without the separator, then the separator, splits off first. */
  lemma SplitFront(a: string, b: string, c: char)
    requires c !in a
    ensures Split(a + [c] + b, c) == [a] + Split(b, c)
  {
    var s := a + [c] + b;
    IndexOfPrefix(a, b, c);
    assert s[..|a|] == a;
    assert s[|a| + 1..] == b;
  }

  lemma {:induction false} IndexOfAbsent(a: string, c: char)
    requires c !in a
    ensures IndexOf(a, c) == |a|
  {
    if |a| > 0 {
      assert a[0] in a;
      IndexOfAbsent(a[1..], c);
    }
  }

  /** Splitting a join on a separator that occurs in no piece gives back the
      pieces: the lines a builder joins with '\n' can be read back one by one. */
  lemma {:induction false} SplitJoin(items: seq<string>, c: char)
    requires |items| >= 1
    requires forall i :: 0 <= i < |items| ==> c !in items[i]
    ensures Split(Join(items, [c]), c) == items
  {
    if |items| == 1 {
      IndexOfAbsent(items[0], c);
    } else {
      var rest := Join(items[1..], [c]);
      IndexOfPrefix(items[0], rest, c);
      var s := items[0] + [c] + rest;
      assert s[|items[0]| + 1..] == rest;
      assert s[..|items[0]|] == items[0];
      SplitJoin(items[1..], c);
    }
  }
}
