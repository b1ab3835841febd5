/** The watcher registry of lib/monitor.js: a module-level map from a resolved
    path to an entry holding the path, the callbacks to run on a change and
    the OS watch serving them. OS watches are opaque handles numbered in the
    order they are opened; closing one is recorded in a ghost log. */
module Monitor {
  import opened Wrappers
  import opened FileSystem

  /** A change callback, known only by identity. */
  type Callback = nat

  /** An OS watch (`watchr.watch`), known only by identity. */
  type Handle = nat

  datatype Entry = Entry(path: Path, callbacks: seq<Callback>, monitor: Handle)

  /** The registry as a value: keys in insertion order (the iteration order of
      `collections/map`), the entries, the watches closed so far in closing
      order, and the next handle to hand out. */
  datatype Registry = Registry(keys: seq<Path>, entries: map<Path, Entry>, closed: seq<Handle>, nextHandle: nat)

  predicate Distinct<T(==)>(s: seq<T>)
  {
    forall i, j :: 0 <= i < j < |s| ==> s[i] != s[j]
  }

  /** The registry invariant: keys are listed once each and exactly cover the
      entries, every key is the `path` of the entry stored under it, open
      watches belong to one entry each, and a closed watch is closed once and
      never belongs to an entry again. */
  ghost predicate ValidState(s: Registry)
  {
    && Distinct(s.keys)
    && (forall p :: p in s.keys <==> p in s.entries)
    && Keyed(s.entries)
    && (forall p :: p in s.entries ==> s.entries[p].monitor < s.nextHandle)
    && (forall p, q :: p in s.entries && q in s.entries && s.entries[p].monitor == s.entries[q].monitor ==> p == q)
    && Distinct(s.closed)
    && (forall i :: 0 <= i < |s.closed| ==> s.closed[i] < s.nextHandle)
    && (forall i, p :: 0 <= i < |s.closed| && p in s.entries ==> s.entries[p].monitor != s.closed[i])
  }

  /** Every key is the `path` of the entry stored under it. */
  ghost predicate Keyed(e: map<Path, Entry>)
  {
    forall p :: p in e ==> e[p].path == p
  }

  /** `ks` without `p`, order kept. */
  function Without(ks: seq<Path>, p: Path): (r: seq<Path>)
    ensures forall x :: x in r <==> x in ks && x != p
  {
    if |ks| == 0 then []
    else (if ks[0] == p then [] else [ks[0]]) + Without(ks[1..], p)
  }

  lemma {:induction false} WithoutDistinct(ks: seq<Path>, p: Path)
    requires Distinct(ks)
    ensures Distinct(Without(ks, p))
  {
    if |ks| > 0 {
      assert Distinct(ks[1..]) by {
        forall i, j | 0 <= i < j < |ks| - 1 ensures ks[1..][i] != ks[1..][j] {
          assert ks[1..][i] == ks[i + 1] && ks[1..][j] == ks[j + 1];
        }
      }
      WithoutDistinct(ks[1..], p);
      assert ks[0] !in ks[1..] by {
        forall i | 0 <= i < |ks| - 1 ensures ks[1..][i] != ks[0] {
          assert ks[1..][i] == ks[i + 1];
        }
      }
    }
  }

  /** `unmonitor(filepath)`: close the entry's watch and delete its key; an
      unregistered path changes nothing. */
  function Unregister(s: Registry, p: Path): (t: Registry)
  {
    if p !in s.entries then s
    else s.(keys := Without(s.keys, p), entries := s.entries - {p}, closed := s.closed + [s.entries[p].monitor])
  }

  /** Unregistering keeps the invariant, closes the watch of that entry, which
      was open until then, and leaves every other entry as it was. */
  lemma UnregisterValid(s: Registry, p: Path)
    requires ValidState(s)
    ensures ValidState(Unregister(s, p))
    ensures p in s.entries ==> s.entries[p].monitor !in s.closed && s.entries[p].monitor in Unregister(s, p).closed
    ensures p !in Unregister(s, p).entries
    ensures forall q :: q != p ==> (q in Unregister(s, p).entries <==> q in s.entries)
    ensures forall q :: q != p && q in s.entries ==> Unregister(s, p).entries[q] == s.entries[q]
  {
    if p in s.entries {
      var t := Unregister(s, p);
      WithoutDistinct(s.keys, p);
      var h := s.entries[p].monitor;
      forall i | 0 <= i < |t.closed| - 1 ensures t.closed[i] != h {
        assert t.closed[i] == s.closed[i];
      }
      forall i, q | 0 <= i < |t.closed| && q in t.entries ensures t.entries[q].monitor != t.closed[i] {
        if i == |s.closed| {
          assert t.closed[i] == h;
        } else {
          assert t.closed[i] == s.closed[i];
        }
      }
    }
  }

  /** A new entry for `fp`: no callbacks yet and a freshly opened watch. */
  function Register(s: Registry, fp: Path): (t: Registry)
  {
    s.(keys := s.keys + [fp], entries := s.entries[fp := Entry(fp, [], s.nextHandle)], nextHandle := s.nextHandle + 1)
  }

  lemma RegisterValid(s: Registry, fp: Path)
    requires ValidState(s) && fp !in s.entries
    ensures ValidState(Register(s, fp))
  {
    var t := Register(s, fp);
    forall i, j | 0 <= i < j < |t.keys| ensures t.keys[i] != t.keys[j] {
      if j == |s.keys| {
        assert t.keys[i] == s.keys[i];
        assert s.keys[i] in s.keys;
      }
    }
  }

  /** Append `cbs` to the callbacks of the entry under `k`. */
  function AppendCallbacks(s: Registry, k: Path, cbs: seq<Callback>): (t: Registry)
    requires k in s.entries
  {
    s.(entries := s.entries[k := s.entries[k].(callbacks := s.entries[k].callbacks + cbs)])
  }

  lemma AppendValid(s: Registry, k: Path, cbs: seq<Callback>)
    requires ValidState(s) && k in s.entries
    ensures ValidState(AppendCallbacks(s, k, cbs))
  {
  }

  /** The entry `monitor(fp)` adds to: the parent directory's entry when there
      is one, else the entry of `fp` itself (created when missing). */
  function Chosen(s: Registry, fp: Path): Path
  {
    if Dirname(fp) in s.entries then Dirname(fp) else fp
  }

  /** One turn of the `watchers.forEach` loop of `monitor(dir)`: an entry whose
      path lies directly in `dir` hands its callbacks to the chosen entry and
      is unregistered; a key already gone is not visited. */
  function AbsorbStep(s: Registry, dir: Path, chosen: Path, k: Path): (t: Registry)
    requires chosen in s.entries && Dirname(chosen) != dir
    ensures chosen in t.entries
  {
    if k in s.entries && Dirname(s.entries[k].path) == dir then
      Unregister(AppendCallbacks(s, chosen, s.entries[k].callbacks), s.entries[k].path)
    else s
  }

  /** The `watchers.forEach` loop over the keys `ks`, in order. */
  function Absorb(s: Registry, ks: seq<Path>, dir: Path, chosen: Path): (t: Registry)
    requires chosen in s.entries && Dirname(chosen) != dir
    ensures chosen in t.entries
  {
    if |ks| == 0 then s
    else AbsorbStep(Absorb(s, ks[..|ks| - 1], dir, chosen), dir, chosen, ks[|ks| - 1])
  }

  /** The callbacks the loop gathers from the entries of `ks` directly in `dir`, in order. */
  function Gathered(ks: seq<Path>, e: map<Path, Entry>, dir: Path): seq<Callback>
  {
    if |ks| == 0 then []
    else
      var k := ks[|ks| - 1];
      Gathered(ks[..|ks| - 1], e, dir) + (if k in e && Dirname(k) == dir then e[k].callbacks else [])
  }

  /** The watches the loop closes, in order. */
  function ClosedBy(ks: seq<Path>, e: map<Path, Entry>, dir: Path): seq<Handle>
  {
    if |ks| == 0 then []
    else
      var k := ks[|ks| - 1];
      ClosedBy(ks[..|ks| - 1], e, dir) + (if k in e && Dirname(k) == dir then [e[k].monitor] else [])
  }

  /** One turn of the loop: a direct child `k` of `dir` is gone, its watch
      closed and its callbacks appended to the chosen entry; nothing else
      changes. */
  lemma AbsorbStepEffect(u: Registry, dir: Path, chosen: Path, k: Path)
    requires Keyed(u.entries)
    requires chosen in u.entries && Dirname(chosen) != dir
    ensures var t := AbsorbStep(u, dir, chosen, k);
      && Keyed(t.entries)
      && (forall x :: x in t.entries <==> x in u.entries && !(x == k && Dirname(k) == dir))
      && (forall x :: x in t.entries && x != chosen ==> t.entries[x] == u.entries[x])
      && t.entries[chosen] == u.entries[chosen].(callbacks := u.entries[chosen].callbacks
           + (if k in u.entries && Dirname(k) == dir then u.entries[k].callbacks else []))
      && t.closed == u.closed + (if k in u.entries && Dirname(k) == dir then [u.entries[k].monitor] else [])
      && t.nextHandle == u.nextHandle
  {
    if k in u.entries {
      assert u.entries[k].path == k;
    }
  }

  /** The loop keeps the registry invariant. */
  lemma {:induction false} AbsorbValid(s: Registry, ks: seq<Path>, dir: Path, chosen: Path)
    requires ValidState(s)
    requires chosen in s.entries && Dirname(chosen) != dir
    ensures ValidState(Absorb(s, ks, dir, chosen))
    decreases |ks|
  {
    if |ks| > 0 {
      AbsorbValid(s, ks[..|ks| - 1], dir, chosen);
      var u := Absorb(s, ks[..|ks| - 1], dir, chosen);
      var k := ks[|ks| - 1];
      if k in u.entries && Dirname(u.entries[k].path) == dir {
        AppendValid(u, chosen, u.entries[k].callbacks);
        UnregisterValid(AppendCallbacks(u, chosen, u.entries[k].callbacks), u.entries[k].path);
      }
    }
  }

  /** Removes the last element of a sequence of distinct keys. */
  lemma DistinctInit(ks: seq<Path>)
    requires Distinct(ks) && |ks| > 0
    ensures Distinct(ks[..|ks| - 1])
    ensures ks[|ks| - 1] !in ks[..|ks| - 1]
    ensures ks == ks[..|ks| - 1] + [ks[|ks| - 1]]
  {
    var n := |ks| - 1;
    forall i | 0 <= i < n ensures ks[..n][i] != ks[n] {
      assert ks[..n][i] == ks[i];
    }
  }

  /** What the loop over distinct keys `ks` does to the entries: those of `ks`
      directly in `dir` are gone, and every other entry except the chosen one
      is untouched. */
  lemma {:induction false} AbsorbEntries(s: Registry, ks: seq<Path>, dir: Path, chosen: Path)
    requires Keyed(s.entries) && Distinct(ks)
    requires chosen in s.entries && Dirname(chosen) != dir
    ensures Keyed(Absorb(s, ks, dir, chosen).entries)
    ensures forall k :: k in Absorb(s, ks, dir, chosen).entries <==> k in s.entries && !(k in ks && Dirname(k) == dir)
    ensures forall k :: k in Absorb(s, ks, dir, chosen).entries && k != chosen ==>
      Absorb(s, ks, dir, chosen).entries[k] == s.entries[k]
    decreases |ks|
  {
    if |ks| > 0 {
      DistinctInit(ks);
      AbsorbEntries(s, ks[..|ks| - 1], dir, chosen);
      AbsorbStepEffect(Absorb(s, ks[..|ks| - 1], dir, chosen), dir, chosen, ks[|ks| - 1]);
    }
  }

  /** The loop keeps every entry keyed by its path, and a direct child of
      `dir` that it has not visited yet is still registered as it was. */
  lemma AbsorbUnvisited(s: Registry, ks: seq<Path>, dir: Path, chosen: Path, k: Path)
    requires Keyed(s.entries) && Distinct(ks) && k !in ks
    requires chosen in s.entries && Dirname(chosen) != dir
    ensures var u := Absorb(s, ks, dir, chosen);
      && Keyed(u.entries)
      && (k in s.entries && Dirname(k) == dir <==> k in u.entries && Dirname(k) == dir)
      && (k in s.entries && Dirname(k) == dir ==> u.entries[k] == s.entries[k])
  {
    AbsorbEntries(s, ks, dir, chosen);
  }

  /** The loop appends the callbacks of the direct children of `dir`, in key
      order, to the chosen entry. */
  lemma {:induction false} AbsorbChosen(s: Registry, ks: seq<Path>, dir: Path, chosen: Path)
    requires Keyed(s.entries) && Distinct(ks)
    requires chosen in s.entries && Dirname(chosen) != dir
    ensures Absorb(s, ks, dir, chosen).entries[chosen] ==
      s.entries[chosen].(callbacks := s.entries[chosen].callbacks + Gathered(ks, s.entries, dir))
    decreases |ks|
  {
    if |ks| > 0 {
      var n := |ks| - 1;
      var ks' := ks[..n];
      var k := ks[n];
      DistinctInit(ks);
      AbsorbChosen(s, ks', dir, chosen);
      AbsorbUnvisited(s, ks', dir, chosen, k);
      var u := Absorb(s, ks', dir, chosen);
      AbsorbStepEffect(u, dir, chosen, k);
      var child := k in s.entries && Dirname(k) == dir;
      var extra := if child then s.entries[k].callbacks else [];
      assert Gathered(ks, s.entries, dir) == Gathered(ks', s.entries, dir) + extra;
      var base := s.entries[chosen].callbacks;
      assert (base + Gathered(ks', s.entries, dir)) + extra == base + (Gathered(ks', s.entries, dir) + extra);
      var t := AbsorbStep(u, dir, chosen, k);
      assert Absorb(s, ks, dir, chosen) == t;
      assert t.entries[chosen] == u.entries[chosen].(callbacks := u.entries[chosen].callbacks + extra);
    }
  }

  /** The loop closes the watches of the direct children of `dir`, in key
      order, and opens none. */
  lemma {:induction false} AbsorbClosed(s: Registry, ks: seq<Path>, dir: Path, chosen: Path)
    requires Keyed(s.entries) && Distinct(ks)
    requires chosen in s.entries && Dirname(chosen) != dir
    ensures Absorb(s, ks, dir, chosen).closed == s.closed + ClosedBy(ks, s.entries, dir)
    ensures Absorb(s, ks, dir, chosen).nextHandle == s.nextHandle
    decreases |ks|
  {
    if |ks| > 0 {
      var n := |ks| - 1;
      var ks' := ks[..n];
      var k := ks[n];
      DistinctInit(ks);
      AbsorbClosed(s, ks', dir, chosen);
      AbsorbUnvisited(s, ks', dir, chosen, k);
      var u := Absorb(s, ks', dir, chosen);
      AbsorbStepEffect(u, dir, chosen, k);
      var child := k in s.entries && Dirname(k) == dir;
      var extra := if child then [s.entries[k].monitor] else [];
      assert ClosedBy(ks, s.entries, dir) == ClosedBy(ks', s.entries, dir) + extra;
      assert (s.closed + ClosedBy(ks', s.entries, dir)) + extra == s.closed + (ClosedBy(ks', s.entries, dir) + extra);
    }
  }

  /** `monitor(fp, cb)` on a path that exists, `isDir` telling whether it is a
      directory: find or create the entry, absorb the entries of the
      directory's direct children, then append `cb`. */
  function Monitored(s: Registry, isDir: bool, fp: Path, cb: Callback): (t: Registry)
    requires fp != []
  {
    var chosen := Chosen(s, fp);
    var s1 := if chosen in s.entries then s else Register(s, fp);
    assert Dirname(chosen) != fp by {
      assert |Dirname(chosen)| < |fp|;
    }
    var s2 := if isDir then Absorb(s1, s1.keys, fp, chosen) else s1;
    AppendCallbacks(s2, chosen, [cb])
  }

  /** The chosen entry and the watch count: the parent directory's entry is
      preferred over the path's own, exactly one watch is opened when
      neither exists, and the chosen entry's callbacks are its earlier ones
      in order, then the absorbed ones, then `cb` last. */
  lemma MonitoredChosen(s: Registry, isDir: bool, fp: Path, cb: Callback)
    requires ValidState(s) && fp != []
    ensures Dirname(fp) in s.entries ==> Chosen(s, fp) == Dirname(fp)
    ensures Dirname(fp) !in s.entries && fp in s.entries ==> Chosen(s, fp) == fp
    ensures Chosen(s, fp) in Monitored(s, isDir, fp, cb).entries
    ensures Monitored(s, isDir, fp, cb).nextHandle ==
      if Dirname(fp) in s.entries || fp in s.entries then s.nextHandle else s.nextHandle + 1
    ensures Monitored(s, isDir, fp, cb).entries[Chosen(s, fp)].callbacks ==
      (if Chosen(s, fp) in s.entries then s.entries[Chosen(s, fp)].callbacks else [])
      + (if isDir then Gathered(s.keys, s.entries, fp) else []) + [cb]
  {
    var chosen := Chosen(s, fp);
    var s1 := if chosen in s.entries then s else Register(s, fp);
    assert |Dirname(chosen)| < |fp|;
    if chosen !in s.entries {
      RegisterValid(s, fp);
    }
    if isDir {
      AbsorbChosen(s1, s1.keys, fp, chosen);
      AbsorbClosed(s1, s1.keys, fp, chosen);
      if chosen !in s.entries {
        GatheredIgnoresOther(s.keys, s.entries, fp, Entry(fp, [], s.nextHandle));
        assert Dirname(fp) != fp;
      }
    }
  }

  /** A key that is not a direct child of `dir` contributes nothing to what is gathered. */
  lemma {:induction false} GatheredIgnoresOther(ks: seq<Path>, e: map<Path, Entry>, dir: Path, v: Entry)
    requires v.path !in ks && Dirname(v.path) != dir
    ensures Gathered(ks + [v.path], e[v.path := v], dir) == Gathered(ks, e, dir)
    ensures Gathered(ks, e[v.path := v], dir) == Gathered(ks, e, dir)
    decreases |ks|
  {
    assert (ks + [v.path])[..|ks|] == ks;
    if |ks| > 0 {
      assert ks[..|ks| - 1] + [ks[|ks| - 1]] == ks;
      GatheredIgnoresOther(ks[..|ks| - 1], e, dir, v);
    }
  }

  /** Entries neither chosen nor absorbed are left untouched; a directory
      absorbs every entry directly inside it, closing its watch. */
  lemma MonitoredOthers(s: Registry, isDir: bool, fp: Path, cb: Callback, k: Path)
    requires ValidState(s) && fp != [] && k in s.entries
    ensures k != Chosen(s, fp) && !(isDir && Dirname(k) == fp) ==>
      k in Monitored(s, isDir, fp, cb).entries && Monitored(s, isDir, fp, cb).entries[k] == s.entries[k]
    ensures isDir && Dirname(k) == fp ==>
      k !in Monitored(s, isDir, fp, cb).entries && s.entries[k].monitor in Monitored(s, isDir, fp, cb).closed
  {
    var chosen := Chosen(s, fp);
    var s1 := if chosen in s.entries then s else Register(s, fp);
    assert |Dirname(chosen)| < |fp|;
    if chosen !in s.entries {
      RegisterValid(s, fp);
    }
    if isDir {
      AbsorbEntries(s1, s1.keys, fp, chosen);
      AbsorbClosed(s1, s1.keys, fp, chosen);
      if Dirname(k) == fp {
        assert k in s1.keys;
        ClosedByHas(s1.keys, s1.entries, fp, k);
      }
    }
  }

  lemma {:induction false} ClosedByHas(ks: seq<Path>, e: map<Path, Entry>, dir: Path, k: Path)
    requires k in ks && k in e && Dirname(k) == dir
    ensures e[k].monitor in ClosedBy(ks, e, dir)
    decreases |ks|
  {
    var n := |ks| - 1;
    if ks[n] != k {
      assert ks == ks[..n] + [ks[n]];
      ClosedByHas(ks[..n], e, dir, k);
    }
  }

  lemma MonitoredValid(s: Registry, isDir: bool, fp: Path, cb: Callback)
    requires ValidState(s) && fp != []
    ensures ValidState(Monitored(s, isDir, fp, cb))
  {
    var chosen := Chosen(s, fp);
    var s1 := if chosen in s.entries then s else Register(s, fp);
    assert |Dirname(chosen)| < |fp|;
    if chosen !in s.entries {
      RegisterValid(s, fp);
    }
    var s2 := if isDir then Absorb(s1, s1.keys, fp, chosen) else s1;
    if isDir {
      AbsorbValid(s1, s1.keys, fp, chosen);
    }
    AppendValid(s2, chosen, [cb]);
  }

  // ---------------------------------------------------------------------------
  // No callback is lost

  /** Every callback registered anywhere, with multiplicity. */
  ghost function AllCallbacks(e: map<Path, Entry>): multiset<Callback>
    decreases |e|
  {
    if |e| == 0 then multiset{}
    else
      var k :| k in e;
      multiset(e[k].callbacks) + AllCallbacks(e - {k})
  }

  lemma {:induction false} AllCallbacksRemove(e: map<Path, Entry>, k: Path)
    requires k in e
    ensures AllCallbacks(e) == multiset(e[k].callbacks) + AllCallbacks(e - {k})
    decreases |e|
  {
    var j :| j in e && AllCallbacks(e) == multiset(e[j].callbacks) + AllCallbacks(e - {j});
    if j != k {
      assert (e - {j}) - {k} == (e - {k}) - {j};
      AllCallbacksRemove(e - {j}, k);
      AllCallbacksRemove(e - {k}, j);
    }
  }

  lemma AllCallbacksReplace(e: map<Path, Entry>, k: Path, v: Entry)
    requires k in e
    ensures AllCallbacks(e[k := v]) == multiset(v.callbacks) + AllCallbacks(e - {k})
    ensures AllCallbacks(e) == multiset(e[k].callbacks) + AllCallbacks(e - {k})
  {
    var m := e[k := v];
    AllCallbacksRemove(m, k);
    assert m[k] == v;
    assert m - {k} == e - {k};
    AllCallbacksRemove(e, k);
  }

  lemma AllCallbacksAdd(e: map<Path, Entry>, k: Path, v: Entry)
    requires k !in e
    ensures AllCallbacks(e[k := v]) == AllCallbacks(e) + multiset(v.callbacks)
  {
    AllCallbacksRemove(e[k := v], k);
    assert e[k := v] - {k} == e;
  }

  /** Moving `moved` in front of `before` and `rest` changes nothing, and
      then `moved` cancels out. */
  lemma MultisetMove(x: multiset<Callback>, u: multiset<Callback>, before: multiset<Callback>,
                     moved: multiset<Callback>, rest: multiset<Callback>)
    requires moved + x == (before + moved) + rest
    requires u == before + rest
    ensures x == u
  {
    forall c ensures x[c] == u[c] {
      assert (moved + x)[c] == ((before + moved) + rest)[c];
    }
  }

  /** One turn of the loop moves callbacks between entries and drops none. */
  lemma AbsorbStepKeeps(u: Registry, dir: Path, chosen: Path, k: Path)
    requires Keyed(u.entries)
    requires chosen in u.entries && Dirname(chosen) != dir
    ensures AllCallbacks(AbsorbStep(u, dir, chosen, k).entries) == AllCallbacks(u.entries)
  {
    if k in u.entries && Dirname(u.entries[k].path) == dir {
      assert u.entries[k].path == k && k != chosen;
      var moved := multiset(u.entries[k].callbacks);
      var before := multiset(u.entries[chosen].callbacks);
      var merged := u.entries[chosen].(callbacks := u.entries[chosen].callbacks + u.entries[k].callbacks);
      var w := u.entries[chosen := merged];
      var t := AbsorbStep(u, dir, chosen, k).entries;
      assert t == w - {k};
      AllCallbacksRemove(w, k);
      assert w[k] == u.entries[k];
      AllCallbacksReplace(u.entries, chosen, merged);
      assert multiset(merged.callbacks) == before + moved;
      MultisetMove(AllCallbacks(t), AllCallbacks(u.entries), before, moved, AllCallbacks(u.entries - {chosen}));
    }
  }


  lemma {:induction false} AbsorbKeeps(s: Registry, ks: seq<Path>, dir: Path, chosen: Path)
    requires Keyed(s.entries) && Distinct(ks)
    requires chosen in s.entries && Dirname(chosen) != dir
    ensures AllCallbacks(Absorb(s, ks, dir, chosen).entries) == AllCallbacks(s.entries)
    decreases |ks|
  {
    if |ks| > 0 {
      var n := |ks| - 1;
      DistinctInit(ks);
      AbsorbKeeps(s, ks[..n], dir, chosen);
      AbsorbEntries(s, ks[..n], dir, chosen);
      AbsorbStepKeeps(Absorb(s, ks[..n], dir, chosen), dir, chosen, ks[n]);
    }
  }

  lemma AppendKeeps(s: Registry, k: Path, cbs: seq<Callback>)
    requires k in s.entries
    ensures AllCallbacks(AppendCallbacks(s, k, cbs).entries) == AllCallbacks(s.entries) + multiset(cbs)
  {
    var t := AppendCallbacks(s, k, cbs);
    AllCallbacksReplace(s.entries, k, t.entries[k]);
    assert multiset(t.entries[k].callbacks) == multiset(s.entries[k].callbacks) + multiset(cbs);
  }

  /** No callback is lost when entries merge: after `monitor(fp, cb)` the
      registry holds exactly the callbacks it held before, plus `cb`. */
  lemma MonitoredKeepsCallbacks(s: Registry, isDir: bool, fp: Path, cb: Callback)
    requires ValidState(s) && fp != []
    ensures AllCallbacks(Monitored(s, isDir, fp, cb).entries) == AllCallbacks(s.entries) + multiset{cb}
  {
    var chosen := Chosen(s, fp);
    var s1 := if chosen in s.entries then s else Register(s, fp);
    assert |Dirname(chosen)| < |fp|;
    if chosen !in s.entries {
      RegisterValid(s, fp);
      AllCallbacksAdd(s.entries, fp, Entry(fp, [], s.nextHandle));
    }
    assert AllCallbacks(s1.entries) == AllCallbacks(s.entries);
    var s2 := if isDir then Absorb(s1, s1.keys, fp, chosen) else s1;
    if isDir {
      AbsorbKeeps(s1, s1.keys, fp, chosen);
    }
    assert AllCallbacks(s2.entries) == AllCallbacks(s.entries);
    AppendKeeps(s2, chosen, [cb]);
  }

  // ---------------------------------------------------------------------------
  // The registry object

  /** The module-level `watchers` map of lib/monitor.js. */
  class Watchers {
    var keys: seq<Path>
    var entries: map<Path, Entry>
    var nextHandle: nat
    /** The watches closed so far, in closing order. */
    ghost var closed: seq<Handle>

    ghost function State(): Registry
      reads this
    {
      Registry(keys, entries, closed, nextHandle)
    }

    ghost predicate Valid()
      reads this
    {
      ValidState(State())
    }

    constructor ()
      ensures State() == Registry([], map[], [], 0)
      ensures Valid()
    {
      keys := [];
      entries := map[];
      nextHandle := 0;
      closed := [];
    }

    /** `unmonitor(filepath)`. */
    method Unmonitor(fp: Path)
      modifies this
      ensures State() == Unregister(old(State()), fp)
      ensures old(Valid()) ==> Valid()
    {
      if Valid() {
        UnregisterValid(State(), fp);
      }
      if fp in entries {
        closed := closed + [entries[fp].monitor];
        keys := Without(keys, fp);
        entries := entries - {fp};
      }
    }

    /** The `watchers.forEach` loop of `monitor(dir)`, over the keys present
        when it starts. */
    method AbsorbChildren(dir: Path, chosen: Path)
      requires chosen in entries && Dirname(chosen) != dir
      modifies this
      ensures State() == Absorb(old(State()), old(keys), dir, chosen)
    {
      var ks := keys;
      ghost var s1 := State();
      for i := 0 to |ks|
        invariant State() == Absorb(s1, ks[..i], dir, chosen)
      {
        assert ks[..i + 1][..i] == ks[..i];
        AbsorbOne(ks[i], dir, chosen);
      }
      assert ks[..|ks|] == ks;
    }

    /** One turn of that loop: a child of `dir` hands over its callbacks and
        is unmonitored. */
    method AbsorbOne(k: Path, dir: Path, chosen: Path)
      requires chosen in entries && Dirname(chosen) != dir
      modifies this
      ensures State() == AbsorbStep(old(State()), dir, chosen, k)
    {
      if k in entries && Dirname(entries[k].path) == dir {
        var moved := entries[k].callbacks;
        var path := entries[k].path;
        entries := entries[chosen := entries[chosen].(callbacks := entries[chosen].callbacks + moved)];
        Unmonitor(path);
      }
    }

    /** `monitor(filepath, callback)`: a path missing from the file system
        raises before the registry is read. */
    method Monitor(fs: FileSystem, fp: Path, cb: Callback) returns (err: Option<Error>)
      requires Valid() && fp != []
      modifies this
      ensures fp !in fs ==> err == Some(NoEntry(fp)) && State() == old(State())
      ensures fp in fs ==> err == None && State() == Monitored(old(State()), fs[fp].Dir?, fp, cb)
      ensures Valid()
    {
      if fp !in fs {
        return Some(NoEntry(fp));
      }
      err := None;
      ghost var s := State();
      MonitoredValid(s, fs[fp].Dir?, fp, cb);
      var chosen := ChooseEntry(fp);
      ghost var s1 := State();
      assert |Dirname(chosen)| < |fp|;
      if fs[fp].Dir? {
        AbsorbChildren(fp, chosen);
      }
      ghost var s2 := State();
      assert s2 == if fs[fp].Dir? then Absorb(s1, s1.keys, fp, chosen) else s1;
      AddCallback(chosen, cb);
    }

    /** The lookup of `monitor`: the parent directory's entry, else the
        path's own, registered with a new watch when missing. */
    method ChooseEntry(fp: Path) returns (chosen: Path)
      modifies this
      ensures chosen == Chosen(old(State()), fp) && chosen in entries
      ensures State() == if chosen in old(entries) then old(State()) else Register(old(State()), fp)
    {
      if Dirname(fp) in entries {
        chosen := Dirname(fp);
      } else if fp in entries {
        chosen := fp;
      } else {
        chosen := fp;
        keys := keys + [fp];
        entries := entries[fp := Entry(fp, [], nextHandle)];
        nextHandle := nextHandle + 1;
      }
    }

    /** `entry.callbacks.push(callback)`. */
    method AddCallback(chosen: Path, cb: Callback)
      requires chosen in entries
      modifies this`entries
      ensures State() == AppendCallbacks(old(State()), chosen, [cb])
    {
      entries := entries[chosen := entries[chosen].(callbacks := entries[chosen].callbacks + [cb])];
    }

    /** A change on the entry's watch runs every callback of the entry's
        current list, in list order; the result is the sequence of calls. */
    method Fire(fp: Path) returns (calls: seq<Callback>)
      requires fp in entries
      ensures calls == entries[fp].callbacks
    {
      var cbs := entries[fp].callbacks;
      calls := [];
      for i := 0 to |cbs|
        invariant calls == cbs[..i]
      {
        calls := calls + [cbs[i]];
      }
    }
  }
}
