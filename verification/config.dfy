// The dotted-path configuration store of artalekey/core/config.py.
//
// The in-memory cache is a dictionary whose values are scalars, lists or
// further dictionaries. `get` and `set` address a value by a path such as
// `hotkeys.default.hold_time`, split at every '.'. Persistence (QSettings,
// JSON files) is not part of this model.

module Config {
  import opened Wrappers
  import opened Strings

  /** A configuration value, as the JSON-like Python objects the cache holds. */
  datatype Value =
    | Null
    | Bool(b: bool)
    | Int(i: int)
    | Str(s: string)
    | List(items: seq<Value>)
    | Dict(entries: map<string, Value>)

  /** The cache itself. */
  type Cache = map<string, Value>

  // ---------------------------------------------------------------------
  // Lookup

  /** Follow a path of keys from `v`: `None` when a key is missing or a
      value on the way is not a dictionary. */
  function Lookup(v: Value, path: seq<string>): Option<Value>
    decreases |path|
  {
    if |path| == 0 then Some(v)
    else if v.Dict? && path[0] in v.entries then Lookup(v.entries[path[0]], path[1..])
    else None
  }

  /** The path resolves to a value in the cache. */
  predicate Resolves(cache: Cache, path: seq<string>) {
    Lookup(Dict(cache), path).Some?
  }

  /** Following `path` from `v` breaks at step `i`: the first `i` keys lead
      to a value, but it is not a dictionary or lacks key `i`. */
  predicate BrokenAt(v: Value, path: seq<string>, i: int)
    requires 0 <= i < |path|
  {
    var u := Lookup(v, path[..i]);
    u.Some? && (!u.value.Dict? || path[i] !in u.value.entries)
  }

  /** Some step of the path breaks. */
  predicate Missing(v: Value, path: seq<string>) {
    exists i | 0 <= i < |path| :: BrokenAt(v, path, i)
  }

  lemma BrokenAtStep(v: Value, path: seq<string>, i: int)
    requires v.Dict? && |path| > 0 && path[0] in v.entries && 1 <= i < |path|
    ensures BrokenAt(v, path, i) <==> BrokenAt(v.entries[path[0]], path[1..], i - 1)
  {
    assert path[..i][1..] == path[1..][..i - 1];
  }

  /** A lookup fails exactly when some step of the path breaks. */
  lemma {:induction false} LookupNoneIffMissing(v: Value, path: seq<string>)
    ensures Lookup(v, path).None? <==> Missing(v, path)
    decreases |path|
  {
    if |path| > 0 {
      assert path[..0] == [];
      if v.Dict? && path[0] in v.entries {
        var child := v.entries[path[0]];
        LookupNoneIffMissing(child, path[1..]);
        assert !BrokenAt(v, path, 0);
        forall i | 1 <= i < |path| ensures BrokenAt(v, path, i) <==> BrokenAt(child, path[1..], i - 1) {
          BrokenAtStep(v, path, i);
        }
        if Missing(child, path[1..]) {
          var j :| 0 <= j < |path[1..]| && BrokenAt(child, path[1..], j);
          assert BrokenAt(v, path, j + 1);
        }
      } else {
        assert BrokenAt(v, path, 0);
      }
    }
  }

  /** `get(key, default)`: the value at the dotted path, or `default`. */
  function Get(cache: Cache, key: string, default: Value): (r: Value)
    ensures Missing(Dict(cache), Split(key, '.')) ==> r == default
    ensures !Missing(Dict(cache), Split(key, '.')) ==> Lookup(Dict(cache), Split(key, '.')) == Some(r)
  {
    LookupNoneIffMissing(Dict(cache), Split(key, '.'));
    match Lookup(Dict(cache), Split(key, '.'))
    case Some(v) => v
    case None => default
  }

  /** A path is a prefix of another. */
  predicate IsPrefix(p: seq<string>, q: seq<string>) {
    |p| <= |q| && q[..|p|] == p
  }

  lemma LookupStep(m: Cache, path: seq<string>, i: int)
    requires 1 <= i <= |path|
    ensures Lookup(Dict(m), path[..i])
         == if path[0] in m then Lookup(m[path[0]], path[1..][..i - 1]) else None
  {
    assert path[..i][1..] == path[1..][..i - 1];
  }

  // ---------------------------------------------------------------------
  // Update

  /** The navigation and assignment of `set`: missing dictionaries on the
      way are created; a value on the way that is not a dictionary makes
      Python raise (`None`), and then nothing has been changed, because
      dictionaries are only created after the last existing one. */
  function SetPath(m: Cache, keys: seq<string>, x: Value): Option<Cache>
    requires |keys| >= 1
    decreases |keys|
  {
    var k := keys[0];
    if |keys| == 1 then Some(m[k := x])
    else
      var child := if k in m then m[k] else Dict(map[]);
      if !child.Dict? then None
      else
        match SetPath(child.entries, keys[1..], x)
        case None => None
        case Some(c) => Some(m[k := Dict(c)])
  }

  /** Some proper prefix of the path holds a value that is not a dictionary. */
  predicate Blocked(m: Cache, keys: seq<string>) {
    exists i | 1 <= i < |keys| ::
      Lookup(Dict(m), keys[..i]).Some? && !Lookup(Dict(m), keys[..i]).value.Dict?
  }

  /** `set` fails exactly when the path is blocked by a non-dictionary. */
  lemma {:induction false} SetFailsIffBlocked(m: Cache, keys: seq<string>, x: Value)
    requires |keys| >= 1
    ensures SetPath(m, keys, x).None? <==> Blocked(m, keys)
    decreases |keys|
  {
    if |keys| > 1 {
      var k := keys[0];
      var child := if k in m then m[k] else Dict(map[]);
      LookupStep(m, keys, 1);
      assert keys[1..][..0] == [];
      if !child.Dict? {
        assert Lookup(Dict(m), keys[..1]) == Some(child);
      } else {
        SetFailsIffBlocked(child.entries, keys[1..], x);
        if Blocked(child.entries, keys[1..]) {
          var j :| 1 <= j < |keys[1..]| && Lookup(Dict(child.entries), keys[1..][..j]).Some?
                   && !Lookup(Dict(child.entries), keys[1..][..j]).value.Dict?;
          LookupStep(m, keys, j + 1);
          assert k in m;
        }
        if Blocked(m, keys) {
          var i :| 1 <= i < |keys| && Lookup(Dict(m), keys[..i]).Some?
                   && !Lookup(Dict(m), keys[..i]).value.Dict?;
          LookupStep(m, keys, i);
          assert i > 1;
          assert k in m;
          assert Lookup(Dict(child.entries), keys[1..][..i - 1]) == Lookup(Dict(m), keys[..i]);
        }
      }
    }
  }

  /** After a successful `set`, the path holds the value. */
  lemma {:induction false} LookupAfterSet(m: Cache, keys: seq<string>, x: Value)
    requires |keys| >= 1 && SetPath(m, keys, x).Some?
    ensures Lookup(Dict(SetPath(m, keys, x).value), keys) == Some(x)
    decreases |keys|
  {
    if |keys| > 1 {
      var child := if keys[0] in m then m[keys[0]] else Dict(map[]);
      LookupAfterSet(child.entries, keys[1..], x);
    }
  }

  /** A successful `set` changes no path that is neither a prefix nor an
      extension of its own. */
  lemma {:induction false} SetLeavesOtherPaths(m: Cache, keys: seq<string>, x: Value, p: seq<string>)
    requires |keys| >= 1 && SetPath(m, keys, x).Some?
    requires !IsPrefix(p, keys) && !IsPrefix(keys, p)
    ensures Lookup(Dict(SetPath(m, keys, x).value), p) == Lookup(Dict(m), p)
    decreases |keys|
  {
    var k := keys[0];
    assert |p| > 0;
    if p[0] == k && |keys| > 1 {
      var child := if k in m then m[k] else Dict(map[]);
      assert |p| > 1;
      SetLeavesOtherPaths(child.entries, keys[1..], x, p[1..]);
    }
  }

  /** Setting a path to the value it already holds changes nothing. */
  lemma {:induction false} SetSameIsIdentity(m: Cache, keys: seq<string>, x: Value)
    requires |keys| >= 1 && Lookup(Dict(m), keys) == Some(x)
    ensures SetPath(m, keys, x) == Some(m)
    decreases |keys|
  {
    if |keys| > 1 {
      SetSameIsIdentity(m[keys[0]].entries, keys[1..], x);
      assert m[keys[0] := Dict(m[keys[0]].entries)] == m;
    } else {
      assert m[keys[0] := x] == m;
    }
  }

  /** The value `set` replaces: Python's `current.get(last)`, `None` when
      absent. */
  function OldValue(m: Cache, keys: seq<string>): Value {
    match Lookup(Dict(m), keys)
    case Some(v) => v
    case None => Null
  }

  /** What `set` does to the cache, and whether it emits `config_changed`. */
  datatype SetOutcome = Updated(cache: Cache, changed: bool) | Raises

  /** `set(key, value)`. */
  function Set(cache: Cache, key: string, x: Value): (r: SetOutcome)
    ensures r.Raises? <==> Blocked(cache, Split(key, '.'))
    ensures r.Updated? ==> Get(r.cache, key, Null) == x
    ensures r.Updated? ==> (r.changed <==> OldValue(cache, Split(key, '.')) != x)
  {
    var keys := Split(key, '.');
    SetFailsIffBlocked(cache, keys, x);
    match SetPath(cache, keys, x)
    case None => Raises
    case Some(c) =>
      LookupAfterSet(cache, keys, x);
      Updated(c, OldValue(cache, keys) != x)
  }

  /** Setting the same value twice emits the change at most once, and the
      second `set` leaves the cache as it was. */
  lemma SetTwiceEmitsOnce(cache: Cache, key: string, x: Value)
    requires Set(cache, key, x).Updated?
    ensures Set(Set(cache, key, x).cache, key, x) == Updated(Set(cache, key, x).cache, false)
  {
    var keys := Split(key, '.');
    var c := Set(cache, key, x).cache;
    LookupAfterSet(cache, keys, x);
    SetSameIsIdentity(c, keys, x);
    SetFailsIffBlocked(c, keys, x);
  }

  /** `set` then `get` of a different, unrelated dotted key sees the old
      value. */
  lemma SetThenGetOther(cache: Cache, key: string, other: string, x: Value, d: Value)
    requires Set(cache, key, x).Updated?
    requires !IsPrefix(Split(other, '.'), Split(key, '.')) && !IsPrefix(Split(key, '.'), Split(other, '.'))
    ensures Get(Set(cache, key, x).cache, other, d) == Get(cache, other, d)
  {
    SetLeavesOtherPaths(cache, Split(key, '.'), x, Split(other, '.'));
  }

  // ---------------------------------------------------------------------
  // Merging an imported configuration

  /** `merge_dict(base, incoming)` on dictionaries: every key of `new` is taken
      from `new`, except that two dictionaries under the same key merge;
      keys only in `base` stay. */
  function Merge(base: Value, incoming: Value): (r: Value)
    requires base.Dict? && incoming.Dict?
    ensures r.Dict? && r.entries.Keys == base.entries.Keys + incoming.entries.Keys
    decreases incoming
  {
    Dict(map k | k in base.entries.Keys + incoming.entries.Keys ::
      if k !in incoming.entries then base.entries[k]
      else if k in base.entries && base.entries[k].Dict? && incoming.entries[k].Dict?
      then Merge(base.entries[k], incoming.entries[k])
      else incoming.entries[k])
  }

  /** `_merge_config(imported)` on the cache, as `import_config` runs it:
      an imported document that is not a JSON object has no `items`, so
      `merge_dict` raises before touching the cache and the import reports
      failure (`None`); an object is merged. */
  function MergeConfig(cache: Cache, imported: Value): (r: Option<Cache>)
    ensures r.None? <==> !imported.Dict?
    ensures r.Some? ==> r.value.Keys == cache.Keys + imported.entries.Keys
    ensures r.Some? ==> forall k :: k in imported.entries && !imported.entries[k].Dict? ==>
              r.value[k] == imported.entries[k]
    ensures r.Some? ==> forall k :: k in cache && k !in imported.entries ==> r.value[k] == cache[k]
  {
    if imported.Dict? then Some(Merge(Dict(cache), imported).entries) else None
  }

  /** Merging nothing in changes nothing. */
  lemma MergeEmpty(base: Value)
    requires base.Dict?
    ensures Merge(base, Dict(map[])) == base
  {
    assert Merge(base, Dict(map[])).entries == base.entries;
  }

  /** Every value of `new` that is not a dictionary is found at the same
      path after the merge. */
  lemma {:induction false} MergeKeepsNewLeaves(base: Value, incoming: Value, p: seq<string>)
    requires base.Dict? && incoming.Dict?
    requires Lookup(incoming, p).Some? && !Lookup(incoming, p).value.Dict?
    ensures Lookup(Merge(base, incoming), p) == Lookup(incoming, p)
    decreases |p|
  {
    var k := p[0];
    var b, n := base.entries, incoming.entries;
    if k in b && b[k].Dict? && n[k].Dict? {
      MergeKeepsNewLeaves(b[k], n[k], p[1..]);
    } else {
      assert Merge(base, incoming).entries[k] == n[k];
    }
  }

  /** Where the base holds no dictionary to merge into, the incoming value
      is taken whole, a dictionary included: `{}` over `1` gives `{}`. */
  lemma {:induction false} MergeTakesNewOverNonDict(base: Value, incoming: Value, p: seq<string>)
    requires base.Dict? && incoming.Dict?
    requires Lookup(incoming, p).Some?
    requires Lookup(base, p).None? || !Lookup(base, p).value.Dict?
    ensures Lookup(Merge(base, incoming), p) == Lookup(incoming, p)
    decreases |p|
  {
    var k := p[0];
    var b, n := base.entries, incoming.entries;
    if k in b && b[k].Dict? && n[k].Dict? {
      MergeTakesNewOverNonDict(b[k], n[k], p[1..]);
    } else {
      assert Merge(base, incoming).entries[k] == n[k];
    }
  }

  /** A path `new` says nothing about, in that no value of `new` on the
      way is other than a dictionary and the path itself is missing from
      `new`, keeps its value from `base`. */
  lemma {:induction false} MergeKeepsBase(base: Value, incoming: Value, p: seq<string>)
    requires base.Dict? && incoming.Dict?
    requires Lookup(base, p).Some? && Lookup(incoming, p).None?
    requires forall i :: 0 < i < |p| && Lookup(incoming, p[..i]).Some? ==> Lookup(incoming, p[..i]).value.Dict?
    ensures Lookup(Merge(base, incoming), p) == Lookup(base, p)
    decreases |p|
  {
    var k := p[0];
    var b, n := base.entries, incoming.entries;
    if k in n {
      if |p| == 1 {
        assert false;
      }
      assert p[..1] == [k];
      assert Lookup(incoming, p[..1]) == Some(n[k]);
      assert b[k].Dict?;
      forall i | 0 < i < |p[1..]| && Lookup(n[k], p[1..][..i]).Some?
        ensures Lookup(n[k], p[1..][..i]).value.Dict?
      {
        assert p[..i + 1][1..] == p[1..][..i];
      }
      MergeKeepsBase(b[k], n[k], p[1..]);
    }
  }

  /** Importing the same configuration twice changes nothing the second
      time. */
  lemma {:induction false} MergeTwice(base: Value, incoming: Value)
    requires base.Dict? && incoming.Dict?
    ensures Merge(Merge(base, incoming), incoming) == Merge(base, incoming)
    decreases incoming
  {
    var once := Merge(base, incoming);
    forall k | k in once.entries
      ensures Merge(once, incoming).entries[k] == once.entries[k]
    {
      if k in incoming.entries && once.entries[k].Dict? && incoming.entries[k].Dict? {
        var b := base.entries;
        if k in b && b[k].Dict? {
          MergeTwice(b[k], incoming.entries[k]);
        } else {
          MergeSelf(incoming.entries[k]);
        }
      }
    }
  }

  /** A dictionary merged into itself is unchanged. */
  lemma {:induction false} MergeSelf(v: Value)
    requires v.Dict?
    ensures Merge(v, v) == v
    decreases v
  {
    forall k | k in v.entries
      ensures Merge(v, v).entries[k] == v.entries[k]
    {
      if v.entries[k].Dict? {
        MergeSelf(v.entries[k]);
      }
    }
  }

  // ---------------------------------------------------------------------
  // The defaults and the hotkey accessors

  /** The default hotkey: `w`, held 500 ms, 40 ms interval, disabled. */
  const DefaultHotkey: Value :=
    Dict(map["trigger_key" := Str("w"), "hold_time" := Int(500),
             "interval" := Int(40), "enabled" := Bool(false)])

  /** The built-in configuration. */
  const DefaultConfig: Cache :=
    map["hotkeys" := Dict(map["default" := DefaultHotkey]),
        "ui" := Dict(map["theme" := Str("dark"), "window_geometry" := Null,
                         "global_enabled" := Bool(false)]),
        "performance" := Dict(map["enable_logging" := Bool(true), "log_level" := Str("INFO")]),
        "window_filter" := Dict(map["enabled" := Bool(false), "target_apps" := List([])])]

  lemma LookupPair(v: Value, a: string, b: string)
    ensures Lookup(v, [a, b])
         == if v.Dict? && a in v.entries && v.entries[a].Dict? && b in v.entries[a].entries
            then Some(v.entries[a].entries[b]) else None
  {
    assert [a, b][1..] == [b];
    assert [b][1..] == [];
    if v.Dict? && a in v.entries {
      var c := v.entries[a];
      assert Lookup(v, [a, b]) == Lookup(c, [b]);
      if c.Dict? && b in c.entries {
        assert Lookup(c, [b]) == Lookup(c.entries[b], []);
      }
    }
  }

  /** The dotted key of a hotkey's entry. */
  function HotkeyKey(id: string): string {
    "hotkeys" + ['.'] + id
  }

  lemma HotkeyPath(id: string)
    requires '.' !in id
    ensures Split(HotkeyKey(id), '.') == ["hotkeys", id]
  {
    SplitPiece("hotkeys", '.', id);
    SplitNoSep(id, '.');
  }

  /** `get_hotkey_config(id)`: the entry, or a copy of the default hotkey. */
  function GetHotkeyConfig(cache: Cache, id: string): Value {
    Get(cache, HotkeyKey(id), DefaultHotkey)
  }

  /** `set_hotkey_config(id, config)`. */
  function SetHotkeyConfig(cache: Cache, id: string, cfg: Value): SetOutcome {
    Set(cache, HotkeyKey(id), cfg)
  }

  /** An unknown hotkey id (without a '.') gives the default hotkey. */
  lemma UnknownHotkeyIsDefault(cache: Cache, id: string)
    requires '.' !in id
    requires "hotkeys" in cache && cache["hotkeys"].Dict? ==> id !in cache["hotkeys"].entries
    ensures GetHotkeyConfig(cache, id) == DefaultHotkey
  {
    HotkeyPath(id);
    LookupPair(Dict(cache), "hotkeys", id);
  }

  /** With the built-in configuration every id reads as the default
      hotkey, and every id but `default` is unknown. */
  lemma DefaultConfigHotkeys(id: string)
    requires '.' !in id
    ensures GetHotkeyConfig(DefaultConfig, id) == DefaultHotkey
    ensures id != "default" ==> !Resolves(DefaultConfig, Split(HotkeyKey(id), '.'))
  {
    HotkeyPath(id);
    LookupPair(Dict(DefaultConfig), "hotkeys", id);
  }

  /** A hotkey entry that is set is read back, provided `hotkeys` is a
      dictionary or missing. */
  lemma HotkeyConfigRoundTrip(cache: Cache, id: string, cfg: Value)
    requires '.' !in id
    requires "hotkeys" in cache ==> cache["hotkeys"].Dict?
    ensures SetHotkeyConfig(cache, id, cfg).Updated?
    ensures GetHotkeyConfig(SetHotkeyConfig(cache, id, cfg).cache, id) == cfg
  {
    HotkeyPath(id);
    var keys := ["hotkeys", id];
    assert keys[..1] == ["hotkeys"] && ["hotkeys"][1..] == [];
    assert !Blocked(cache, keys);
    var c := SetHotkeyConfig(cache, id, cfg).cache;
    LookupAfterSet(cache, keys, cfg);
  }

  /** An id containing '.' is read as a longer path: `default.hold_time`
      yields the default hold time itself, not a hotkey entry. */
  lemma DottedHotkeyIdIsAPath()
    ensures GetHotkeyConfig(DefaultConfig, "default" + ['.'] + "hold_time") == Int(500)
  {
    var path := Split(HotkeyKey("default" + ['.'] + "hold_time"), '.');
    DottedPath();
    assert path[1..] == ["default", "hold_time"];
    var hotkeys := DefaultConfig["hotkeys"];
    LookupPair(hotkeys, "default", "hold_time");
    assert Lookup(hotkeys, ["default", "hold_time"]) == Some(Int(500));
    assert Lookup(Dict(DefaultConfig), path) == Lookup(hotkeys, path[1..]);
  }

  lemma DottedPath()
    ensures Split(HotkeyKey("default" + ['.'] + "hold_time"), '.') == ["hotkeys", "default", "hold_time"]
  {
    assert '.' !in "hotkeys" && '.' !in "default" && '.' !in "hold_time";
    ThreeParts("hotkeys", "default", "hold_time");
  }

  lemma ThreeParts(a: string, b: string, c: string)
    requires '.' !in a && '.' !in b && '.' !in c
    ensures Split(a + ['.'] + (b + ['.'] + c), '.') == [a, b, c]
  {
    SplitPiece(b, '.', c);
    SplitNoSep(c, '.');
    SplitPiece(a, '.', b + ['.'] + c);
  }

}
