/** The foreground-window monitor: window identity, the target-process set
    and its matching rule, the bounded most-recently-used history, the
    recent-apps query, and what one poll tick changes and signals. The
    platform probe is an input to the tick; timestamps are integer
    milliseconds. */
module WindowDetector {
  import opened Wrappers
  import opened Strings
  import opened Sequences

  /** A snapshot of the foreground window as the platform probe reports it.
      `lastActive` is the time the history last saw it. */
  datatype WindowInfo = WindowInfo(
    windowId: int,
    title: string,
    processName: string,
    processId: int,
    lastActive: int)

  // ---------------------------------------------------------------------
  // Identity

  /** The lower-cased process name: what `__hash__` hashes and `__eq__`
      compares. */
  function AppKey(w: WindowInfo): string {
    Lower(w.processName)
  }

  /** `WindowInfo.__eq__`: the same application, whatever the window. */
  predicate SameApp(a: WindowInfo, b: WindowInfo) {
    AppKey(a) == AppKey(b)
  }

  /** Two windows are equal exactly when their process names have the same
      length and agree letter by letter up to ASCII case; title, identifiers
      and stamp play no part. */
  lemma EqualityIsByProcessName(a: WindowInfo, b: WindowInfo)
    ensures SameApp(a, b) <==>
              |a.processName| == |b.processName|
              && forall i :: 0 <= i < |a.processName| ==>
                   LowerChar(a.processName[i]) == LowerChar(b.processName[i])
    ensures SameApp(a, a.(title := b.title, windowId := b.windowId, processId := b.processId,
                          lastActive := b.lastActive))
  {
    var s, t := a.processName, b.processName;
    LowerSpec(s);
    LowerSpec(t);
    if |s| == |t| && forall i :: 0 <= i < |s| ==> LowerChar(s[i]) == LowerChar(t[i]) {
      LowerAgree(s, t);
    }
    if SameApp(a, b) {
      forall i | 0 <= i < |s| ensures LowerChar(s[i]) == LowerChar(t[i]) {
        assert Lower(s)[i] == Lower(t)[i];
      }
    }
  }

  /** Two windows of one program whose names differ only in case are equal. */
  lemma EqualityExample()
    ensures SameApp(WindowInfo(1, "a.txt", "Notepad.EXE", 10, 0),
                    WindowInfo(2, "b.txt", "notepad.exe", 11, 5))
  {
    var s, t := "Notepad.EXE", "notepad.exe";
    forall i | 0 <= i < |s| ensures LowerChar(s[i]) == LowerChar(t[i]) {
      assert LowerChar(s[i]) == t[i];
    }
    LowerAgree(s, t);
  }

  // ---------------------------------------------------------------------
  // The target-process set

  predicate AllLower(t: set<string>) {
    forall x :: x in t ==> IsLower(x)
  }

  /** `set_target_processes`: the lower-cased names. */
  function SetTargetProcesses(names: seq<string>): (t: set<string>)
    ensures AllLower(t)
    ensures forall i :: 0 <= i < |names| ==> Lower(names[i]) in t
    ensures forall x :: x in t ==> exists i :: 0 <= i < |names| && x == Lower(names[i])
  {
    AllLowerCased(names);
    set i | 0 <= i < |names| :: Lower(names[i])
  }

  /** `add_target_process`. */
  function AddTargetProcess(t: set<string>, name: string): set<string> {
    t + {Lower(name)}
  }

  /** `remove_target_process` (`discard`: absent names are ignored). */
  function RemoveTargetProcess(t: set<string>, name: string): set<string> {
    t - {Lower(name)}
  }

  /** The set only ever holds lower-cased names. */
  lemma TargetSetStaysLowerCase(t: set<string>, name: string)
    requires AllLower(t)
    ensures AllLower(AddTargetProcess(t, name))
    ensures AllLower(RemoveTargetProcess(t, name))
  {
    LowerSpec(name);
  }

  /** Adding a name and removing it in any casing leaves it absent and
      touches nothing else. */
  lemma AddThenRemoveAnyCase(t: set<string>, added: string, removed: string)
    requires Lower(added) == Lower(removed)
    ensures Lower(added) !in RemoveTargetProcess(AddTargetProcess(t, added), removed)
    ensures RemoveTargetProcess(AddTargetProcess(t, added), removed) == t - {Lower(added)}
  {
  }

  // ---------------------------------------------------------------------
  // The poll interval

  const MinCheckIntervalMs := 100
  const MaxCheckIntervalMs := 5000
  const DefaultCheckIntervalMs := 500

  /** `set_check_interval`: clamped to [0.1 s, 5 s], here in milliseconds. */
  function ClampCheckInterval(ms: int): (r: int)
    ensures MinCheckIntervalMs <= r <= MaxCheckIntervalMs
    ensures MinCheckIntervalMs <= ms <= MaxCheckIntervalMs ==> r == ms
    ensures ms < MinCheckIntervalMs ==> r == MinCheckIntervalMs
    ensures ms > MaxCheckIntervalMs ==> r == MaxCheckIntervalMs
  {
    if ms < MinCheckIntervalMs then MinCheckIntervalMs
    else if ms > MaxCheckIntervalMs then MaxCheckIntervalMs
    else ms
  }

  lemma ClampCheckIntervalIdempotent(ms: int)
    ensures ClampCheckInterval(ClampCheckInterval(ms)) == ClampCheckInterval(ms)
  {
  }

  // ---------------------------------------------------------------------
  // Target matching

  /** A name with every ".exe" and then every ".app" removed, as the two
      chained `replace` calls do. */
  function StripSuffixes(name: string): string {
    RemoveAll(RemoveAll(name, ".exe"), ".app")
  }

  /** `_is_target_window`: never with no targets; otherwise an exact match
      of the lower-cased name, or a match once the extensions are removed
      from both sides. */
  predicate IsTargetWindow(targets: set<string>, w: WindowInfo) {
    if targets == {} then false
    else
      var lower := AppKey(w);
      lower in targets || exists t | t in targets :: StripSuffixes(lower) == StripSuffixes(t)
  }

  /** The exact-match test is subsumed: a window is a target iff some
      target agrees with it once extensions are removed. */
  lemma IsTargetIffStrippedMatch(targets: set<string>, w: WindowInfo)
    ensures IsTargetWindow(targets, w)
        <==> exists t :: t in targets && StripSuffixes(AppKey(w)) == StripSuffixes(t)
  {
    if AppKey(w) in targets {
      assert StripSuffixes(AppKey(w)) == StripSuffixes(AppKey(w));
    }
  }

  /** No occurrence of an extension straddles the end of a name and an
      appended extension. */
  lemma ExtensionsDoNotStraddle()
    ensures NoStraddle(".exe", ".exe") && NoStraddle(".exe", ".app") && NoStraddle(".app", ".app")
  {
    assert ".exe"[1..] == "exe" && ".app"[1..] == "app";
    NoStraddleByHead(".exe", ".exe");
    NoStraddleByHead(".exe", ".app");
    NoStraddleByHead(".app", ".app");
  }

  /** What each removal does to a bare extension. */
  lemma RemoveFromExtensions()
    ensures RemoveAll(".exe", ".exe") == "" && RemoveAll(".app", ".app") == ""
    ensures RemoveAll(".app", ".exe") == ".app" && RemoveAll("", ".app") == ""
  {
    var e, a := ".exe", ".app";
    assert a[..4] != e by { assert a[1] != e[1]; }
    assert RemoveAll("app", e) == "app";
  }

  /** Appending ".exe" or ".app" to a name does not change its stripped form. */
  lemma StripSuffixesIgnoresExtension(x: string, ext: string)
    requires ext == ".exe" || ext == ".app"
    ensures StripSuffixes(x + ext) == StripSuffixes(x)
  {
    var e, a := ".exe", ".app";
    ExtensionsDoNotStraddle();
    RemoveFromExtensions();
    var y := RemoveAll(x, e);
    if ext == e {
      RemoveAllConcat(x, e, e);
      assert RemoveAll(x + ext, e) == y + "" == y;
    } else {
      RemoveAllConcat(x, a, e);
      assert RemoveAll(x + ext, e) == y + a;
      RemoveAllConcat(y, a, a);
      assert RemoveAll(y + a, a) == RemoveAll(y, a) + "";
    }
  }

  /** Matching is suffix-agnostic: a process reported with or without
      ".exe" or ".app" matches the same targets. */
  lemma MatchIgnoresExtension(targets: set<string>, w: WindowInfo, ext: string)
    requires ext == ".exe" || ext == ".app"
    ensures IsTargetWindow(targets, w.(processName := w.processName + ext))
        == IsTargetWindow(targets, w)
  {
    var w' := w.(processName := w.processName + ext);
    LowerConcat(w.processName, ext);
    assert Lower(ext) == ext;
    assert AppKey(w') == AppKey(w) + ext;
    StripSuffixesIgnoresExtension(AppKey(w), ext);
    IsTargetIffStrippedMatch(targets, w);
    IsTargetIffStrippedMatch(targets, w');
  }

  /** Matching is case-insensitive on the window side. */
  lemma MatchIgnoresCase(targets: set<string>, a: WindowInfo, b: WindowInfo)
    requires SameApp(a, b)
    ensures IsTargetWindow(targets, a) == IsTargetWindow(targets, b)
  {
  }

  /** An exact match of the lower-cased name makes a window a target. */
  lemma ExactMatchIsTarget(targets: set<string>, w: WindowInfo)
    requires AppKey(w) in targets
    ensures IsTargetWindow(targets, w)
  {
  }

  /** A window of "Notepad.exe" matches the target "notepad". */
  lemma NotepadExeMatches(w: WindowInfo)
    requires w.processName == "Notepad.exe"
    ensures IsTargetWindow(SetTargetProcesses(["notepad"]), w)
  {
    var s, t := "Notepad", "notepad";
    forall i | 0 <= i < |s| ensures LowerChar(s[i]) == LowerChar(t[i]) {
      assert LowerChar(s[i]) == t[i];
    }
    LowerAgree(s, t);
    var n := w.(processName := s);
    var names := [t];
    var targets := SetTargetProcesses(names);
    assert Lower(names[0]) in targets;
    ExactMatchIsTarget(targets, n);
    MatchIgnoresExtension(targets, n, ".exe");
    NotepadName();
    assert n.(processName := s + ".exe") == w;
  }

  lemma NotepadName()
    ensures "Notepad" + ".exe" == "Notepad.exe"
  {
  }

  /** A window of "Game.app" matches a target list holding "Game". */
  lemma GameAppMatches(w: WindowInfo)
    requires w.processName == "Game.app"
    ensures IsTargetWindow(SetTargetProcesses(["Game"]), w)
  {
    var g := w.(processName := "Game");
    var names := ["Game"];
    var targets := SetTargetProcesses(names);
    assert Lower(names[0]) in targets;
    ExactMatchIsTarget(targets, g);
    MatchIgnoresExtension(targets, g, ".app");
    assert g.(processName := "Game" + ".app") == w;
  }

  // ---------------------------------------------------------------------
  // The bounded history

  /** `deque(maxlen=20)`. */
  const MaxHistory: nat := 20

  /** The applications the monitor never records, lower-cased. */
  const DefaultExcluded: set<string> :=
    {"artalekey", "python", "python3", "terminal", "iterm2",
     "finder", "dock", "spotlight", "systemuiserver"}

  /** Some entry belongs to the application with this key. */
  predicate HasApp(h: seq<WindowInfo>, key: string) {
    exists i :: 0 <= i < |h| && AppKey(h[i]) == key
  }

  /** No two entries belong to the same application. */
  predicate DistinctApps(h: seq<WindowInfo>) {
    forall i, j :: 0 <= i < j < |h| ==> AppKey(h[i]) != AppKey(h[j])
  }

  lemma HasAppAppend(h: seq<WindowInfo>, w: WindowInfo, key: string)
    ensures HasApp(h + [w], key) <==> HasApp(h, key) || AppKey(w) == key
  {
    if HasApp(h + [w], key) && AppKey(w) != key {
      var i :| 0 <= i < |h + [w]| && AppKey((h + [w])[i]) == key;
      assert i < |h| && AppKey(h[i]) == key;
    }
    if HasApp(h, key) {
      var i :| 0 <= i < |h| && AppKey(h[i]) == key;
      assert AppKey((h + [w])[i]) == key;
    }
    if AppKey(w) == key {
      assert AppKey((h + [w])[|h|]) == key;
    }
  }

  /** `deque.remove(old)`: drops the first entry of the same application
      (the deque compares with `WindowInfo.__eq__`); when there is none,
      `ValueError` is swallowed and nothing changes. */
  function RemoveApp(h: seq<WindowInfo>, key: string): (r: seq<WindowInfo>)
    ensures !HasApp(h, key) ==> r == h
    ensures HasApp(h, key) ==> |r| == |h| - 1
    ensures forall e :: e in r ==> e in h
    decreases |h|
  {
    if |h| == 0 then h
    else if AppKey(h[0]) == key then h[1..]
    else
      var r := [h[0]] + RemoveApp(h[1..], key);
      assert HasApp(h, key) ==> HasApp(h[1..], key) by {
        if HasApp(h, key) {
          var i :| 0 <= i < |h| && AppKey(h[i]) == key;
          assert AppKey(h[1..][i - 1]) == key;
        }
      }
      assert !HasApp(h, key) ==> !HasApp(h[1..], key) by {
        if HasApp(h[1..], key) {
          var i :| 0 <= i < |h[1..]| && AppKey(h[1..][i]) == key;
          assert AppKey(h[i + 1]) == key;
        }
      }
      r
  }

  /** In a history without repeats the first entry's application does not
      come again. */
  lemma FirstNotRepeated(h: seq<WindowInfo>)
    requires |h| > 0 && DistinctApps(h)
    ensures !HasApp(h[1..], AppKey(h[0]))
  {
    forall i | 0 <= i < |h[1..]|
      ensures AppKey(h[1..][i]) != AppKey(h[0])
    {
      assert h[1..][i] == h[i + 1];
    }
  }

  /** Removal takes out exactly the first entry of the application. */
  lemma {:induction false} RemoveAppAt(h: seq<WindowInfo>, key: string, i: int)
    requires 0 <= i < |h| && AppKey(h[i]) == key
    requires forall j :: 0 <= j < i ==> AppKey(h[j]) != key
    ensures RemoveApp(h, key) == Delete(h, i)
    decreases i
  {
    if i > 0 {
      RemoveAppAt(h[1..], key, i - 1);
      DeleteCons(h[0], h[1..], i - 1);
      assert [h[0]] + h[1..] == h;
    } else {
      assert Delete(h, 0) == h[1..];
    }
  }

  /** Removal from a history without repeats leaves one without the
      application and without repeats. */
  lemma {:induction false} RemoveAppDistinct(h: seq<WindowInfo>, key: string)
    requires DistinctApps(h)
    ensures DistinctApps(RemoveApp(h, key))
    ensures !HasApp(RemoveApp(h, key), key)
    decreases |h|
  {
    if |h| > 0 {
      if AppKey(h[0]) == key {
        FirstNotRepeated(h);
      } else {
        RemoveAppDistinct(h[1..], key);
        var rest := RemoveApp(h[1..], key);
        var r := [h[0]] + rest;
        forall i, j | 0 <= i < j < |r|
          ensures AppKey(r[i]) != AppKey(r[j])
        {
          if i == 0 {
            assert r[j] in h[1..];
            var k :| 0 <= k < |h[1..]| && h[1..][k] == r[j];
            assert h[k + 1] == r[j];
          }
        }
        forall i | 0 <= i < |r|
          ensures AppKey(r[i]) != key
        {
          if i > 0 {
            assert r[i] == rest[i - 1];
          }
        }
      }
    }
  }

  /** The newest `n` entries: what `deque(maxlen=n)` keeps on `append`. */
  function Newest(h: seq<WindowInfo>, n: nat): (r: seq<WindowInfo>)
    ensures |r| == if |h| <= n then |h| else n
    ensures r == h[|h| - |r|..]
  {
    if |h| <= n then h else h[|h| - n..]
  }

  /** `_add_to_history`: an excluded application is ignored; any other is
      stamped, its old entry (if still held) removed, and it is appended as
      the newest, the oldest entry falling out beyond 20. */
  function AddToHistory(h: seq<WindowInfo>, w: WindowInfo, excluded: set<string>, now: int): (r: seq<WindowInfo>)
    ensures AppKey(w) in excluded ==> r == h
    ensures AppKey(w) !in excluded ==> |r| > 0 && r[|r| - 1] == w.(lastActive := now)
    ensures |h| <= MaxHistory ==> |r| <= MaxHistory
    ensures DistinctApps(h) ==> DistinctApps(r)
  {
    if AppKey(w) in excluded then h
    else
      var stamped := w.(lastActive := now);
      var moved := RemoveApp(h, AppKey(w)) + [stamped];
      MoveKeepsDistinct(h, stamped);
      Newest(moved, MaxHistory)
  }

  lemma MoveKeepsDistinct(h: seq<WindowInfo>, w: WindowInfo)
    ensures DistinctApps(h) ==> DistinctApps(RemoveApp(h, AppKey(w)) + [w])
  {
    if DistinctApps(h) {
      RemoveAppDistinct(h, AppKey(w));
      var removed := RemoveApp(h, AppKey(w));
      var moved := removed + [w];
      forall i, j | 0 <= i < j < |moved|
        ensures AppKey(moved[i]) != AppKey(moved[j])
      {
        if j == |moved| - 1 {
          assert AppKey(removed[i]) != AppKey(w);
        }
      }
    }
  }

  /** Re-activating a recorded application moves it to the newest end
      without evicting anything. */
  lemma ReactivationMovesToNewest(h: seq<WindowInfo>, w: WindowInfo, excluded: set<string>, now: int, i: int)
    requires AppKey(w) !in excluded && DistinctApps(h) && |h| <= MaxHistory
    requires 0 <= i < |h| && SameApp(h[i], w)
    ensures AddToHistory(h, w, excluded, now) == Delete(h, i) + [w.(lastActive := now)]
  {
    RemoveAppAt(h, AppKey(w), i);
  }

  /** A new application is appended; when the history is full the oldest
      entry is evicted. */
  lemma NewAppEvictsOldest(h: seq<WindowInfo>, w: WindowInfo, excluded: set<string>, now: int)
    requires AppKey(w) !in excluded && !HasApp(h, AppKey(w)) && |h| <= MaxHistory
    ensures AddToHistory(h, w, excluded, now)
         == if |h| < MaxHistory then h + [w.(lastActive := now)] else h[1..] + [w.(lastActive := now)]
  {
    if |h| == MaxHistory {
      assert (h + [w.(lastActive := now)])[1..] == h[1..] + [w.(lastActive := now)];
    }
  }

  // ---------------------------------------------------------------------
  // The history against an independent description of it

  /** The visits that are not excluded, in order. */
  function Admitted(visits: seq<WindowInfo>, excluded: set<string>): seq<WindowInfo>
    decreases |visits|
  {
    if |visits| == 0 then []
    else
      var last := visits[|visits| - 1];
      Admitted(visits[..|visits| - 1], excluded) + (if AppKey(last) in excluded then [] else [last])
  }

  /** Each visit whose application is not visited again later, in order:
      every application once, at the place it was last seen. */
  function LastOccurrences(vs: seq<WindowInfo>): seq<WindowInfo>
    decreases |vs|
  {
    if |vs| == 0 then []
    else if HasApp(vs[1..], AppKey(vs[0])) then LastOccurrences(vs[1..])
    else [vs[0]] + LastOccurrences(vs[1..])
  }

  lemma HasAppCons(x: WindowInfo, vs: seq<WindowInfo>, key: string)
    ensures HasApp([x] + vs, key) <==> AppKey(x) == key || HasApp(vs, key)
  {
    var s := [x] + vs;
    if HasApp(vs, key) {
      var i :| 0 <= i < |vs| && AppKey(vs[i]) == key;
      assert s[i + 1] == vs[i];
    }
    if HasApp(s, key) && AppKey(x) != key {
      var i :| 0 <= i < |s| && AppKey(s[i]) == key;
      assert vs[i - 1] == s[i];
    }
    assert s[0] == x;
  }

  lemma {:induction false} LastOccurrencesApps(vs: seq<WindowInfo>, key: string)
    ensures HasApp(LastOccurrences(vs), key) <==> HasApp(vs, key)
    decreases |vs|
  {
    if |vs| > 0 {
      LastOccurrencesApps(vs[1..], key);
      assert vs == [vs[0]] + vs[1..];
      HasAppCons(vs[0], vs[1..], key);
      if !HasApp(vs[1..], AppKey(vs[0])) {
        HasAppCons(vs[0], LastOccurrences(vs[1..]), key);
      }
    }
  }

  /** The independent description: visiting `w` after `vs` removes the
      earlier place of `w`'s application and puts `w` last. */
  lemma {:induction false} LastOccurrencesAppend(vs: seq<WindowInfo>, w: WindowInfo)
    ensures LastOccurrences(vs + [w]) == RemoveApp(LastOccurrences(vs), AppKey(w)) + [w]
    decreases |vs|
  {
    var k := AppKey(w);
    if |vs| == 0 {
      assert !HasApp([], k);
    } else {
      var v0, rest := vs[0], vs[1..];
      assert (vs + [w])[1..] == rest + [w];
      LastOccurrencesAppend(rest, w);
      HasAppAppend(rest, w, AppKey(v0));
      if HasApp(rest + [w], AppKey(v0)) {
        if !HasApp(rest, AppKey(v0)) {
          LastOccurrencesApps(rest, k);
        }
      }
    }
  }

  lemma NewestDropFront(L: seq<WindowInfo>, w: WindowInfo, n: nat)
    requires 1 <= n < |L|
    ensures Newest(L[|L| - n..] + [w], n) == L[|L| - n + 1..] + [w]
    ensures Newest(L + [w], n) == L[|L| - n + 1..] + [w]
  {
    var d := |L| - n;
    assert (L[d..] + [w])[1..] == L[d + 1..] + [w];
    assert (L + [w])[|L| + 1 - n..] == L[d + 1..] + [w];
  }

  /** An application absent from a history is absent from its tail. */
  lemma NoAppInSuffix(L: seq<WindowInfo>, d: int, key: string)
    requires 0 <= d <= |L| && !HasApp(L, key)
    ensures !HasApp(L[d..], key)
  {
    forall j | 0 <= j < |L| - d ensures AppKey(L[d..][j]) != key {
      assert L[d..][j] == L[j + d];
    }
  }

  /** The first entry of an application at `i >= d` is the first in the
      tail from `d` too. */
  lemma FirstInSuffix(L: seq<WindowInfo>, d: int, i: int, key: string)
    requires 0 <= d <= i < |L| && AppKey(L[i]) == key
    requires forall j :: 0 <= j < i ==> AppKey(L[j]) != key
    ensures AppKey(L[d..][i - d]) == key
    ensures forall j :: 0 <= j < i - d ==> AppKey(L[d..][j]) != key
  {
    forall j | 0 <= j < i - d ensures AppKey(L[d..][j]) != key {
      assert L[d..][j] == L[j + d];
    }
  }

  /** A sequence of more than `n` keeps its tail from `|s| - n`. */
  lemma NewestIsTail(s: seq<WindowInfo>, n: nat)
    requires n < |s|
    ensures Newest(s, n) == s[|s| - n..]
  {
  }

  lemma NewestAfterMoveAbsent(L: seq<WindowInfo>, w: WindowInfo, n: nat)
    requires 1 <= n < |L| && !HasApp(L, AppKey(w))
    ensures Newest(RemoveApp(Newest(L, n), AppKey(w)) + [w], n)
         == Newest(RemoveApp(L, AppKey(w)) + [w], n)
  {
    var d, k := |L| - n, AppKey(w);
    var T := L[d..];
    calc {
      Newest(RemoveApp(Newest(L, n), k) + [w], n);
      { assert Newest(L, n) == T; }
      Newest(RemoveApp(T, k) + [w], n);
      { NoAppInSuffix(L, d, k); }
      Newest(T + [w], n);
      { NewestDropFront(L, w, n); }
      Newest(L + [w], n);
      Newest(RemoveApp(L, k) + [w], n);
    }
  }

  /** Deleting inside the newest `n` and then keeping the newest `n` is
      deleting in the whole sequence and then keeping the newest `n`. */
  lemma NewestOfDeleteInWindow(L: seq<WindowInfo>, w: WindowInfo, n: nat, i: int)
    requires 1 <= n < |L| && |L| - n <= i < |L|
    ensures Newest(Delete(L[|L| - n..], i - (|L| - n)) + [w], n) == Newest(Delete(L, i) + [w], n)
  {
    var d := |L| - n;
    var S, R := Delete(L[d..], i - d) + [w], Delete(L, i) + [w];
    assert |S| == n && |R| - n == d;
    assert Newest(S, n) == S;
    NewestIsTail(R, n);
    DeleteThenDrop(L, i, d, w);
  }

  /** The first entry of the application inside the newest `n` is what
      removal takes out of them. */
  lemma RemoveAppInWindow(L: seq<WindowInfo>, key: string, n: nat, i: int)
    requires 1 <= n < |L| && |L| - n <= i < |L| && AppKey(L[i]) == key
    requires forall j :: 0 <= j < i ==> AppKey(L[j]) != key
    ensures RemoveApp(Newest(L, n), key) == Delete(L[|L| - n..], i - (|L| - n))
  {
    var d := |L| - n;
    NewestIsTail(L, n);
    var T := L[d..];
    FirstInSuffix(L, d, i, key);
    RemoveAppAt(T, key, i - d);
  }

  lemma NewestAfterMoveInWindow(L: seq<WindowInfo>, w: WindowInfo, n: nat, i: int)
    requires 1 <= n < |L|
    requires |L| - n <= i < |L| && AppKey(L[i]) == AppKey(w)
    requires forall j :: 0 <= j < i ==> AppKey(L[j]) != AppKey(w)
    ensures Newest(RemoveApp(Newest(L, n), AppKey(w)) + [w], n)
         == Newest(RemoveApp(L, AppKey(w)) + [w], n)
  {
    RemoveAppInWindow(L, AppKey(w), n, i);
    RemoveAppAt(L, AppKey(w), i);
    NewestOfDeleteInWindow(L, w, n, i);
  }

  /** In a history without repeats, an application held before the tail
      from `d` is absent from that tail. */
  lemma EarlierAppNotInSuffix(L: seq<WindowInfo>, d: int, i: int)
    requires DistinctApps(L) && 0 <= i < d <= |L|
    ensures !HasApp(L[d..], AppKey(L[i]))
  {
    forall j | 0 <= j < |L| - d ensures AppKey(L[d..][j]) != AppKey(L[i]) {
      assert L[d..][j] == L[j + d];
    }
  }

  lemma NewestAfterMoveBeforeWindow(L: seq<WindowInfo>, w: WindowInfo, n: nat, i: int)
    requires 1 <= n < |L| && DistinctApps(L)
    requires 0 <= i < |L| - n && AppKey(L[i]) == AppKey(w)
    requires forall j :: 0 <= j < i ==> AppKey(L[j]) != AppKey(w)
    ensures Newest(RemoveApp(Newest(L, n), AppKey(w)) + [w], n)
         == Newest(RemoveApp(L, AppKey(w)) + [w], n)
  {
    var d, k := |L| - n, AppKey(w);
    var T := L[d..];
    assert Newest(L, n) == T;
    EarlierAppNotInSuffix(L, d, i);
    assert RemoveApp(T, k) == T;
    NewestDropFront(L, w, n);
    assert Newest(T + [w], n) == L[d + 1..] + [w];
    DeleteBeforeDrop(L, i, d, w);
    NewestIsTail(Delete(L, i) + [w], n);
    RemoveAppAt(L, k, i);
  }

  /** Keeping the newest `n` before or after the move gives the same
      result, provided no application is held twice. */
  lemma NewestAfterMove(L: seq<WindowInfo>, w: WindowInfo, n: nat)
    requires n >= 1 && DistinctApps(L)
    ensures Newest(RemoveApp(Newest(L, n), AppKey(w)) + [w], n)
         == Newest(RemoveApp(L, AppKey(w)) + [w], n)
  {
    if |L| > n {
      if !HasApp(L, AppKey(w)) {
        NewestAfterMoveAbsent(L, w, n);
      } else {
        var i := FirstApp(L, AppKey(w));
        if i >= |L| - n {
          NewestAfterMoveInWindow(L, w, n, i);
        } else {
          NewestAfterMoveBeforeWindow(L, w, n, i);
        }
      }
    }
  }

  /** The position of the first entry of an application that is held. */
  function FirstApp(h: seq<WindowInfo>, key: string): (i: int)
    requires HasApp(h, key)
    ensures 0 <= i < |h| && AppKey(h[i]) == key
    ensures forall j :: 0 <= j < i ==> AppKey(h[j]) != key
    decreases |h|
  {
    if AppKey(h[0]) == key then 0
    else
      assert HasApp(h[1..], key) by {
        var k :| 0 <= k < |h| && AppKey(h[k]) == key;
        assert AppKey(h[1..][k - 1]) == key;
      }
      1 + FirstApp(h[1..], key)
  }

  lemma {:induction false} LastOccurrencesDistinct(vs: seq<WindowInfo>)
    ensures DistinctApps(LastOccurrences(vs))
    decreases |vs|
  {
    if |vs| > 0 {
      LastOccurrencesDistinct(vs[1..]);
      if !HasApp(vs[1..], AppKey(vs[0])) {
        var rest := LastOccurrences(vs[1..]);
        var r := [vs[0]] + rest;
        LastOccurrencesApps(vs[1..], AppKey(vs[0]));
        forall i, j | 0 <= i < j < |r|
          ensures AppKey(r[i]) != AppKey(r[j])
        {
          if i == 0 {
            assert AppKey(rest[j - 1]) != AppKey(vs[0]);
          }
        }
      }
    }
  }

  /** The history after a run of visits, each stamped with its own time. */
  function HistoryOf(visits: seq<WindowInfo>, excluded: set<string>): seq<WindowInfo>
    decreases |visits|
  {
    if |visits| == 0 then []
    else
      var last := visits[|visits| - 1];
      AddToHistory(HistoryOf(visits[..|visits| - 1], excluded), last, excluded, last.lastActive)
  }

  /** The history holds exactly the 20 most recently seen distinct
      non-excluded applications, each at its latest visit, oldest first. */
  lemma {:induction false} HistoryIsNewestDistinctApps(visits: seq<WindowInfo>, excluded: set<string>)
    ensures HistoryOf(visits, excluded) == Newest(LastOccurrences(Admitted(visits, excluded)), MaxHistory)
    decreases |visits|
  {
    if |visits| > 0 {
      var prefix, last := visits[..|visits| - 1], visits[|visits| - 1];
      HistoryIsNewestDistinctApps(prefix, excluded);
      var A := Admitted(prefix, excluded);
      if AppKey(last) !in excluded {
        assert last.(lastActive := last.lastActive) == last;
        LastOccurrencesDistinct(A);
        NewestAfterMove(LastOccurrences(A), last, MaxHistory);
        LastOccurrencesAppend(A, last);
      } else {
        assert Admitted(visits, excluded) == A + [];
        assert A + [] == A;
        assert HistoryOf(visits, excluded) == HistoryOf(prefix, excluded);
      }
    }
  }

  /** Visits to distinct applications are kept as they are. */
  lemma {:induction false} LastOccurrencesOfDistinct(vs: seq<WindowInfo>)
    requires DistinctApps(vs)
    ensures LastOccurrences(vs) == vs
    decreases |vs|
  {
    if |vs| > 0 {
      FirstNotRepeated(vs);
      LastOccurrencesOfDistinct(vs[1..]);
      assert vs == [vs[0]] + vs[1..];
    }
  }

  lemma {:induction false} AdmittedAll(visits: seq<WindowInfo>, excluded: set<string>)
    requires forall i :: 0 <= i < |visits| ==> AppKey(visits[i]) !in excluded
    ensures Admitted(visits, excluded) == visits
    decreases |visits|
  {
    if |visits| > 0 {
      AdmittedAll(visits[..|visits| - 1], excluded);
      assert visits[..|visits| - 1] + [visits[|visits| - 1]] == visits;
    }
  }

  /** Visits to distinct, non-excluded applications are all held, up to the
      last 20. */
  lemma DistinctVisitsHistory(visits: seq<WindowInfo>, excluded: set<string>)
    requires DistinctApps(visits) && |visits| >= MaxHistory
    requires forall i :: 0 <= i < |visits| ==> AppKey(visits[i]) !in excluded
    ensures HistoryOf(visits, excluded) == visits[|visits| - MaxHistory..]
  {
    HistoryIsNewestDistinctApps(visits, excluded);
    AdmittedAll(visits, excluded);
    LastOccurrencesOfDistinct(visits);
  }

  /** After at least 20 visits to distinct, non-excluded applications,
      `get_window_history` lists the last 20 visits sorted newest first;
      when each visit is stamped later than the one before, that is the
      last 20 in reverse order of visit. */
  lemma DistinctVisitsKeepLastTwenty(visits: seq<WindowInfo>, excluded: set<string>)
    requires DistinctApps(visits) && |visits| >= MaxHistory
    requires forall i :: 0 <= i < |visits| ==> AppKey(visits[i]) !in excluded
    ensures multiset(WindowHistory(HistoryOf(visits, excluded))) == multiset(visits[|visits| - MaxHistory..])
    ensures StampsIncrease(visits) ==>
              WindowHistory(HistoryOf(visits, excluded)) == Reverse(visits[|visits| - MaxHistory..])
  {
    var h := HistoryOf(visits, excluded);
    assert h == visits[|visits| - MaxHistory..] by {
      DistinctVisitsHistory(visits, excluded);
    }
    NewestFirstOfTail(visits, MaxHistory, h);
  }

  lemma NewestFirstOfTail(visits: seq<WindowInfo>, n: nat, tail: seq<WindowInfo>)
    requires n <= |visits| && tail == visits[|visits| - n..]
    ensures multiset(WindowHistory(tail)) == multiset(visits[|visits| - n..])
    ensures StampsIncrease(visits) ==> WindowHistory(tail) == Reverse(visits[|visits| - n..])
  {
    WindowHistorySorted(tail);
    if StampsIncrease(visits) {
      StampsIncreaseSlice(visits, |visits| - n, |visits|);
      assert visits[|visits| - n..|visits|] == tail;
      WindowHistoryIsReverse(tail);
    }
  }

  // ---------------------------------------------------------------------
  // Timestamps

  /** Entries are held in the order they were stamped. */
  predicate StampsIncrease(h: seq<WindowInfo>) {
    forall i, j :: 0 <= i < j < |h| ==> h[i].lastActive < h[j].lastActive
  }

  lemma {:induction false} RemoveAppKeepsStampOrder(h: seq<WindowInfo>, key: string)
    requires StampsIncrease(h)
    ensures StampsIncrease(RemoveApp(h, key))
    decreases |h|
  {
    if |h| > 0 && AppKey(h[0]) != key {
      RemoveAppKeepsStampOrder(h[1..], key);
      var rest := RemoveApp(h[1..], key);
      var r := [h[0]] + rest;
      forall i, j | 0 <= i < j < |r|
        ensures r[i].lastActive < r[j].lastActive
      {
        if i == 0 {
          assert r[j] in h[1..];
          var k :| 0 <= k < |h[1..]| && h[1..][k] == r[j];
          assert h[k + 1] == r[j];
        }
      }
    }
  }

  /** Every entry was stamped before `now`. */
  predicate StampedBefore(h: seq<WindowInfo>, now: int) {
    forall i :: 0 <= i < |h| ==> h[i].lastActive < now
  }

  /** With a clock that moves forward, the history stays in stamp order. */
  lemma AddToHistoryKeepsStampOrder(h: seq<WindowInfo>, w: WindowInfo, excluded: set<string>, now: int)
    requires StampsIncrease(h)
    requires StampedBefore(h, now)
    ensures StampsIncrease(AddToHistory(h, w, excluded, now))
  {
    if AppKey(w) !in excluded {
      RemoveAppKeepsStampOrder(h, AppKey(w));
      var removed := RemoveApp(h, AppKey(w));
      var moved := removed + [w.(lastActive := now)];
      forall i, j | 0 <= i < j < |moved|
        ensures moved[i].lastActive < moved[j].lastActive
      {
        if j == |moved| - 1 {
          assert removed[i] in h;
        }
      }
    }
  }

  /** After admitting at `now` a history stamped before it, no entry is
      stamped later than `now`. */
  lemma AddToHistoryStampedBy(h: seq<WindowInfo>, w: WindowInfo, excluded: set<string>, now: int)
    ensures StampedBefore(h, now) ==> StampedBefore(AddToHistory(h, w, excluded, now), now + 1)
  {
    if StampedBefore(h, now) && AppKey(w) !in excluded {
      var removed := RemoveApp(h, AppKey(w));
      assert StampedBefore(removed, now) by { SubsetStampedBefore(h, removed, now); }
      AppendStampedBy(removed, w.(lastActive := now), now);
    }
  }

  lemma SubsetStampedBefore(h: seq<WindowInfo>, s: seq<WindowInfo>, now: int)
    requires StampedBefore(h, now)
    requires forall e :: e in s ==> e in h
    ensures StampedBefore(s, now)
  {
    forall i | 0 <= i < |s| ensures s[i].lastActive < now {
      assert s[i] in h;
    }
  }

  lemma AppendStampedBy(removed: seq<WindowInfo>, stamped: WindowInfo, now: int)
    requires StampedBefore(removed, now)
    requires stamped.lastActive == now
    ensures StampedBefore(Newest(removed + [stamped], MaxHistory), now + 1)
  {
    var moved := removed + [stamped];
    var r := Newest(moved, MaxHistory);
    forall i | 0 <= i < |r| ensures r[i].lastActive < now + 1 {
      var k := |moved| - |r| + i;
      assert r[i] == moved[k];
    }
  }

  lemma StampOrderKeptWhenForward(h: seq<WindowInfo>, w: WindowInfo, excluded: set<string>, now: int)
    ensures StampsIncrease(h) && StampedBefore(h, now) ==>
              StampsIncrease(AddToHistory(h, w, excluded, now))
  {
    if StampsIncrease(h) && StampedBefore(h, now) {
      AddToHistoryKeepsStampOrder(h, w, excluded, now);
    }
  }

  /** Ordered newest first: no entry is stamped later than one before it. */
  predicate NewestFirst(r: seq<WindowInfo>) {
    forall i, j :: 0 <= i < j < |r| ==> r[i].lastActive >= r[j].lastActive
  }

  /** One step of a stable sort, newest first: `x` comes from behind every
      entry of `r`, so it goes after each entry stamped no earlier than it. */
  function InsertByStamp(r: seq<WindowInfo>, x: WindowInfo): (o: seq<WindowInfo>)
    ensures |o| == |r| + 1
    ensures forall y :: y in o <==> y in r || y == x
    decreases |r|
  {
    if |r| == 0 then [x]
    else if r[0].lastActive >= x.lastActive then
      assert r == [r[0]] + r[1..];
      [r[0]] + InsertByStamp(r[1..], x)
    else [x] + r
  }

  lemma {:induction false} InsertByStampPermutes(r: seq<WindowInfo>, x: WindowInfo)
    ensures multiset(InsertByStamp(r, x)) == multiset(r) + multiset{x}
    decreases |r|
  {
    if |r| > 0 && r[0].lastActive >= x.lastActive {
      InsertByStampPermutes(r[1..], x);
      assert r == [r[0]] + r[1..];
    }
  }

  lemma {:induction false} InsertByStampSorted(r: seq<WindowInfo>, x: WindowInfo)
    requires NewestFirst(r)
    ensures NewestFirst(InsertByStamp(r, x))
    decreases |r|
  {
    var o := InsertByStamp(r, x);
    if |r| > 0 && r[0].lastActive >= x.lastActive {
      var rest := InsertByStamp(r[1..], x);
      InsertByStampSorted(r[1..], x);
      assert o == [r[0]] + rest;
      forall j | 0 < j < |o| ensures o[0].lastActive >= o[j].lastActive {
        assert o[j] == rest[j - 1];
        assert o[j] in rest;
        if o[j] != x {
          var k :| 0 <= k < |r[1..]| && r[1..][k] == o[j];
          assert r[k + 1] == o[j];
        }
      }
    } else if |r| > 0 {
      assert o == [x] + r;
    }
  }

  /** `get_window_history`: the history sorted by stamp, newest first, by
      a stable sort, so entries stamped alike keep their order. */
  function WindowHistory(h: seq<WindowInfo>): (r: seq<WindowInfo>)
    ensures |r| == |h|
    ensures forall y :: y in r <==> y in h
    decreases |h|
  {
    if |h| == 0 then []
    else
      var front := h[..|h| - 1];
      assert h == front + [h[|h| - 1]];
      InsertByStamp(WindowHistory(front), h[|h| - 1])
  }

  /** The newest-first list holds the history's entries, each as often as
      the history does, with no entry stamped later than one before it. */
  lemma {:induction false} WindowHistorySorted(h: seq<WindowInfo>)
    ensures multiset(WindowHistory(h)) == multiset(h)
    ensures NewestFirst(WindowHistory(h))
    decreases |h|
  {
    if |h| > 0 {
      var front, x := h[..|h| - 1], h[|h| - 1];
      assert h == front + [x];
      WindowHistorySorted(front);
      InsertByStampPermutes(WindowHistory(front), x);
      InsertByStampSorted(WindowHistory(front), x);
    }
  }

  lemma StampsIncreaseSlice(h: seq<WindowInfo>, lo: int, hi: int)
    requires StampsIncrease(h) && 0 <= lo <= hi <= |h|
    ensures StampsIncrease(h[lo..hi])
  {
    forall i, j | 0 <= i < j < hi - lo ensures h[lo..hi][i].lastActive < h[lo..hi][j].lastActive {
      assert h[lo..hi][i] == h[lo + i] && h[lo..hi][j] == h[lo + j];
    }
  }

  /** An entry stamped later than the newest goes in front. */
  lemma InsertNewest(r: seq<WindowInfo>, x: WindowInfo)
    requires |r| == 0 || r[0].lastActive < x.lastActive
    ensures InsertByStamp(r, x) == [x] + r
  {
  }

  /** Reversed, a history in stamp order has strictly decreasing stamps. */
  lemma ReverseOfStampOrder(h: seq<WindowInfo>)
    requires StampsIncrease(h)
    ensures forall i, j :: 0 <= i < j < |h| ==> Reverse(h)[i].lastActive > Reverse(h)[j].lastActive
  {
    var rh := Reverse(h);
    forall i, j | 0 <= i < j < |h| ensures rh[i].lastActive > rh[j].lastActive {
      assert rh[i] == h[|h| - 1 - i] && rh[j] == h[|h| - 1 - j];
    }
  }

  /** With every entry stamped later than the one before it, which a
      forward clock keeps (`AddToHistoryKeepsStampOrder`), the newest-first
      sort is the history reversed, stamps strictly decreasing. */
  lemma {:induction false} WindowHistoryIsReverse(h: seq<WindowInfo>)
    requires StampsIncrease(h)
    ensures WindowHistory(h) == Reverse(h)
    ensures forall i, j :: 0 <= i < j < |h| ==>
              WindowHistory(h)[i].lastActive > WindowHistory(h)[j].lastActive
    decreases |h|
  {
    if |h| > 0 {
      var n := |h|;
      var front, x := h[..n - 1], h[n - 1];
      assert WindowHistory(h) == InsertByStamp(WindowHistory(front), x);
      StampsIncreaseSlice(h, 0, n - 1);
      WindowHistoryIsReverse(front);
      var rf := Reverse(front);
      if n > 1 {
        assert rf[0] == front[n - 2] == h[n - 2];
      }
      InsertNewest(rf, x);
      ReverseSnoc(h);
    }
    ReverseOfStampOrder(h);
  }

  /** Entries stamped alike keep their history order in the newest-first
      list, where a reversal would swap them. */
  lemma EqualStampsKeepOrder(a: WindowInfo, b: WindowInfo)
    requires a.lastActive == b.lastActive && a != b
    ensures WindowHistory([a, b]) == [a, b]
    ensures Reverse([a, b]) != WindowHistory([a, b])
  {
    assert [a, b][..1] == [a];
    assert [a][..0] == [];
    assert WindowHistory([a]) == InsertByStamp([], a) == [a];
    assert WindowHistory([a, b]) == InsertByStamp([a], b) == [a] + InsertByStamp([], b);
    assert Reverse([a, b])[0] == b;
  }

  /** `add_to_excluded_apps`. */
  function AddToExcludedApps(excluded: set<string>, name: string): (r: set<string>)
    ensures Lower(name) in r && excluded <= r
    ensures forall k :: k in r ==> k in excluded || k == Lower(name)
  {
    excluded + {Lower(name)}
  }

  // ---------------------------------------------------------------------
  // Recent applications

  /** The process names of the entries, in order. */
  function Names(ws: seq<WindowInfo>): (r: seq<string>)
    ensures |r| == |ws|
    ensures forall i :: 0 <= i < |ws| ==> r[i] == ws[i].processName
  {
    if |ws| == 0 then [] else [ws[0].processName] + Names(ws[1..])
  }

  /** The lower-cased names in a list. */
  function Keys(names: seq<string>): (r: set<string>)
    ensures forall i :: 0 <= i < |names| ==> Lower(names[i]) in r
    ensures forall k :: k in r ==> exists i :: 0 <= i < |names| && Lower(names[i]) == k
  {
    set i | 0 <= i < |names| :: Lower(names[i])
  }

  /** The loop of `get_recent_apps` as written: a name is appended when
      its lower-case form is neither seen nor excluded, and the loop stops
      once the list has reached `limit`, checked only after appending. */
  function CollectRecent(ws: seq<WindowInfo>, excluded: set<string>, limit: int,
                         acc: seq<string>, seen: set<string>): (r: seq<string>)
    ensures |acc| <= |r|
    decreases |ws|
  {
    if |ws| == 0 then acc
    else
      var name := ws[0].processName;
      if Lower(name) !in seen && Lower(name) !in excluded then
        if |acc + [name]| >= limit then acc + [name]
        else CollectRecent(ws[1..], excluded, limit, acc + [name], seen + {Lower(name)})
      else CollectRecent(ws[1..], excluded, limit, acc, seen)
  }

  /** `get_recent_apps(limit)` as written, on the newest-first history. */
  function RecentAppsAsWritten(h: seq<WindowInfo>, excluded: set<string>, limit: int): seq<string> {
    CollectRecent(WindowHistory(h), excluded, limit, [], {})
  }

  /** The first `limit` names, newest first, whose application is neither
      skipped nor already listed: the list `get_recent_apps` promises. */
  function Recent(ws: seq<WindowInfo>, skip: set<string>, limit: int): (r: seq<string>)
    ensures |r| <= (if limit < 0 then 0 else limit)
    ensures forall i :: 0 <= i < |r| ==> Lower(r[i]) !in skip
    ensures forall i, j :: 0 <= i < j < |r| ==> Lower(r[i]) != Lower(r[j])
    decreases |ws|
  {
    if limit <= 0 || |ws| == 0 then []
    else
      var name := ws[0].processName;
      if Lower(name) in skip then
        Recent(ws[1..], skip, limit)
      else
        [name] + Recent(ws[1..], skip + {Lower(name)}, limit - 1)
  }

  /** The list keeps the history's order: it is a subsequence of its names. */
  lemma {:induction false} RecentIsSubsequence(ws: seq<WindowInfo>, skip: set<string>, limit: int)
    ensures IsSubsequence(Recent(ws, skip, limit), Names(ws))
    decreases |ws|
  {
    if limit > 0 && |ws| > 0 {
      var name := ws[0].processName;
      assert Names(ws) == [name] + Names(ws[1..]);
      if Lower(name) in skip {
        RecentIsSubsequence(ws[1..], skip, limit);
        SubsequenceCons(Recent(ws[1..], skip, limit), name, Names(ws[1..]));
      } else {
        RecentIsSubsequence(ws[1..], skip + {Lower(name)}, limit - 1);
      }
    }
  }

  /** A list shorter than the limit misses no application of the history
      that is not skipped. */
  lemma {:induction false} RecentIsComplete(ws: seq<WindowInfo>, skip: set<string>, limit: int)
    requires |Recent(ws, skip, limit)| < limit
    ensures forall i :: 0 <= i < |ws| ==> AppKey(ws[i]) in skip + Keys(Recent(ws, skip, limit))
    decreases |ws|
  {
    if |ws| > 0 {
      var name := ws[0].processName;
      if Lower(name) in skip {
        var r := Recent(ws[1..], skip, limit);
        RecentIsComplete(ws[1..], skip, limit);
        forall i | 1 <= i < |ws| ensures AppKey(ws[i]) in skip + Keys(r) {
          assert ws[i] == ws[1..][i - 1];
        }
      } else {
        var rest := Recent(ws[1..], skip + {Lower(name)}, limit - 1);
        var r := [name] + rest;
        RecentIsComplete(ws[1..], skip + {Lower(name)}, limit - 1);
        assert Lower(r[0]) in Keys(r);
        forall i | 1 <= i < |ws| ensures AppKey(ws[i]) in skip + Keys(r) {
          assert ws[i] == ws[1..][i - 1];
          if AppKey(ws[i]) in Keys(rest) {
            var j :| 0 <= j < |rest| && Lower(rest[j]) == AppKey(ws[i]);
            assert r[j + 1] == rest[j];
          }
        }
      }
    }
  }

  /** `get_recent_apps(limit)` with the corrected bound. */
  function RecentApps(h: seq<WindowInfo>, excluded: set<string>, limit: int): (r: seq<string>)
    ensures |r| <= (if limit < 0 then 0 else limit)
    ensures forall i :: 0 <= i < |r| ==> Lower(r[i]) !in excluded
  {
    Recent(WindowHistory(h), excluded, limit)
  }

  /** While the list is below the limit, the loop computes the reference
      list for what is left. */
  lemma {:induction false} CollectIsRecent(ws: seq<WindowInfo>, excluded: set<string>, limit: int,
                                           acc: seq<string>, seen: set<string>)
    requires |acc| < limit
    ensures CollectRecent(ws, excluded, limit, acc, seen) == acc + Recent(ws, excluded + seen, limit - |acc|)
    decreases |ws|
  {
    if |ws| == 0 {
      assert acc + [] == acc;
    } else {
      var name := ws[0].processName;
      if Lower(name) !in seen && Lower(name) !in excluded {
        var skip := excluded + seen;
        assert Lower(name) !in skip;
        assert Recent(ws, skip, limit - |acc|)
            == [name] + Recent(ws[1..], skip + {Lower(name)}, limit - |acc| - 1);
        if |acc + [name]| < limit {
          CollectIsRecent(ws[1..], excluded, limit, acc + [name], seen + {Lower(name)});
          assert excluded + (seen + {Lower(name)}) == skip + {Lower(name)};
        } else {
          assert Recent(ws[1..], skip + {Lower(name)}, 0) == [];
        }
      } else {
        assert Recent(ws, excluded + seen, limit - |acc|) == Recent(ws[1..], excluded + seen, limit - |acc|);
        CollectIsRecent(ws[1..], excluded, limit, acc, seen);
      }
    }
  }

  /** For every limit the application uses (1 and 10), the loop as written
      and the reference agree. */
  lemma RecentAppsAgree(h: seq<WindowInfo>, excluded: set<string>, limit: int)
    requires limit >= 1
    ensures RecentAppsAsWritten(h, excluded, limit) == RecentApps(h, excluded, limit)
  {
    CollectIsRecent(WindowHistory(h), excluded, limit, [], {});
    assert excluded + {} == excluded;
  }

  /** With a limit of zero or below the loop as written still returns one
      name, the newest entry's, because the bound is checked only after
      appending. */
  lemma RecentAppsZeroLimit(h: seq<WindowInfo>, excluded: set<string>, limit: int)
    requires limit <= 0 && |h| > 0
    requires AppKey(WindowHistory(h)[0]) !in excluded
    ensures RecentAppsAsWritten(h, excluded, limit) == [WindowHistory(h)[0].processName]
    ensures RecentApps(h, excluded, limit) == []
  {
    CollectZeroLimit(WindowHistory(h), excluded, limit);
  }

  lemma CollectZeroLimit(ws: seq<WindowInfo>, excluded: set<string>, limit: int)
    requires limit <= 0 && |ws| > 0 && AppKey(ws[0]) !in excluded
    ensures CollectRecent(ws, excluded, limit, [], {}) == [ws[0].processName]
    ensures Recent(ws, excluded, limit) == []
  {
    assert [] + [ws[0].processName] == [ws[0].processName];
  }

  /** For a history of distinct applications none of which is excluded
      and within the limit, the recent list is every name, newest first. */
  lemma {:induction false} RecentOfDistinct(ws: seq<WindowInfo>, skip: set<string>, limit: int)
    requires DistinctApps(ws) && |ws| <= limit
    requires forall i :: 0 <= i < |ws| ==> AppKey(ws[i]) !in skip
    ensures Recent(ws, skip, limit) == Names(ws)
    decreases |ws|
  {
    if |ws| > 0 {
      var k := AppKey(ws[0]);
      forall i | 0 <= i < |ws[1..]| ensures AppKey(ws[1..][i]) !in skip + {k} {
        assert ws[1..][i] == ws[i + 1];
      }
      RecentOfDistinct(ws[1..], skip + {k}, limit - 1);
      assert Names(ws) == [ws[0].processName] + Names(ws[1..]);
    }
  }

  lemma {:induction false} InsertByStampKeepsDistinct(r: seq<WindowInfo>, x: WindowInfo)
    requires DistinctApps(r)
    requires forall i :: 0 <= i < |r| ==> AppKey(r[i]) != AppKey(x)
    ensures DistinctApps(InsertByStamp(r, x))
    decreases |r|
  {
    var o := InsertByStamp(r, x);
    if |r| > 0 && r[0].lastActive >= x.lastActive {
      var rest := InsertByStamp(r[1..], x);
      forall i, j | 0 <= i < j < |r[1..]| ensures AppKey(r[1..][i]) != AppKey(r[1..][j]) {
        assert r[1..][i] == r[i + 1] && r[1..][j] == r[j + 1];
      }
      forall i | 0 <= i < |r[1..]| ensures AppKey(r[1..][i]) != AppKey(x) {
        assert r[1..][i] == r[i + 1];
      }
      InsertByStampKeepsDistinct(r[1..], x);
      forall i, j | 0 <= i < j < |o| ensures AppKey(o[i]) != AppKey(o[j]) {
        assert o[j] == rest[j - 1];
        if i == 0 {
          assert o[j] in rest;
          if o[j] != x {
            var k :| 0 <= k < |r[1..]| && r[1..][k] == o[j];
            assert r[k + 1] == o[j];
          }
        } else {
          assert o[i] == rest[i - 1];
        }
      }
    } else if |r| > 0 {
      forall i, j | 0 <= i < j < |o| ensures AppKey(o[i]) != AppKey(o[j]) {
        assert o[j] == r[j - 1];
        if i > 0 {
          assert o[i] == r[i - 1];
        }
      }
    }
  }

  /** Sorting keeps a history of distinct applications distinct. */
  lemma {:induction false} WindowHistoryKeepsDistinct(h: seq<WindowInfo>)
    requires DistinctApps(h)
    ensures DistinctApps(WindowHistory(h))
    decreases |h|
  {
    if |h| > 0 {
      var n := |h|;
      var front, x := h[..n - 1], h[n - 1];
      forall i, j | 0 <= i < j < |front| ensures AppKey(front[i]) != AppKey(front[j]) {
        assert front[i] == h[i] && front[j] == h[j];
      }
      WindowHistoryKeepsDistinct(front);
      var sf := WindowHistory(front);
      forall i | 0 <= i < |sf| ensures AppKey(sf[i]) != AppKey(x) {
        assert sf[i] in front;
        var k :| 0 <= k < |front| && front[k] == sf[i];
        assert front[k] == h[k];
      }
      InsertByStampKeepsDistinct(sf, x);
    }
  }

  /** A history of at most ten applications, none excluded, is offered in
      full as the recent list, newest first. */
  lemma RecentAppsListsWholeHistory(h: seq<WindowInfo>, excluded: set<string>)
    requires DistinctApps(h) && |h| <= 10
    requires forall i :: 0 <= i < |h| ==> AppKey(h[i]) !in excluded
    ensures RecentApps(h, excluded, 10) == Names(WindowHistory(h))
  {
    WindowHistoryKeepsDistinct(h);
    var r := WindowHistory(h);
    forall i | 0 <= i < |r| ensures AppKey(r[i]) !in excluded {
      assert r[i] in h;
      var k :| 0 <= k < |h| && h[k] == r[i];
    }
    RecentOfDistinct(r, excluded, 10);
  }

  // ---------------------------------------------------------------------
  // One pass of the monitor loop

  /** The state of `ActiveWindowMonitor` the loop reads and writes. */
  datatype Monitor = Monitor(
    targets: set<string>,
    current: Option<WindowInfo>,
    targetActive: bool,
    history: seq<WindowInfo>,
    excluded: set<string>,
    checkIntervalMs: int)

  const InitialMonitor := Monitor({}, None, false, [], DefaultExcluded, DefaultCheckIntervalMs)

  /** The signals the monitor emits. */
  datatype MonitorEvent =
    | WindowHistoryUpdated(apps: seq<string>)
    | ActiveWindowChanged(window: WindowInfo)
    | TargetWindowActivated
    | TargetWindowDeactivated

  /** The change test of the loop: unlike `__eq__`, it compares process
      name and title exactly. */
  predicate WindowChanged(current: Option<WindowInfo>, w: WindowInfo) {
    current.None? || current.value.processName != w.processName || current.value.title != w.title
  }

  /** What the monitor keeps between passes. */
  predicate MonitorInv(m: Monitor) {
    DistinctApps(m.history) && |m.history| <= MaxHistory
  }

  /** The signal of a flip of the target state, if any. */
  function FlipEvents(was: bool, isTarget: bool): (r: seq<MonitorEvent>)
    ensures TargetWindowActivated in r <==> !was && isTarget
    ensures TargetWindowDeactivated in r <==> was && !isTarget
    ensures forall e :: e in r ==> e.TargetWindowActivated? || e.TargetWindowDeactivated?
  {
    if isTarget == was then []
    else if isTarget then [TargetWindowActivated] else [TargetWindowDeactivated]
  }

  /** The signals of a changed window: the refreshed recent list unless it
      is excluded, then the window itself. */
  function ChangeEvents(w: WindowInfo, admitted: bool, apps: seq<string>): (r: seq<MonitorEvent>)
    ensures (exists e :: e in r && e.ActiveWindowChanged?)
    ensures (exists e :: e in r && e.WindowHistoryUpdated?) <==> admitted
    ensures TargetWindowActivated !in r && TargetWindowDeactivated !in r
  {
    var r := (if admitted then [WindowHistoryUpdated(apps)] else []) + [ActiveWindowChanged(w)];
    assert r[|r| - 1].ActiveWindowChanged?;
    assert admitted ==> r[0].WindowHistoryUpdated?;
    r
  }

  /** One pass of `run`: `probe` is what the platform detector reported
      (`None` when it found no window), `now` the clock. A changed window
      is recorded (and stamped, unless excluded) and announced; then the
      target state is recomputed and a flip is announced. */
  function Tick(m: Monitor, probe: Option<WindowInfo>, now: int): (r: (Monitor, seq<MonitorEvent>))
    ensures probe.None? ==> r == (m, [])
    ensures r.0.targets == m.targets && r.0.excluded == m.excluded
    ensures r.0.checkIntervalMs == m.checkIntervalMs
    ensures probe.Some? ==> r.0.targetActive == IsTargetWindow(m.targets, probe.value)
    ensures probe.Some? && WindowChanged(m.current, probe.value) ==>
              && r.0.history == AddToHistory(m.history, probe.value, m.excluded, now)
              && r.0.current.Some?
              && r.0.current.value.processName == probe.value.processName
              && r.0.current.value.title == probe.value.title
              && r.0.current.value.lastActive
                   == (if AppKey(probe.value) in m.excluded then probe.value.lastActive else now)
    ensures probe.Some? && WindowChanged(m.current, probe.value) ==>
              r.0.current == Some(if AppKey(probe.value) in m.excluded then probe.value
                                  else probe.value.(lastActive := now))
    ensures probe.Some? && !WindowChanged(m.current, probe.value) ==>
              r.0.current == m.current && r.0.history == m.history
    ensures MonitorInv(m) ==> MonitorInv(r.0)
    ensures StampsIncrease(m.history) && StampedBefore(m.history, now) ==> StampsIncrease(r.0.history)
    ensures StampedBefore(m.history, now) ==> StampedBefore(r.0.history, now + 1)
  {
    if probe.None? then (m, [])
    else
      var w := probe.value;
      var changed := WindowChanged(m.current, w);
      var admitted := AppKey(w) !in m.excluded;
      var shown := if changed && admitted then w.(lastActive := now) else w;
      var history := if changed then AddToHistory(m.history, w, m.excluded, now) else m.history;
      StampOrderKeptWhenForward(m.history, w, m.excluded, now);
      AddToHistoryStampedBy(m.history, w, m.excluded, now);
      var isTarget := IsTargetWindow(m.targets, w);
      var change := if changed then ChangeEvents(shown, admitted, RecentApps(history, m.excluded, 10)) else [];
      (m.(current := if changed then Some(shown) else m.current,
          history := history,
          targetActive := isTarget),
       change + FlipEvents(m.targetActive, isTarget))
  }

  /** The signals of one pass: a flip exactly when the target state
      changes, the window exactly when it differs from the current one, and
      the recent list exactly when it differs and is not excluded. */
  lemma TickSignals(m: Monitor, probe: Option<WindowInfo>, now: int)
    ensures var r := Tick(m, probe, now);
      && (TargetWindowActivated in r.1 <==>
            probe.Some? && !m.targetActive && IsTargetWindow(m.targets, probe.value))
      && (TargetWindowDeactivated in r.1 <==>
            probe.Some? && m.targetActive && !IsTargetWindow(m.targets, probe.value))
      && ((exists e :: e in r.1 && e.ActiveWindowChanged?) <==>
            probe.Some? && WindowChanged(m.current, probe.value))
      && ((exists e :: e in r.1 && e.WindowHistoryUpdated?) <==>
            probe.Some? && WindowChanged(m.current, probe.value) && AppKey(probe.value) !in m.excluded)
  {
    if probe.Some? {
      var w := probe.value;
      var changed := WindowChanged(m.current, w);
      var admitted := AppKey(w) !in m.excluded;
      var shown := if changed && admitted then w.(lastActive := now) else w;
      var history := if changed then AddToHistory(m.history, w, m.excluded, now) else m.history;
      var isTarget := IsTargetWindow(m.targets, w);
      var change := if changed then ChangeEvents(shown, admitted, RecentApps(history, m.excluded, 10)) else [];
      var flip := FlipEvents(m.targetActive, isTarget);
      var evs := change + flip;
      assert Tick(m, probe, now).1 == evs;
      assert forall e :: e in evs <==> e in change || e in flip;
    }
  }

  /** A window that stays in front is announced once: the next pass with
      the same process and title changes nothing and emits nothing. */
  lemma SameWindowIsQuiet(m: Monitor, w: WindowInfo, now: int, later: WindowInfo, nextNow: int)
    requires later.processName == w.processName && later.title == w.title
    ensures var (m1, _) := Tick(m, Some(w), now);
            Tick(m1, Some(later), nextNow) == (m1, [])
  {
    var (m1, _) := Tick(m, Some(w), now);
    assert m1.current.Some? && m1.current.value.processName == w.processName
        && m1.current.value.title == w.title;
    assert !WindowChanged(m1.current, later);
    assert AppKey(later) == AppKey(w);
    assert IsTargetWindow(m1.targets, later) == m1.targetActive;
    var r := Tick(m1, Some(later), nextNow);
    assert r.1 == [];
    assert r.0.current == m1.current;
    assert r.0.history == m1.history;
    assert r.0 == m1;
  }

  /** The target flags emitted, in order: `true` for activation. */
  function Flips(events: seq<MonitorEvent>): (r: seq<bool>)
    ensures |r| <= |events|
  {
    if |events| == 0 then []
    else if events[0].TargetWindowActivated? then [true] + Flips(events[1..])
    else if events[0].TargetWindowDeactivated? then [false] + Flips(events[1..])
    else Flips(events[1..])
  }

  lemma {:induction false} FlipsConcat(a: seq<MonitorEvent>, b: seq<MonitorEvent>)
    ensures Flips(a + b) == Flips(a) + Flips(b)
    decreases |a|
  {
    if |a| > 0 {
      FlipsConcat(a[1..], b);
      assert (a + b)[1..] == a[1..] + b;
    } else {
      assert a + b == b;
    }
  }

  /** Each flag differs from the one before it, the first from `prev`. */
  predicate Alternates(flags: seq<bool>, prev: bool) {
    forall i :: 0 <= i < |flags| ==> flags[i] == (if i % 2 == 0 then !prev else prev)
  }

  /** One observation of the loop: what the detector reported, and when. */
  datatype Probe = Probe(window: Option<WindowInfo>, now: int)

  /** Passes of the loop, in order. */
  function Run(m: Monitor, probes: seq<Probe>): (r: (Monitor, seq<MonitorEvent>))
    decreases |probes|
  {
    if |probes| == 0 then (m, [])
    else
      var (m1, e1) := Tick(m, probes[0].window, probes[0].now);
      var (m2, e2) := Run(m1, probes[1..]);
      (m2, e1 + e2)
  }

  /** A run of signals without target flips contributes no flags. */
  lemma {:induction false} NoFlips(e: seq<MonitorEvent>)
    requires TargetWindowActivated !in e && TargetWindowDeactivated !in e
    ensures Flips(e) == []
    decreases |e|
  {
    if |e| > 0 {
      assert e[0] in e;
      assert forall x :: x in e[1..] ==> x in e;
      NoFlips(e[1..]);
    }
  }

  lemma TickFlips(m: Monitor, probe: Option<WindowInfo>, now: int)
    ensures var (m1, e) := Tick(m, probe, now);
            Flips(e) == (if m1.targetActive == m.targetActive then [] else [m1.targetActive])
  {
    if probe.Some? {
      var w := probe.value;
      var changed := WindowChanged(m.current, w);
      var admitted := AppKey(w) !in m.excluded;
      var shown := if changed && admitted then w.(lastActive := now) else w;
      var history := if changed then AddToHistory(m.history, w, m.excluded, now) else m.history;
      var isTarget := IsTargetWindow(m.targets, w);
      var change := if changed then ChangeEvents(shown, admitted, RecentApps(history, m.excluded, 10)) else [];
      var flip := FlipEvents(m.targetActive, isTarget);
      assert Tick(m, probe, now).1 == change + flip;
      FlipsConcat(change, flip);
      NoFlips(change);
      assert Flips(flip) == (if isTarget == m.targetActive then [] else [isTarget]);
    }
  }


  lemma AlternatesCons(b: bool, rest: seq<bool>, prev: bool)
    requires b != prev && Alternates(rest, b)
    ensures Alternates([b] + rest, prev)
  {
    var f := [b] + rest;
    forall i | 0 < i < |f|
      ensures f[i] == (if i % 2 == 0 then !prev else prev)
    {
      assert f[i] == rest[i - 1];
    }
  }

  /** Over any run the activation and deactivation signals alternate,
      starting from the state the monitor was in, and the last one tells
      the final state. */
  lemma {:induction false} FlipsAlternate(m: Monitor, probes: seq<Probe>)
    ensures Alternates(Flips(Run(m, probes).1), m.targetActive)
    ensures var f := Flips(Run(m, probes).1);
            Run(m, probes).0.targetActive == (if |f| == 0 then m.targetActive else f[|f| - 1])
    decreases |probes|
  {
    if |probes| > 0 {
      var t := Tick(m, probes[0].window, probes[0].now);
      var rest := Run(t.0, probes[1..]);
      assert Run(m, probes) == (rest.0, t.1 + rest.1);
      TickFlips(m, probes[0].window, probes[0].now);
      FlipsAlternate(t.0, probes[1..]);
      FlipsConcat(t.1, rest.1);
      var f2 := Flips(rest.1);
      if t.0.targetActive == m.targetActive {
        assert Flips(t.1) == [];
        assert Flips(t.1 + rest.1) == f2;
      } else {
        AlternatesCons(t.0.targetActive, f2, m.targetActive);
      }
    }
  }

  /** The clock moves forward: each pass is later than the one before, and
      the first is later than every stamp in the history. */
  predicate ClockForward(h: seq<WindowInfo>, probes: seq<Probe>) {
    && (|probes| > 0 ==> StampedBefore(h, probes[0].now))
    && forall i :: 0 <= i < |probes| - 1 ==> probes[i].now < probes[i + 1].now
  }

  /** With a clock that moves forward over a run, the history stays in
      stamp order, so `get_window_history` is the history reversed. */
  lemma {:induction false} RunKeepsStampOrder(m: Monitor, probes: seq<Probe>)
    requires StampsIncrease(m.history) && ClockForward(m.history, probes)
    ensures StampsIncrease(Run(m, probes).0.history)
    ensures WindowHistory(Run(m, probes).0.history) == Reverse(Run(m, probes).0.history)
    decreases |probes|
  {
    if |probes| > 0 {
      var t := Tick(m, probes[0].window, probes[0].now);
      assert Run(m, probes).0 == Run(t.0, probes[1..]).0;
      assert ClockForward(t.0.history, probes[1..]) by {
        forall i | 0 <= i < |probes[1..]| - 1 ensures probes[1..][i].now < probes[1..][i + 1].now {
          assert probes[1..][i] == probes[i + 1] && probes[1..][i + 1] == probes[i + 2];
        }
        if |probes| > 1 {
          assert probes[1..][0] == probes[1];
          assert StampedBefore(t.0.history, probes[0].now + 1);
        }
      }
      RunKeepsStampOrder(t.0, probes[1..]);
    } else {
      WindowHistoryIsReverse(m.history);
    }
  }
}
