/** The list logic of the target-application selector,
    artalekey/ui/target_app_selector.py: the target list, the list of
    running applications offered for selection and its search box, the
    recent-apps list with its " (最近使用)" labels, and what reaches the
    window monitor. Each Qt list widget is a `seq<string>` (or a sequence
    of items for the recent list); what the handlers read from elsewhere
    (the running applications, the recent apps, the selected item, the
    text fields) is a parameter. */
module TargetSelector {
  import opened Wrappers
  import opened Strings
  import opened Sequences
  import WindowDetector

  /** No value occurs twice. */
  predicate NoDup(s: seq<string>) {
    forall i, j :: 0 <= i < j < |s| ==> s[i] != s[j]
  }

  // ---------------------------------------------------------------------
  // The offered applications

  /** Names that mark a process as part of the system. */
  const SystemWords: seq<string> := ["kernel", "system", "service", "daemon", "helper"]

  /** The lower-cased name contains one of the system words. */
  predicate IsSystemName(lower: string) {
    exists k | 0 <= k < |SystemWords| :: Contains(lower, SystemWords[k])
  }

  /** The filter inside `refresh_available_apps`: a running application is
      offered when its name has more than one character, contains no
      system word in any letter case, and is not a target already. */
  predicate Offered(app: string, targets: seq<string>) {
    |app| > 1 && !IsSystemName(Lower(app)) && app !in targets
  }

  /** `refresh_available_apps`: the running applications, in their order,
      that pass the filter; duplicates among them are all kept. */
  function RefreshAvailable(apps: seq<string>, targets: seq<string>): (r: seq<string>)
    ensures IsSubsequence(r, apps)
    ensures forall x :: x in r <==> x in apps && Offered(x, targets)
    ensures forall x :: x in r ==> multiset(r)[x] == multiset(apps)[x]
  {
    var p := (a: string) => Offered(a, targets);
    FilterMembers(apps, p);
    Filter(apps, p)
  }

  /** The filter is blind to letter case when it looks for system words:
      "KernelTask" is dropped like "kerneltask". */
  lemma SystemWordsAnyCase(apps: seq<string>, targets: seq<string>, a: string, b: string)
    requires Lower(a) == Lower(b)
    ensures a in RefreshAvailable(apps, targets) && b in apps && b !in targets ==> b in RefreshAvailable(apps, targets)
  {
  }

  /** A name that has just been added to the targets is no longer offered. */
  lemma AddedAppNotOffered(apps: seq<string>, targets: seq<string>, app: string)
    ensures app !in RefreshAvailable(apps, AddTargetApp(targets, app))
  {
  }

  // ---------------------------------------------------------------------
  // The search box

  /** `needle + more` occurs only where `needle` does. */
  lemma ContainsPrefix(hay: string, needle: string, more: string)
    requires Contains(hay, needle + more)
    ensures Contains(hay, needle)
  {
    var i :| 0 <= i <= |hay| && OccursAt(hay, needle + more, i);
    assert hay[i..i + |needle|] == hay[i..i + |needle + more|][..|needle|];
    assert OccursAt(hay, needle, i);
  }

  /** `filter_available_apps`: the offered applications whose lower-case
      name contains the lower-cased search text, in order. */
  function FilterAvailable(current: seq<string>, search: string): (r: seq<string>)
    ensures IsSubsequence(r, current)
    ensures forall x :: x in r <==> x in current && Contains(Lower(x), Lower(search))
    ensures forall x :: x in r ==> multiset(r)[x] == multiset(current)[x]
  {
    var p := (a: string) => Contains(Lower(a), Lower(search));
    FilterMembers(current, p);
    Filter(current, p)
  }

  /** An empty search box shows every offered application. */
  lemma EmptySearchKeepsAll(current: seq<string>)
    ensures FilterAvailable(current, "") == current
  {
    var p := (a: string) => Contains(Lower(a), Lower(""));
    forall i | 0 <= i < |current| ensures p(current[i]) {
      ContainsEmpty(Lower(current[i]));
    }
    FilterAll(current, p);
  }

  /** Typing more into the search box only narrows the list. */
  lemma NarrowingSearch(current: seq<string>, search: string, more: string)
    ensures IsSubsequence(FilterAvailable(current, search + more), FilterAvailable(current, search))
  {
    var p := (a: string) => Contains(Lower(a), Lower(search + more));
    var q := (a: string) => Contains(Lower(a), Lower(search));
    LowerConcat(search, more);
    forall i | 0 <= i < |current| && p(current[i]) ensures q(current[i]) {
      ContainsPrefix(Lower(current[i]), Lower(search), Lower(more));
    }
    FilterWeaker(current, p, q);
  }

  // ---------------------------------------------------------------------
  // The target list

  /** `add_target_app`: a non-empty name that is not a target yet is
      appended; anything else leaves the list as it is. */
  function AddTargetApp(targets: seq<string>, app: string): (r: seq<string>)
    ensures |r| == |targets| + (if app != "" && app !in targets then 1 else 0)
    ensures r[..|targets|] == targets
    ensures forall x :: x in r <==> x in targets || (x == app && app != "")
    ensures NoDup(targets) ==> NoDup(r)
  {
    if app != "" && app !in targets then targets + [app] else targets
  }

  /** Position of the first occurrence of `x`, or `|s|` without one. */
  function IndexOf(s: seq<string>, x: string): (i: nat)
    ensures i <= |s|
    ensures i < |s| <==> x in s
    ensures i < |s| ==> s[i] == x
    ensures x !in s[..i]
    decreases |s|
  {
    if |s| == 0 then 0
    else if s[0] == x then 0
    else
      var j := IndexOf(s[1..], x);
      assert s[..j + 1] == [s[0]] + s[1..][..j];
      j + 1
  }

  /** `remove_target_app`: the first entry equal to the name is taken out
      and the rest keeps its order; an absent name changes nothing. Later
      duplicates of the name, if any, stay. */
  function RemoveTargetApp(targets: seq<string>, app: string): (r: seq<string>)
    ensures app !in targets ==> r == targets
    ensures app in targets ==> r == Delete(targets, IndexOf(targets, app))
    decreases |targets|
  {
    if |targets| == 0 then targets
    else if targets[0] == app then
      assert targets == [targets[0]] + targets[1..];
      assert Delete(targets, 0) == targets[1..];
      targets[1..]
    else
      var rest := RemoveTargetApp(targets[1..], app);
      assert targets == [targets[0]] + targets[1..];
      if app in targets[1..] then
        DeleteCons(targets[0], targets[1..], IndexOf(targets[1..], app));
        [targets[0]] + rest
      else
        [targets[0]] + rest
  }

  /** Removing from a list without duplicates leaves the name absent and
      the list still without duplicates. */
  lemma RemoveKeepsNoDup(targets: seq<string>, app: string)
    requires NoDup(targets)
    ensures app !in RemoveTargetApp(targets, app)
    ensures NoDup(RemoveTargetApp(targets, app))
  {
    if app in targets {
      DeleteDistinct(targets, IndexOf(targets, app));
    }
  }

  /** Every other name keeps its place in the list: it is in the result
      exactly when it was in the list. */
  lemma RemoveKeepsOthers(targets: seq<string>, app: string)
    ensures forall x :: x != app ==> (x in RemoveTargetApp(targets, app) <==> x in targets)
  {
    var r := RemoveTargetApp(targets, app);
    if app in targets {
      var i := IndexOf(targets, app);
      forall x | x != app ensures x in r <==> x in targets {
        if x in targets {
          var k :| 0 <= k < |targets| && targets[k] == x;
          assert k != i;
          var k' := if k < i then k else k - 1;
          assert r[k'] == x;
        }
      }
    }
  }

  /** Removing a name that was just added restores the list. */
  lemma RemoveAfterAdd(targets: seq<string>, app: string)
    requires app != "" && app !in targets
    ensures RemoveTargetApp(AddTargetApp(targets, app), app) == targets
  {
    var t := targets + [app];
    assert t[..|targets|] == targets;
    assert IndexOf(t, app) == |targets|;
  }

  /** Adding a name again after removing it moves it to the end. */
  lemma AddAfterRemove(targets: seq<string>, app: string)
    requires NoDup(targets) && app in targets && app != ""
    ensures var i := IndexOf(targets, app);
            AddTargetApp(RemoveTargetApp(targets, app), app) == Delete(targets, i) + [app]
  {
    var r := RemoveTargetApp(targets, app);
    RemoveKeepsNoDup(targets, app);
    assert app !in r;
    assert AddTargetApp(r, app) == r + [app];
  }

  /** `set_target_apps`: the given names with the empty ones dropped, in
      order. Duplicates are not removed. */
  function SetTargetApps(apps: seq<string>): (r: seq<string>)
    ensures IsSubsequence(r, apps)
    ensures forall x :: x in r <==> x in apps && x != ""
    ensures forall x :: x != "" ==> multiset(r)[x] == multiset(apps)[x]
  {
    var p := (a: string) => a != "";
    FilterMembers(apps, p);
    Filter(apps, p)
  }

  /** A list without empty names survives `set_target_apps` then
      `get_target_apps` unchanged, and a second call changes nothing. */
  lemma SetTargetAppsRoundTrip(apps: seq<string>)
    ensures "" !in apps ==> SetTargetApps(apps) == apps
    ensures SetTargetApps(SetTargetApps(apps)) == SetTargetApps(apps)
  {
    var p := (a: string) => a != "";
    if "" !in apps {
      FilterAll(apps, p);
    }
    var r := SetTargetApps(apps);
    assert "" !in r;
    FilterAll(r, p);
  }

  /** Unlike `add_target_app`, `set_target_apps` can leave a name twice
      in the list. */
  lemma SetTargetAppsKeepsDuplicates()
    ensures SetTargetApps(["game", "game"]) == ["game", "game"]
    ensures !NoDup(SetTargetApps(["game", "game"]))
  {
    SetTargetAppsRoundTrip(["game", "game"]);
  }

  /** `add_manual_app`: the text of the manual field, stripped of
      surrounding whitespace, is added when something is left. */
  function AddManualApp(targets: seq<string>, text: string): (r: seq<string>)
    ensures AllSpace(text) ==> r == targets
    ensures !AllSpace(text) ==> Strip(text) != "" && Strip(text) in r
    ensures !AllSpace(text) && Strip(text) !in targets ==> r == targets + [Strip(text)]
    ensures Strip(text) in targets ==> r == targets
  {
    StripEmptyIffAllSpace(text);
    AddTargetApp(targets, Strip(text))
  }

  /** Spaces typed around a name do not change what is added. */
  lemma ManualPaddingIgnored(targets: seq<string>, left: string, app: string, right: string)
    requires AllSpace(left) && AllSpace(right)
    requires |app| == 0 || (!IsSpace(app[0]) && !IsSpace(app[|app| - 1]))
    ensures AddManualApp(targets, left + app + right) == AddTargetApp(targets, app)
  {
    StripPadded(left, app, right);
  }

  // ---------------------------------------------------------------------
  // The recent-apps list

  /** What `update_recent_apps` appends to a name. */
  const RecentSuffix: string := " (最近使用)"

  /** An item of the recent list: a labelled name, or the disabled hint
      shown when there is nothing to list. */
  datatype RecentItem = RecentEntry(text: string) | Hint

  /** The text of a recent entry. */
  function Label(app: string): string {
    app + RecentSuffix
  }

  /** What `add_recent_app` takes back from an item's text: the text
      without its last 7 characters, when it ends with the suffix. */
  function Unlabel(text: string): Option<string> {
    if EndsWith(text, RecentSuffix) then Some(text[..|text| - 7]) else None
  }

  /** The hard-coded 7 is the length of the suffix, so a label gives back
      its name, and a text that gives back a name is that name's label. */
  lemma LabelRoundTrip(app: string, text: string)
    ensures |RecentSuffix| == 7
    ensures Unlabel(Label(app)) == Some(app)
    ensures Unlabel(text).Some? ==> Label(Unlabel(text).value) == text
  {
    assert (app + RecentSuffix)[|app + RecentSuffix| - |RecentSuffix|..] == RecentSuffix;
    assert (app + RecentSuffix)[..|app + RecentSuffix| - 7] == app;
    if Unlabel(text).Some? {
      assert text == text[..|text| - 7] + text[|text| - 7..];
    }
  }

  /** One entry per name. */
  function Labels(apps: seq<string>): (r: seq<RecentItem>)
    ensures |r| == |apps|
    ensures forall i :: 0 <= i < |apps| ==> r[i] == RecentEntry(Label(apps[i]))
  {
    seq(|apps|, i requires 0 <= i < |apps| => RecentEntry(Label(apps[i])))
  }

  /** Every name has its entry, and every entry gives its name back. */
  lemma LabelsRoundTrip(apps: seq<string>)
    ensures forall a :: a in apps ==> RecentEntry(Label(a)) in Labels(apps)
    ensures forall k :: 0 <= k < |apps| ==> Unlabel(Labels(apps)[k].text) == Some(apps[k])
  {
    var r := Labels(apps);
    forall a | a in apps ensures RecentEntry(Label(a)) in r {
      var i :| 0 <= i < |apps| && apps[i] == a;
      assert r[i] == RecentEntry(Label(a));
    }
    forall k | 0 <= k < |apps| ensures Unlabel(r[k].text) == Some(apps[k]) {
      LabelRoundTrip(apps[k], "");
    }
  }

  /** The recent names that are not targets, in order. */
  function Shown(recent: seq<string>, targets: seq<string>): (r: seq<string>)
    ensures IsSubsequence(r, recent)
    ensures forall a :: a in r <==> a in recent && a !in targets
  {
    var p := (a: string) => a !in targets;
    FilterMembers(recent, p);
    Filter(recent, p)
  }

  /** `update_recent_apps`: the recent names that are not targets, in
      order and labelled; the hint alone when there are none. */
  function UpdateRecentApps(recent: seq<string>, targets: seq<string>): (r: seq<RecentItem>)
    ensures r == [Hint] <==> forall i :: 0 <= i < |recent| ==> recent[i] in targets
    ensures Hint in r ==> r == [Hint]
    ensures forall a :: a in recent && a !in targets ==> RecentEntry(Label(a)) in r
    ensures forall k :: 0 <= k < |r| && r[k].RecentEntry? ==>
              Unlabel(r[k].text).Some? && Unlabel(r[k].text).value in recent
              && Unlabel(r[k].text).value !in targets
    ensures r != [Hint] ==>
              |r| == |Shown(recent, targets)|
              && forall k :: 0 <= k < |r| ==> r[k] == RecentEntry(Label(Shown(recent, targets)[k]))
  {
    var shown := Shown(recent, targets);
    LabelsRoundTrip(shown);
    if |shown| == 0 then [Hint]
    else
      assert shown[0] in shown;
      Labels(shown)
  }

  /** `add_recent_app` with the item currently selected, if any: an
      enabled entry whose text carries the suffix adds the name it labels;
      the disabled hint, no selection, or a text without the suffix add
      nothing. */
  function AddRecentApp(targets: seq<string>, selected: Option<RecentItem>): (r: seq<string>)
    ensures selected == None || selected == Some(Hint) ==> r == targets
    ensures selected.Some? && selected.value.RecentEntry? && Unlabel(selected.value.text).None? ==> r == targets
  {
    match selected
    case Some(RecentEntry(text)) =>
      (match Unlabel(text)
       case Some(app) => AddTargetApp(targets, app)
       case None => targets)
    case _ => targets
  }

  /** Picking the entry of a recent name adds exactly that name, and the
      refreshed recent list no longer shows it. */
  lemma PickRecentApp(recent: seq<string>, targets: seq<string>, app: string)
    requires app in recent && app !in targets && app != ""
    ensures RecentEntry(Label(app)) in UpdateRecentApps(recent, targets)
    ensures AddRecentApp(targets, Some(RecentEntry(Label(app)))) == targets + [app]
    ensures RecentEntry(Label(app)) !in UpdateRecentApps(recent, targets + [app])
  {
    LabelRoundTrip(app, "");
    var r := UpdateRecentApps(recent, targets + [app]);
    forall k | 0 <= k < |r| && r[k].RecentEntry? ensures r[k] != RecentEntry(Label(app)) {
      LabelRoundTrip(app, r[k].text);
    }
  }

  // ---------------------------------------------------------------------
  // What reaches the window monitor

  /** `update_target_apps`: with the filter checked, the monitor's target
      set is rebuilt from the list; otherwise it is left as it was. */
  function UpdateTargetApps(targets: seq<string>, filterChecked: bool, monitor: set<string>): (r: set<string>)
    ensures !filterChecked ==> r == monitor
    ensures filterChecked ==> forall x :: x in r <==> exists i :: 0 <= i < |targets| && x == Lower(targets[i])
  {
    if filterChecked then WindowDetector.SetTargetProcesses(targets) else monitor
  }

  /** With the filter checked, a window of an application that has just
      been added to the list counts as a target window. */
  lemma AddedAppIsWatched(targets: seq<string>, app: string, monitor: set<string>, w: WindowDetector.WindowInfo)
    requires app != "" && w.processName == app
    ensures WindowDetector.IsTargetWindow(UpdateTargetApps(AddTargetApp(targets, app), true, monitor), w)
  {
    var t := AddTargetApp(targets, app);
    var k := IndexOf(t, app);
    assert Lower(t[k]) in UpdateTargetApps(t, true, monitor);
    WindowDetector.ExactMatchIsTarget(UpdateTargetApps(t, true, monitor), w);
  }

  /** With the filter checked, a lower-cased name is watched exactly
      when some entry of the list has it. */
  lemma WatchedIffListed(targets: seq<string>, monitor: set<string>, name: string)
    ensures name in UpdateTargetApps(targets, true, monitor) <==> exists x :: x in targets && Lower(x) == name
  {
    if x :| x in targets && Lower(x) == name {
      var i :| 0 <= i < |targets| && targets[i] == x;
    }
  }

  /** With the filter checked, after a removal the monitor still watches a
      lower-cased name exactly when some remaining target has it. */
  lemma RemovedAppWatchedIffTwin(targets: seq<string>, app: string, monitor: set<string>)
    requires NoDup(targets)
    ensures Lower(app) in UpdateTargetApps(RemoveTargetApp(targets, app), true, monitor)
            <==> exists x :: x in targets && x != app && Lower(x) == Lower(app)
  {
    var r := RemoveTargetApp(targets, app);
    RemoveKeepsNoDup(targets, app);
    RemoveKeepsOthers(targets, app);
    WatchedIffListed(r, monitor, Lower(app));
  }
}
