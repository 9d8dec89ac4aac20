# ArtaleKey core, modelled in Dafny

ArtaleKey is a desktop utility. It watches for the `w` + Up-arrow combination. While that combination is held, a key simulator holds Space and taps Left and Right in a loop. Simulation can be restricted to times when a chosen target application is in front. This project models the sequential logic of that core as pure functions over immutable datatypes, and proves properties of the model:

- `window_detector.dfy` (module `WindowDetector`) models the active-window monitor:
  - `WindowInfo` identity, which is case-insensitive by process name;
  - the lower-cased target-process set and its matching rule, which removes ".exe" and ".app";
  - the poll interval clamp;
  - the 20-entry most-recently-used history and `get_window_history`;
  - `get_recent_apps`;
  - one pass of the monitor loop, with the signals it emits.
- `hotkey_manager.dfy` (module `HotkeyManager`) models two parts:
  - The key simulator. Its effect on the keyboard is a trace of press, release and sleep actions. Its thread is a position (`Idle`, `Launched`, `Looping`) that interleaves with `start`, `stop` and `set_interval` calls.
  - The hotkey listener. It is a record of the two key flags, the press time and the hold time, updated by press, release and poll events.
- `config.dfy` (module `Config`) models the configuration cache. The cache is a recursive value of dictionaries, with dotted-path `get` and `set`, the change-signal condition, the recursive `merge_dict` and the hotkey defaults.
- `main_window.dfy` (module `MainWindow`) models the start/stop gating of the simple main window. Each signal handler is a step that returns new flags and the commands it issues.
- `styles.dfy` (module `Styles`) models the responsive font size and the paddings and heights derived from it.
- `target_selector.dfy` (module `TargetSelector`) models the list logic of the target-application selector:
  - the offered-apps filter and the search box;
  - the target list operations;
  - the recent list and its " (最近使用)" labels;
  - what reaches the window monitor.
- `strings.dfy` (`Strings`), `sequences.dfy` (`Sequences`) and `wrappers.dfy` (`Wrappers`) are helpers:
  - the Python string operations the code relies on: `lower`, `in`, `replace(pat, '')`, `split('.')`, `strip` and `endswith`;
  - order-preserving filtering, subsequences and deletion;
  - `Option`.

Wall-clock seconds become integer milliseconds, and every clock reading is a parameter named `now`. The platform window probe and the list of running applications are inputs. So are the state of Qt widgets that a handler reads, such as whether the global switch is checked or whether the hotkey card is enabled.

The model follows the code in these details:

- **Hold time.** It is measured from the *first* monitored key pressed since the last release. It is not measured from the moment both keys are held. The listener checks it by polling every 10 ms.
- **Stopping mid-cycle.** A `stop` does not interrupt a cycle. The loop body holds the simulator's lock through all three sleeps, so `stop` waits for the cycle to finish. The loop's `while self.running` test reads the flag outside the lock. So a `stop` that lands between that test and the lock makes the first `if not self.running: break` fire, and the thread leaves the loop. The second check, in the middle of the cycle, can never fire. The model's exit of a stopped thread from its loop covers both ways out.
- **No clamping.** `set_interval` and `set_hold_time` store their argument as given. Only the monitor's check interval is clamped.
- **No period correction.** Each cycle sleeps three intervals. Nothing subtracts the time the key presses took.
- **Window change test.** It compares process name and title exactly, with case. `WindowInfo.__eq__` ignores case and ignores the title.
- **Target deactivation.** It stops a running simulation only while the filter is enabled.
- **Missing signals.** `simple_main_window.py` connects to signals (`key_combination_detected`, `simulation_started`, …) that `hotkey_manager.py` does not define, so building the window fails (see "## Findings"). The gating handlers are modelled as written, as handlers of those signals.
- **Stable sort.** `get_window_history` sorts by timestamp with Python's stable `sorted`. It is the reversal of the history only while the clock moves forward; entries stamped alike keep their history order.
- **Press time sentinel.** `key_press_time` keeps 0 as its "unset" value. A press at clock time 0 therefore counts as unset, exactly as in the code. The lemmas that time the hold assume a non-zero clock.

## Model

| member | source | states |
|---|---|---|
| WindowDetector.EqualityIsByProcessName | artalekey/core/window_detector.py:25-33 | Two windows are equal exactly when their process names have the same length and agree character by character up to ASCII case. Changing the title, the identifiers or the stamp never changes equality. |
| WindowDetector.SetTargetProcesses | artalekey/core/window_detector.py:290-293 | The target set holds exactly the lower-cased given names, and only lower-case names. |
| WindowDetector.TargetSetStaysLowerCase | artalekey/core/window_detector.py:296-306 | Adding or removing a name keeps the target set all lower-case. |
| WindowDetector.AddThenRemoveAnyCase | artalekey/core/window_detector.py:296-306 | Adding a name and then removing it in any casing leaves it absent and leaves every other target as it was. |
| WindowDetector.ClampCheckInterval | artalekey/core/window_detector.py:313-315 | The check interval always lies in [100, 5000] ms. Values inside the range are kept and values outside go to the nearer bound. |
| WindowDetector.ClampCheckIntervalIdempotent | artalekey/core/window_detector.py:313-315 | Clamping twice is clamping once. |
| WindowDetector.IsTargetIffStrippedMatch | artalekey/core/window_detector.py:432-450 | With targets present, a window is a target exactly when some target equals its lower-cased name once every ".exe" and ".app" is removed from both. The exact-match test is subsumed. |
| WindowDetector.MatchIgnoresExtension | artalekey/core/window_detector.py:444-448 | Appending ".exe" or ".app" to a process name never changes whether it matches. |
| WindowDetector.MatchIgnoresCase | artalekey/core/window_detector.py:437-441 | Windows whose process names differ only in case match the same targets. |
| WindowDetector.NotepadExeMatches | artalekey/core/window_detector.py:432-450 | "Notepad.exe" matches the target "notepad". |
| WindowDetector.GameAppMatches | artalekey/core/window_detector.py:432-450 | "Game.app" matches a target list holding "Game". |
| Strings.RemoveAllIsSinglePass | artalekey/core/window_detector.py:444-446 | The removal is Python's single left-to-right `replace`: removing ".exe" from "a..exeexe" leaves "a.exe". |
| WindowDetector.RemoveApp | artalekey/core/window_detector.py:367-374 | Removing an application's old entry drops exactly one entry when the application is present. Otherwise it leaves the history unchanged, as the swallowed `ValueError` does. |
| WindowDetector.AddToHistory | artalekey/core/window_detector.py:358-381 | An excluded application leaves the history unchanged. Any other becomes the newest entry, stamped with `now`. The history never exceeds 20 entries and never holds one application twice. |
| WindowDetector.ReactivationMovesToNewest | artalekey/core/window_detector.py:367-378 | Re-activating a recorded application removes its old entry and appends it as newest. Nothing is evicted. |
| WindowDetector.NewAppEvictsOldest | artalekey/core/window_detector.py:376-378 | A new application is appended. When 20 entries are already held, the oldest falls out. |
| WindowDetector.HistoryIsNewestDistinctApps | artalekey/core/window_detector.py:358-381 | After any run of visits, the history equals an independent description: the last visit of each non-excluded application, in visit order, cut to the newest 20. |
| WindowDetector.DistinctVisitsHistory | artalekey/core/window_detector.py:358-381 | After 20 or more visits to distinct, non-excluded applications, the history holds exactly the last 20 visits, oldest first. |
| WindowDetector.DistinctVisitsKeepLastTwenty | artalekey/core/window_detector.py:327-381 | After 20 or more visits to distinct, non-excluded applications, `get_window_history` holds exactly the last 20 visits, each once. When each visit is stamped later than the one before, it lists them in reverse order of visit, most recent first. |
| WindowDetector.AddToHistoryKeepsStampOrder | artalekey/core/window_detector.py:363-378 | With a clock that moves forward, the history stays ordered by timestamp. |
| WindowDetector.AddToHistoryStampedBy | artalekey/core/window_detector.py:363-378 | Admitting a window at `now` into a history stamped before `now` leaves no entry stamped after `now`. |
| WindowDetector.WindowHistorySorted | artalekey/core/window_detector.py:327-335 | `get_window_history` is a permutation of the history in which no entry is stamped later than one before it. |
| WindowDetector.WindowHistoryIsReverse | artalekey/core/window_detector.py:327-335 | On a history in stamp order, the stable newest-first sort is the reversal, with strictly decreasing timestamps. |
| WindowDetector.EqualStampsKeepOrder | artalekey/core/window_detector.py:327-335 | The sort is stable: two entries stamped alike keep their history order, where a reversal would swap them. |
| WindowDetector.WindowHistoryKeepsDistinct | artalekey/core/window_detector.py:327-335 | Sorting a history that holds each application once keeps it so. |
| WindowDetector.AddToExcludedApps | artalekey/core/window_detector.py:353-356 | The lower-cased name joins the exclusion set and nothing else changes. |
| WindowDetector.RecentApps | artalekey/core/window_detector.py:337-351 | The recent list (with the corrected bound) has at most `limit` names, none excluded. |
| WindowDetector.RecentIsSubsequence | artalekey/core/window_detector.py:343-349 | The recent list keeps the newest-first order of the history: it is a subsequence of its names. |
| WindowDetector.RecentIsComplete | artalekey/core/window_detector.py:343-351 | A recent list shorter than the limit misses no non-excluded application of the history. |
| WindowDetector.Recent | artalekey/core/window_detector.py:343-349 | No two listed names agree after lower-casing, and none is skipped. |
| WindowDetector.RecentAppsAgree | artalekey/core/window_detector.py:337-351 | For every limit of at least 1, the loop as written and the reference list agree. |
| WindowDetector.RecentAppsListsWholeHistory | artalekey/core/window_detector.py:337-351 | A history of at most ten distinct, non-excluded applications is listed in full, newest first. |
| WindowDetector.Tick | artalekey/core/window_detector.py:393-421 | A pass with no window changes nothing. A window whose process name or title differs from the current one becomes the current window, the probed object itself (identifiers included), stamped with `now` unless excluded. It goes through `_add_to_history`. Any other window leaves the current window and the history as they were. The target flag becomes the match result. The target and exclusion sets and the interval are untouched. The history invariant is kept, and with `now` later than every stamp, so is the stamp order. |
| WindowDetector.TickSignals | artalekey/core/window_detector.py:393-421 | A pass emits activation or deactivation exactly when the target flag flips, in that direction. The window signal is emitted exactly when the process name or title differs from the current window. The history signal is emitted exactly when the window also is not excluded. |
| WindowDetector.SameWindowIsQuiet | artalekey/core/window_detector.py:396-421 | A second pass on the same process and title changes nothing and emits nothing. |
| WindowDetector.FlipEvents | artalekey/core/window_detector.py:413-421 | Activation is emitted exactly on a false-to-true flip and deactivation exactly on a true-to-false flip. |
| WindowDetector.ChangeEvents | artalekey/core/window_detector.py:396-407 | A changed window is always announced. The refreshed recent list is announced exactly when the window was admitted to the history. |
| WindowDetector.FlipsAlternate | artalekey/core/window_detector.py:411-421 | Over any run of passes, activation and deactivation signals alternate, starting from the current flag. The last one emitted tells the final flag. |
| WindowDetector.RunKeepsStampOrder | artalekey/core/window_detector.py:383-430 | Over a run of passes whose clock moves forward, the history stays in stamp order, so `get_window_history` is the history reversed. |
| HotkeyManager.CycleKeepsSpaceHeld | artalekey/core/hotkey_manager.py:53-73 | Space stays held at every point of a loop cycle. Left and Right are pressed only while up. The cycle ends with only Space down. |
| HotkeyManager.CycleOrder | artalekey/core/hotkey_manager.py:59-73 | Within one cycle the key actions are exactly: press Left, release Left, press Right, release Right. The cycle sleeps three intervals. |
| HotkeyManager.SetInterval | artalekey/core/hotkey_manager.py:32-35 | The interval is stored as given, unclamped, and nothing else changes. |
| HotkeyManager.StopAsWritten | artalekey/core/hotkey_manager.py:37-45 | `stop` on a running simulator clears the flag and releases Space, Left and Right. On a simulator that is not running it does nothing. It never changes the thread's position or the interval. |
| HotkeyManager.Stop | artalekey/core/hotkey_manager.py:37-45 | The corrected `stop` releases the same keys when running, always leaves the simulator not running and not about to start, and leaves no key down. |
| HotkeyManager.DoStop | artalekey/core/hotkey_manager.py:37-45 | Under either rule, `stop` releases every key of a running simulator, leaves it not running and keeps the invariant. Only the corrected rule also cancels a thread that is launched but not yet in `run`; the source's `stop` leaves it as it was. |
| HotkeyManager.ThreadStep | artalekey/core/hotkey_manager.py:47-75 | The prologue presses Space and sets the flag. If that press raises, the `finally` releases all keys and the thread ends. A loop pass performs one cycle. A pass cut short by a fault performs a prefix of the cycle and then the `finally` releases. A stopped thread leaves its loop silently. |
| HotkeyManager.AbortAt | artalekey/core/hotkey_manager.py:59-75 | A negative interval makes the first sleep raise. A controller fault stops the cycle at its position. Without either, the cycle completes. |
| HotkeyManager.ThreadStepKeepsInv | artalekey/core/hotkey_manager.py:47-75 | Every thread step, faults included, keeps "Space is down exactly while running" and never presses a key that is down. So `run` while running never presses Space twice. |
| HotkeyManager.SimRunKeepsInv | artalekey/core/hotkey_manager.py:37-75 | Over any interleaving of start, stop, set_interval and thread steps, the invariant holds and no key is pressed while already down. This holds with the source's `stop` and with the corrected one. |
| HotkeyManager.QuietAfterStop | artalekey/core/hotkey_manager.py:37-75 | With the corrected stop, after `stop` at any point and until the next `start`, no key is pressed, whatever the thread does, and every key is up at the end. With the source's `stop` the same holds only when the thread is not between `start` and `run`. |
| HotkeyManager.SetHoldTime | artalekey/core/hotkey_manager.py:89-92 | The hold time is stored as given and nothing else changes. |
| HotkeyManager.OnPress | artalekey/core/hotkey_manager.py:110-125 | A press of `w` or Up that is up marks it down and records the press time only if none is recorded. A repeated press or any other key changes nothing. |
| HotkeyManager.OnRelease | artalekey/core/hotkey_manager.py:127-140 | Releasing `w` or Up clears that key's flag, resets the press time to 0 and requests a stop. Any other key changes nothing and requests nothing. |
| HotkeyManager.RepeatPressKeepsTime | artalekey/core/hotkey_manager.py:114-123 | Pressing a monitored key again while it is down changes no state. |
| HotkeyManager.PressTimeIsFirstPress | artalekey/core/hotkey_manager.py:117-123 | Once a press time is recorded, no further presses change it. |
| HotkeyManager.HoldTimedFromFirstPress | artalekey/core/hotkey_manager.py:99-123 | With `w` pressed at `t` and Up later, the poll starts the simulator from `t + hold` on, and not a millisecond earlier. |
| HotkeyManager.PollTickStarts | artalekey/core/hotkey_manager.py:99-106 | A poll launches the simulator exactly when both keys are down, it is not running, `now - press time >= hold` and the global switch is checked. It touches no key. |
| HotkeyManager.SysStep | artalekey/core/hotkey_manager.py:99-140 | The listener wired to the simulator, with the source's `stop` or the corrected one. A key press never touches the simulator. Releasing `w` or Up calls `stop`: the simulator is no longer running, nothing is pressed, and that key is up. With the source's `stop`, a thread launched but not yet in `run` stays launched. Any other release changes nothing. A poll touches no key and launches the simulator exactly when it is idle and the poll's condition holds. |
| HotkeyManager.ReleaseStopsUntilRepress | artalekey/core/hotkey_manager.py:127-138 | After releasing a monitored key, the simulator stays stopped and presses nothing until that key is pressed again. With the corrected stop this always holds. With the source's `stop` it holds when the release does not fall between the poll's `start` and the thread's prologue. |
| Config.LookupNoneIffMissing | artalekey/core/config.py:87-98 | Following a path fails exactly when, at some step, the keys so far lead to a value that is not a dictionary or lacks the next key. |
| Config.Get | artalekey/core/config.py:87-98 | `get` returns the default when the dotted path breaks at some step: a prefix leads to a non-dictionary or to a dictionary without the next key. Otherwise it returns the value at the path. |
| Config.SetFailsIffBlocked | artalekey/core/config.py:100-110 | `set` raises exactly when a proper prefix of the path holds a non-dictionary. |
| Config.LookupAfterSet | artalekey/core/config.py:100-113 | After a successful `set`, the path holds the value, with missing dictionaries created on the way. |
| Config.SetLeavesOtherPaths | artalekey/core/config.py:105-113 | `set` changes no path that is neither a prefix nor an extension of its own. |
| Config.Set | artalekey/core/config.py:100-117 | `set` fails exactly on a blocked path. Otherwise `get` returns the new value, and `config_changed` is emitted exactly when the old value differs from it. |
| Config.SetTwiceEmitsOnce | artalekey/core/config.py:112-117 | A second `set` of the same value leaves the cache unchanged and emits nothing. |
| Config.SetThenGetOther | artalekey/core/config.py:87-113 | A `get` of an unrelated dotted key after a `set` returns what it returned before. |
| Config.Merge | artalekey/core/config.py:171-180 | The merged dictionary has exactly the keys of both sides. |
| Config.MergeConfig | artalekey/core/config.py:156-180 | An imported document that is not a JSON object makes `merge_dict` raise before the cache is touched, and the import fails. An object is merged: the result has the keys of both sides. Every incoming non-dictionary value wins, and every key the import does not mention keeps its value. |
| Config.MergeKeepsNewLeaves | artalekey/core/config.py:173-178 | Every non-dictionary value of the incoming configuration is found at its path after the merge: the new value wins. |
| Config.MergeTakesNewOverNonDict | artalekey/core/config.py:173-178 | Where the base holds no dictionary at a path the incoming configuration has, the incoming value is taken whole, a dictionary included: `{}` over `1` gives `{}`. |
| Config.MergeKeepsBase | artalekey/core/config.py:173-178 | A path the incoming configuration says nothing about keeps its base value. |
| Config.MergeEmpty | artalekey/core/config.py:173-178 | Merging an empty dictionary changes nothing. |
| Config.MergeTwice | artalekey/core/config.py:171-180 | Importing the same configuration twice changes nothing the second time. |
| Config.MergeSelf | artalekey/core/config.py:173-178 | A dictionary merged into itself is unchanged. |
| Config.UnknownHotkeyIsDefault | artalekey/core/config.py:123-125 | An unknown hotkey id gives `{trigger_key: 'w', hold_time: 500, interval: 40, enabled: False}`. |
| Config.DefaultConfigHotkeys | artalekey/core/config.py:21-28 | With the built-in configuration, every id reads as the default hotkey. Every id but `default` is unknown. |
| Config.HotkeyConfigRoundTrip | artalekey/core/config.py:123-129 | A hotkey entry that is set is read back, provided `hotkeys` is a dictionary or missing. |
| Config.DottedHotkeyIdIsAPath | artalekey/core/config.py:123-125 | An id containing '.' is read as a longer path: `default.hold_time` yields 500. |
| MainWindow.Handle | artalekey/ui/simple_main_window.py:197-271 | A detected hotkey starts the simulator exactly when the switch is on, nothing runs, the hotkey is enabled and the filter is off or its target active. No other signal starts it. A release, or switching off, stops it exactly when it runs. Switching on issues nothing. Target deactivation stops it exactly when the filter is on and it runs. Enabling the filter stops it when it runs and the target is inactive. The running flag follows the simulator's signals. |
| MainWindow.NoStartWhileSwitchedOff | artalekey/ui/simple_main_window.py:197-223 | While the global switch is off and not turned on, no run of signals starts the simulator. |
| MainWindow.ConnectSignals | artalekey/ui/simple_main_window.py:128-150 | `connect_signals` makes every connection exactly when every signal it names is defined. Otherwise it fails at the first undefined one, with every earlier connection made. |
| MainWindow.NoStartWhileTargetInactive | artalekey/ui/simple_main_window.py:210-223 | With the filter on and left on, no run of signals starts the simulator while the target is reported inactive. |
| Styles.FontSizeMonotoneIff | artalekey/ui/simple_styles.py:55-64 | The font size is non-decreasing in the width exactly when the base is at least 10. |
| Styles.DefaultFontSizes | artalekey/ui/simple_styles.py:55-64 | With the default base 13, the size is always 11, 13, 14 or 15, and never shrinks as the width grows. |
| Styles.AdaptiveMetrics | artalekey/ui/simple_styles.py:66-122 | Button padding is at least (4, 8) and button min-height is font + 8. Input padding is at least (2, 6) and input min-height is font + 4. The group title is one pixel larger, its top padding is the font size and its top margin half of it, rounded down. The slider is 6 px taller than the font and the handle 4 px wider. The handle's margin is minus a third of the font, rounded down. |
| Styles.PaddingRanges | artalekey/ui/simple_styles.py:89-96 | For every width the horizontal paddings are exactly 8 and 6. The vertical paddings are 4–5 and 2–3. Buttons are 4 px taller than inputs. |
| Styles.MetricsMonotone | artalekey/ui/simple_styles.py:66-122 | Every derived size grows weakly with the width. The handle's negative margin falls, so the handle overhangs more. |
| TargetSelector.RefreshAvailable | artalekey/ui/target_app_selector.py:212-231 | An app is offered exactly when it has more than one character, contains no system word in any case, and is not a target. Order and multiplicity are kept. |
| TargetSelector.SystemWordsAnyCase | artalekey/ui/target_app_selector.py:224-227 | The system-word test ignores case. |
| TargetSelector.AddedAppNotOffered | artalekey/ui/target_app_selector.py:222-229 | A name just added to the targets is no longer offered. |
| TargetSelector.FilterAvailable | artalekey/ui/target_app_selector.py:248-255 | The search keeps, in order, exactly the apps whose lower-case form contains the lower-cased search text. |
| TargetSelector.EmptySearchKeepsAll | artalekey/ui/target_app_selector.py:250-255 | An empty search keeps every app. |
| TargetSelector.NarrowingSearch | artalekey/ui/target_app_selector.py:248-255 | Typing more into the search box only narrows the list. |
| TargetSelector.AddTargetApp | artalekey/ui/target_app_selector.py:278-285 | Only a non-empty name not yet present is appended. The prefix is untouched, and a list without duplicates stays so. |
| TargetSelector.RemoveTargetApp | artalekey/ui/target_app_selector.py:287-297 | Only the first exact match is removed and the rest keeps its order. An absent name changes nothing. |
| TargetSelector.RemoveKeepsNoDup | artalekey/ui/target_app_selector.py:287-297 | Removing from a list without duplicates leaves the name absent and the list without duplicates. |
| TargetSelector.RemoveKeepsOthers | artalekey/ui/target_app_selector.py:287-297 | Every other name is in the list after removal exactly when it was before. |
| TargetSelector.RemoveAfterAdd | artalekey/ui/target_app_selector.py:278-297 | Removing a name just added restores the list. |
| TargetSelector.AddAfterRemove | artalekey/ui/target_app_selector.py:278-297 | Re-adding a removed name moves it to the end. |
| TargetSelector.SetTargetApps | artalekey/ui/target_app_selector.py:306-312 | The result is the input with the empty entries dropped, in order, every other name as often as before. |
| TargetSelector.SetTargetAppsRoundTrip | artalekey/ui/target_app_selector.py:299-312 | A list without empty names reads back unchanged, and setting twice is setting once. |
| TargetSelector.SetTargetAppsKeepsDuplicates | artalekey/ui/target_app_selector.py:306-312 | Unlike `add_target_app`, `set_target_apps` can leave a name twice. |
| TargetSelector.AddManualApp | artalekey/ui/target_app_selector.py:271-282 | The whitespace-stripped text is appended exactly when it is non-empty and not already a target. Otherwise the list is unchanged. |
| TargetSelector.ManualPaddingIgnored | artalekey/ui/target_app_selector.py:271-276 | Whitespace typed around a name does not change what is added. |
| TargetSelector.LabelRoundTrip | artalekey/ui/target_app_selector.py:349-366 | The suffix has 7 characters. Stripping 7 from a label gives its name back, and a text that yields a name is that name's label. |
| TargetSelector.LabelsRoundTrip | artalekey/ui/target_app_selector.py:347-350 | Every shown name has its entry, and every entry gives its name back. |
| TargetSelector.UpdateRecentApps | artalekey/ui/target_app_selector.py:338-357 | The recent list shows exactly the recent apps that are not targets, in their order, entry k labelling the k-th of them. When there are none, it holds only the disabled hint. |
| TargetSelector.AddRecentApp | artalekey/ui/target_app_selector.py:359-369 | The hint, no selection, or a text without the suffix adds nothing. |
| TargetSelector.PickRecentApp | artalekey/ui/target_app_selector.py:338-369 | Picking a recent entry adds exactly its name. The refreshed list no longer shows it. |
| TargetSelector.UpdateTargetApps | artalekey/ui/target_app_selector.py:314-320 | With the filter checked, the monitor's set becomes the lower-cased list. Otherwise it is untouched. |
| TargetSelector.AddedAppIsWatched | artalekey/ui/target_app_selector.py:278-320 | With the filter checked, a window of a just-added app counts as a target window. |
| TargetSelector.WatchedIffListed | artalekey/ui/target_app_selector.py:314-320 | A lower-cased name is watched exactly when some listed name has it. |
| TargetSelector.RemovedAppWatchedIffTwin | artalekey/ui/target_app_selector.py:287-320 | After a removal, the name stays watched exactly when another listed name agrees with it after lower-casing. |

## Left out

- Threads, locks, Qt signals and `QThread` machinery are replaced by sequential steps. Interleavings are sequences of calls at lock boundaries. The 10 ms listener poll, the check-interval sleep and the 1 s back-off after a monitor error are left out as timing only.
- The platform probes `get_active_window`, `get_running_applications` and `_get_active_window_*` (AppKit, win32gui, Xlib, osascript, psutil) and the pynput `Controller` and `Listener` are foreign calls. Their results are inputs, and a failing probe is modelled as a pass with no window.
- Float seconds and `time.time()` are replaced by integer milliseconds. `set_check_interval` is modelled on milliseconds.
- Configuration persistence is file and settings I/O: QSettings, `_load_config`, `save_config`, `export_config`, `import_config` and the `auto_save` flag. `reset_to_defaults` is left out too; it only copies the defaults back. Only `_merge_config` is modelled.
- `get_ui_config` and `set_ui_config` are `get` and `set` on one key and are not modelled separately.
- Config.Set: Python compares the old and new values with `!=`, under which `1 == True` and `1 == 1.0`. The model's structural equality treats those as different, so the change signal is exact only for values of one type.
- Strings.Lower: maps only the ASCII letters. Python's `str.lower` also folds non-ASCII letters.
- Status texts, style sheets, message boxes and `closeEvent` are widget output only. The main window's `load_config`, `save_config` and `on_config_changed` only pass values to the configuration store and the simulator.
- A controller fault inside `stop`'s own releases is not modelled: the thread's steps treat `stop` as completing.
- HotkeyManager.ThreadStep: an exception leaving `KeySimulator.run` is unhandled in a PyQt6 `QThread`. That covers a controller error and `time.sleep` on a negative interval. With no `sys.excepthook` installed, PyQt6 aborts the whole application once `finally: stop()` has released the keys. The model instead returns the thread to `Idle`, where a later `start` can relaunch it. It thus allows more traces than the program, and the key-release properties hold on all of them; the abort itself is not modelled.
- Config.GetHotkeyConfig: after a failed `_load_config`, the cache is `default_config.copy()`, a shallow copy, so it shares the nested `hotkeys` dictionary with the defaults. A later `set('hotkeys.default.hold_time', v)` then also changes the defaults, and `get_hotkey_config` of an unknown id returns that `v` rather than 500. The model keeps the defaults constant and does not model this aliasing.
- `get_target_processes`, `get_current_window` and `is_target_window_active` are plain reads of modelled fields. `ActiveWindowMonitor.stop` and the `KeyboardManager` singleton hold no logic.

## Findings

| source | as written | input that shows it | evidently intended | confidence | as-written member | corrected member |
|---|---|---|---|---|---|---|
| artalekey/core/window_detector.py:346-349 | the bound is checked only after a name is appended | `get_recent_apps(0)` on a history with one non-excluded app returns that app | at most `limit` names | low (every caller passes 10); not executed | WindowDetector.RecentAppsZeroLimit | WindowDetector.RecentApps |
| artalekey/core/hotkey_manager.py:37-53 | `stop` acts only when `running` is set, and `run` sets it only once the thread is scheduled | `start()` then `stop()` before the thread reaches `run`: the stop is lost, then Space is pressed and the loop runs | a stop cancels the pending start | low (a narrow race); not executed | HotkeyManager.LostStopAsWritten | HotkeyManager.QuietAfterStop |
| artalekey/core/hotkey_manager.py:99-138 | a poll calls `start`, and a release calls `stop`, which does nothing to a thread that has not yet reached `run` | `w` and Up held past the hold time, a poll starts the simulator, `w` is released before the thread runs: the thread then presses Space and taps Left and Right with neither key down | releasing the hotkey stops the simulation | low (a narrow race); not executed | HotkeyManager.ReleaseDuringLaunchIsLost | HotkeyManager.ReleaseStopsUntilRepress |
| artalekey/ui/simple_main_window.py:39 | `__init__` calls `connect_signals`, which connects to `key_combination_detected` (line 137), a signal `HotkeyListener` does not define | building `SimpleMainWindow` raises `AttributeError` at its third connection, so no gating handler is ever connected | the listener and the simulator declare the signals the window connects to | medium (no `pyqtSignal` is declared in `hotkey_manager.py`); not executed | MainWindow.InitFailsAsWritten | MainWindow.ConnectsWithIntendedSignals |
