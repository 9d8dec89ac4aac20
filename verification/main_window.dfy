// The start/stop gating of the simple main window,
// artalekey/ui/simple_main_window.py.
//
// The window reacts to signals from the global switch, the hotkey listener,
// the key simulator, the target selector and the window monitor. Each handler
// is modelled as a pure step that returns the window's new flags and the
// commands it issues. What the handlers read from other objects (whether the
// hotkey is enabled in its card, whether the monitor reports the target
// window active) is an input of the step. Status texts are not modelled.

module MainWindow {
  import opened Wrappers

  /** The flags the handlers read and write. `monitorRunning` stands for
      `window_monitor.isRunning()`. */
  datatype Window = Window(globalOn: bool, simRunning: bool, filterEnabled: bool, monitorRunning: bool)

  const InitialWindow := Window(false, false, false, false)

  /** The signals the window handles. */
  datatype UiEvent =
    | GlobalSwitchChanged(on: bool)
    | HotkeyDetected
    | HotkeyReleased
    | SimulationStarted
    | SimulationStopped
    | FilterEnabledChanged(enabled: bool)
    | TargetActivated
    | TargetDeactivated

  /** What a handler asks of the other objects. */
  datatype Command = StartSimulator | StopSimulator | StartMonitor

  /** One signal, with what the handler reads elsewhere: whether the hotkey
      is enabled, and whether the target window is active. */
  datatype Input = Input(event: UiEvent, hotkeyEnabled: bool, targetActive: bool)

  /** The handler of one signal. The simulator is started only in answer
      to a detected hotkey, and then exactly when the switch is on, nothing
      runs, the hotkey is enabled and the filter is off or its target
      active. Stop requests follow the running flag; turning the switch on
      or the filter off never asks for anything. The running flag follows
      the simulator's own signals and nothing else, and enabling the
      filter starts the monitor only when it is not running yet. */
  function Handle(w: Window, i: Input): (r: (Window, seq<Command>))
    ensures StartSimulator in r.1 <==>
              i.event == HotkeyDetected && w.globalOn && !w.simRunning && i.hotkeyEnabled
              && (!w.filterEnabled || i.targetActive)
    ensures i.event == HotkeyReleased ==> (StopSimulator in r.1 <==> w.simRunning)
    ensures i.event == GlobalSwitchChanged(false) ==> (StopSimulator in r.1 <==> w.simRunning)
    ensures i.event == GlobalSwitchChanged(true) ==> r.1 == [] && r.0.globalOn
    ensures i.event == GlobalSwitchChanged(false) ==> !r.0.globalOn
    ensures i.event == TargetDeactivated ==> (StopSimulator in r.1 <==> w.filterEnabled && w.simRunning)
    ensures i.event == FilterEnabledChanged(true) ==>
              (StopSimulator in r.1 <==> w.simRunning && !i.targetActive)
    ensures i.event == FilterEnabledChanged(false) ==> r.1 == []
    ensures i.event == TargetActivated ==> r == (w, [])
    ensures i.event.FilterEnabledChanged? ==>
              (StartMonitor in r.1 <==> i.event.enabled && !w.monitorRunning)
              && r.0.filterEnabled == i.event.enabled
    ensures !i.event.FilterEnabledChanged? ==> StartMonitor !in r.1 && r.0.filterEnabled == w.filterEnabled
    ensures !i.event.GlobalSwitchChanged? ==> r.0.globalOn == w.globalOn
    ensures r.0.simRunning == match i.event
                             case SimulationStarted => true
                             case SimulationStopped => false
                             case _ => w.simRunning
  {
    match i.event
    case GlobalSwitchChanged(on) =>
      (w.(globalOn := on), if !on && w.simRunning then [StopSimulator] else [])
    case HotkeyDetected =>
      if !(w.globalOn && !w.simRunning) then (w, [])
      else if !i.hotkeyEnabled then (w, [])
      else if w.filterEnabled then (w, if i.targetActive then [StartSimulator] else [])
      else (w, [StartSimulator])
    case HotkeyReleased =>
      (w, if w.simRunning then [StopSimulator] else [])
    case SimulationStarted => (w.(simRunning := true), [])
    case SimulationStopped => (w.(simRunning := false), [])
    case FilterEnabledChanged(enabled) =>
      var start := if enabled && !w.monitorRunning then [StartMonitor] else [];
      var stop := if w.simRunning && enabled && !i.targetActive then [StopSimulator] else [];
      (w.(filterEnabled := enabled, monitorRunning := w.monitorRunning || enabled), start + stop)
    case TargetActivated => (w, [])
    case TargetDeactivated =>
      (w, if w.filterEnabled && w.simRunning then [StopSimulator] else [])
  }

  /** A run of signals, with all the commands issued. */
  function HandleAll(w: Window, inputs: seq<Input>): (Window, seq<Command>)
    decreases |inputs|
  {
    if |inputs| == 0 then (w, [])
    else
      var (w1, c1) := Handle(w, inputs[0]);
      var (w2, c2) := HandleAll(w1, inputs[1..]);
      (w2, c1 + c2)
  }

  /** While the global switch is off and not turned on, no signal starts
      the simulator. */
  lemma {:induction false} NoStartWhileSwitchedOff(w: Window, inputs: seq<Input>)
    requires !w.globalOn
    requires forall k :: 0 <= k < |inputs| ==> inputs[k].event != GlobalSwitchChanged(true)
    ensures StartSimulator !in HandleAll(w, inputs).1
    ensures !HandleAll(w, inputs).0.globalOn
    decreases |inputs|
  {
    if |inputs| > 0 {
      var (w1, c1) := Handle(w, inputs[0]);
      NoStartWhileSwitchedOff(w1, inputs[1..]);
    }
  }

  /** With the filter on and left on, nothing starts the simulator while
      the target window is reported inactive. */
  lemma {:induction false} NoStartWhileTargetInactive(w: Window, inputs: seq<Input>)
    requires w.filterEnabled
    requires forall k :: 0 <= k < |inputs| ==> inputs[k].event != FilterEnabledChanged(false)
    requires forall k :: 0 <= k < |inputs| ==> inputs[k].event == HotkeyDetected ==> !inputs[k].targetActive
    ensures StartSimulator !in HandleAll(w, inputs).1
    decreases |inputs|
  {
    if |inputs| > 0 {
      var (w1, c1) := Handle(w, inputs[0]);
      assert w1.filterEnabled;
      NoStartWhileTargetInactive(w1, inputs[1..]);
    }
  }

  // ---------------------------------------------------------------------
  // Wiring the signals

  /** The objects whose signals the window connects to. */
  datatype Emitter = GlobalSwitch | HotkeyCard | HotkeyListener | KeySimulator | TargetSelector | WindowMonitor

  /** A signal of an emitter, by name. */
  datatype Connection = Connection(emitter: Emitter, signal: string)

  /** What `connect_signals` connects, in order. */
  const Connections: seq<Connection> := [
    Connection(GlobalSwitch, "stateChanged"),
    Connection(HotkeyCard, "config_changed"),
    Connection(HotkeyListener, "key_combination_detected"),
    Connection(HotkeyListener, "key_combination_released"),
    Connection(KeySimulator, "simulation_started"),
    Connection(KeySimulator, "simulation_stopped"),
    Connection(TargetSelector, "window_filter_enabled"),
    Connection(WindowMonitor, "target_window_activated"),
    Connection(WindowMonitor, "target_window_deactivated")]

  /** The signals the program defines: neither the hotkey listener nor the
      key simulator declares any. */
  const DefinedSignals: set<Connection> := {
    Connection(GlobalSwitch, "stateChanged"),
    Connection(HotkeyCard, "config_changed"),
    Connection(TargetSelector, "window_filter_enabled"),
    Connection(WindowMonitor, "target_window_activated"),
    Connection(WindowMonitor, "target_window_deactivated")}

  /** The signals the handlers are written for: those defined, and the four
      of the listener and the simulator. */
  const IntendedSignals: set<Connection> := set c | c in Connections

  /** The first connection from position `from` on whose signal is not
      defined. */
  function FirstUndefined(defined: set<Connection>, from: nat): (r: Option<nat>)
    requires from <= |Connections|
    ensures r.None? <==> forall j :: from <= j < |Connections| ==> Connections[j] in defined
    ensures r.Some? ==>
              && from <= r.value < |Connections| && Connections[r.value] !in defined
              && forall j :: from <= j < r.value ==> Connections[j] in defined
    decreases |Connections| - from
  {
    if from == |Connections| then None
    else if Connections[from] !in defined then Some(from)
    else FirstUndefined(defined, from + 1)
  }

  /** `connect_signals`: `None` when every connection is made; otherwise
      the position of the first signal whose attribute is missing, where
      Python raises `AttributeError` and `__init__` fails. */
  function ConnectSignals(defined: set<Connection>): (r: Option<nat>)
    ensures r.None? <==> forall j :: 0 <= j < |Connections| ==> Connections[j] in defined
    ensures r.Some? ==>
              && r.value < |Connections| && Connections[r.value] !in defined
              && forall j :: 0 <= j < r.value ==> Connections[j] in defined
  {
    FirstUndefined(defined, 0)
  }

  /** As written, building the window fails at the third connection, the
      listener's `key_combination_detected`; the gating handlers are never
      connected. */
  lemma InitFailsAsWritten()
    ensures ConnectSignals(DefinedSignals) == Some(2)
    ensures Connections[2] == Connection(HotkeyListener, "key_combination_detected")
  {
    assert Connections[0] in DefinedSignals && Connections[1] in DefinedSignals;
    assert Connections[2] !in DefinedSignals;
  }

  /** With the listener's and the simulator's signals declared, every
      connection is made and the handlers above are reached. */
  lemma ConnectsWithIntendedSignals()
    ensures ConnectSignals(IntendedSignals) == None
  {
  }
}
