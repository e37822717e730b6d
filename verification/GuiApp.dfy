/** The control state of the desktop application and the handlers that update it. */
module GuiApp {
  import opened Wrappers

  datatype AppPhase =
    | Idle | Inspecting | Authenticating | WaitingForLogin | PreparingMaterials | Signing
    | ReadyToInstall | Installing | Done | ErrorPhase

  datatype LogLevel = Info | Success | Warning | ErrorLevel
  datatype LogEntry = LogEntry(level: LogLevel, message: string)
  datatype Device = Device(target: string, udid: string, model: string)

  datatype Event =
    | PhaseChanged(phase: AppPhase)
    | Progress(level: LogLevel, message: string)
    | Devices(devices: seq<Device>)
    | DeviceScanFailed(error: string)
    | Signed(output: string, bundle: string, ability: string)
    | Installed(pid: nat)
    | Failed(error: string)

  /** The fields of `AppState`. */
  datatype StateView = StateView(
    phase: AppPhase, failedPhase: Option<AppPhase>, logs: seq<LogEntry>, error: Option<string>,
    scanError: Option<string>, devices: seq<Device>, device: Option<Device>, signedHap: Option<string>,
    bundle: Option<string>, ability: Option<string>, pid: Option<nat>)
  {
    predicate CanStart() {
      phase in {Idle, ReadyToInstall, Done, ErrorPhase}
    }

    predicate CanInstall() {
      phase == ReadyToInstall && signedHap.Some?
    }
  }

  function Applied(s: StateView, e: Event): StateView {
    match e
    case PhaseChanged(p) =>
      if p == Inspecting then s.(phase := p, error := None, failedPhase := None, pid := None) else s.(phase := p)
    case Progress(level, message) => s.(logs := s.logs + [LogEntry(level, message)])
    case Devices(devices) => s.(devices := devices, scanError := None)
    case DeviceScanFailed(error) => s.(logs := s.logs + [LogEntry(Warning, error)], scanError := Some(error))
    case Signed(output, bundle, ability) =>
      s.(signedHap := Some(output), bundle := Some(bundle), ability := Some(ability), phase := ReadyToInstall)
    case Installed(pid) => s.(pid := Some(pid), phase := Done)
    case Failed(error) =>
      s.(failedPhase := Some(s.phase), logs := s.logs + [LogEntry(ErrorLevel, error)], error := Some(error),
         phase := ErrorPhase)
  }

  const INITIAL_STATE := StateView(Idle, None, [], None, None, [], None, None, None, None, None)

  class AppState {
    var phase: AppPhase
    var failedPhase: Option<AppPhase>
    var logs: seq<LogEntry>
    var error: Option<string>
    var scanError: Option<string>
    var devices: seq<Device>
    var device: Option<Device>
    var signedHap: Option<string>
    var bundle: Option<string>
    var ability: Option<string>
    var pid: Option<nat>

    constructor ()
      ensures View() == INITIAL_STATE
    {
      phase, failedPhase, logs, error, scanError := Idle, None, [], None, None;
      devices, device, signedHap, bundle, ability, pid := [], None, None, None, None, None;
    }

    function View(): StateView
      reads this
    {
      StateView(phase, failedPhase, logs, error, scanError, devices, device, signedHap, bundle, ability, pid)
    }

    method Apply(event: Event)
      modifies this
      ensures View() == Applied(old(View()), event)
    {
      match event
      case PhaseChanged(p) =>
        phase := p;
        if p == Inspecting {
          error := None;
          failedPhase := None;
          pid := None;
        }
      case Progress(level, message) =>
        logs := logs + [LogEntry(level, message)];
      case Devices(listed) =>
        devices := listed;
        scanError := None;
      case DeviceScanFailed(message) =>
        logs := logs + [LogEntry(Warning, message)];
        scanError := Some(message);
      case Signed(output, name, main) =>
        signedHap := Some(output);
        bundle := Some(name);
        ability := Some(main);
        phase := ReadyToInstall;
      case Installed(process) =>
        pid := Some(process);
        phase := Done;
      case Failed(message) =>
        failedPhase := Some(phase);
        logs := logs + [LogEntry(ErrorLevel, message)];
        error := Some(message);
        phase := ErrorPhase;
    }
  }

  // ----- Pure decisions -----

  datatype DeviceScanPlan = DeviceScanPlan(start: bool, pending: bool)

  predicate DeviceControlsEnabled(phase: AppPhase) {
    phase in {Idle, Done, ErrorPhase}
  }

  /** `intervalPassed` stands for three seconds having passed since the last scan started. */
  function ScanPlan(phase: AppPhase, running: bool, pending: bool, intervalPassed: bool, menuJustOpened: bool)
    : DeviceScanPlan
  {
    if !DeviceControlsEnabled(phase) then DeviceScanPlan(false, false)
    else
      var requested := pending || menuJustOpened || intervalPassed;
      if running && requested then DeviceScanPlan(false, true)
      else if !running && requested then DeviceScanPlan(true, false)
      else DeviceScanPlan(false, false)
  }

  predicate FirstOf(devices: seq<Device>, udid: string, i: nat) {
    i < |devices| && devices[i].udid == udid && forall k :: 0 <= k < i ==> devices[k].udid != udid
  }

  lemma FirstOfRest(devices: seq<Device>, udid: string)
    requires devices != [] && devices[0].udid != udid
    ensures forall i: nat :: FirstOf(devices[1..], udid, i) ==>
              FirstOf(devices, udid, i + 1) && devices[i + 1] == devices[1..][i]
  {
  }

  /** The first device of that UDID. */
  function FindDevice(devices: seq<Device>, udid: Option<string>): (r: Option<Device>)
    ensures r.Some? ==> r.value in devices && udid == Some(r.value.udid)
    ensures r.Some? ==> exists i: nat :: FirstOf(devices, r.value.udid, i) && devices[i] == r.value
    ensures r.None? && udid.Some? ==> forall d :: d in devices ==> d.udid != udid.value
  {
    if udid.None? || devices == [] then None
    else if devices[0].udid == udid.value then (assert FirstOf(devices, udid.value, 0); Some(devices[0]))
    else
      var r := FindDevice(devices[1..], udid);
      FirstOfRest(devices, udid.value);
      r
  }

  /** A single device is taken; otherwise the current one, else the remembered one, if listed. */
  function ResolveSelected(devices: seq<Device>, current: Option<string>, remembered: Option<string>)
    : (r: Option<Device>)
    ensures r.Some? ==> r.value in devices
    ensures |devices| == 1 ==> r == Some(devices[0])
    ensures |devices| != 1 && (exists d :: d in devices && current == Some(d.udid)) ==>
              r.Some? && Some(r.value.udid) == current
    ensures |devices| != 1 && !(exists d :: d in devices && current == Some(d.udid)) ==>
              if exists d :: d in devices && remembered == Some(d.udid) then r.Some? && Some(r.value.udid) == remembered
              else r == None
  {
    if |devices| == 1 then Some(devices[0])
    else
      var kept := FindDevice(devices, current);
      if kept.Some? then kept else FindDevice(devices, remembered)
  }

  predicate ShouldAutoInstall(phase: AppPhase, installStarted: bool) {
    phase == ReadyToInstall && !installStarted
  }

  // ----- The application -----

  /** A worker thread that was started. */
  datatype Spawn =
    | SpawnScan
    | SpawnResign(path: string, device: Device)
    | SpawnInstall(hap: string, bundle: string, ability: string, device: Device)

  /** The control fields of `HapResignerApp`. */
  datatype AppView = AppView(
    state: StateView, selectedHap: Option<string>, operationDevice: Option<Device>, remembered: Option<string>,
    scanRunning: bool, scanPending: bool, installStarted: bool)

  const NO_DEVICE := "select a device first"

  function UdidOf(d: Option<Device>): Option<string> {
    if d.Some? then Some(d.value.udid) else None
  }

  function RequestScan(a: AppView, intervalPassed: bool, menuJustOpened: bool): (AppView, seq<Spawn>) {
    var plan := ScanPlan(a.state.phase, a.scanRunning, a.scanPending, intervalPassed, menuJustOpened);
    if plan.start then (a.(scanPending := plan.pending, scanRunning := true), [SpawnScan])
    else (a.(scanPending := plan.pending), [])
  }

  function Handled(a: AppView, e: Event, intervalPassed: bool): (AppView, seq<Spawn>) {
    match e
    case Devices(devices) =>
      var selected := ResolveSelected(devices, UdidOf(a.state.device), a.remembered);
      RequestScan(a.(state := Applied(a.state, e).(device := selected), scanRunning := false), intervalPassed, false)
    case DeviceScanFailed(_) =>
      RequestScan(a.(state := Applied(a.state, e), scanRunning := false), intervalPassed, false)
    case PhaseChanged(_) => (a.(state := Applied(a.state, e)), [])
    case Progress(_, _) => (a.(state := Applied(a.state, e)), [])
    case Signed(_, _, _) => (a.(state := Applied(a.state, e)), [])
    case Installed(_) => (a.(state := Applied(a.state, e)), [])
    case Failed(_) => (a.(state := Applied(a.state, e)), [])
  }

  function ResignStarted(a: AppView, path: string): (AppView, seq<Spawn>) {
    if !a.state.CanStart() then (a, [])
    else if a.state.device.None? then (a.(state := Applied(a.state, Failed(NO_DEVICE))), [])
    else
      var device := a.state.device.value;
      var state := Applied(a.state.(logs := []), PhaseChanged(Inspecting));
      (a.(state := state.(signedHap := None, bundle := None, ability := None),
          selectedHap := Some(path), operationDevice := Some(device), installStarted := false),
       [SpawnResign(path, device)])
  }

  function InstallStarted(a: AppView): (AppView, seq<Spawn>) {
    if a.installStarted || !a.state.CanInstall() then (a, [])
    else if a.state.signedHap.None? || a.state.bundle.None? || a.state.ability.None? || a.operationDevice.None? then
      (a.(state := Applied(a.state, Failed(NO_DEVICE))), [])
    else
      (a.(installStarted := true),
       [SpawnInstall(a.state.signedHap.value, a.state.bundle.value, a.state.ability.value, a.operationDevice.value)])
  }

  /** A click on a device in the menu. */
  function DeviceChosen(a: AppView, udid: string): AppView {
    if UdidOf(a.state.device) == Some(udid) then a
    else a.(remembered := Some(udid), state := a.state.(device := FindDevice(a.state.devices, Some(udid))))
  }

  /** The retry button: without a device it fails, without a file it leads to the file dialog. */
  function Retried(a: AppView): (AppView, seq<Spawn>) {
    if a.state.device.None? then (a.(state := Applied(a.state, Failed(NO_DEVICE))), [])
    else if a.selectedHap.Some? then ResignStarted(a, a.selectedHap.value)
    else (a, [])
  }

  class HapResignerApp {
    const state: AppState
    var selectedHap: Option<string>
    var operationDevice: Option<Device>
    var remembered: Option<string>
    var scanRunning: bool
    var scanPending: bool
    var installStarted: bool
    ghost var spawned: seq<Spawn>

    constructor (remembered: Option<string>)
      ensures fresh(state)
      ensures View() == AppView(INITIAL_STATE, None, None, remembered, true, false, false)
      ensures spawned == [SpawnScan]
    {
      state := new AppState();
      selectedHap, operationDevice, this.remembered := None, None, remembered;
      scanRunning, scanPending, installStarted := true, false, false;
      spawned := [SpawnScan];
    }

    function View(): AppView
      reads this, state
    {
      AppView(state.View(), selectedHap, operationDevice, remembered, scanRunning, scanPending, installStarted)
    }

    method RequestDeviceScan(intervalPassed: bool, menuJustOpened: bool)
      modifies this
      ensures View() == RequestScan(old(View()), intervalPassed, menuJustOpened).0
      ensures spawned == old(spawned) + RequestScan(old(View()), intervalPassed, menuJustOpened).1
    {
      var plan := ScanPlan(state.phase, scanRunning, scanPending, intervalPassed, menuJustOpened);
      scanPending := plan.pending;
      if plan.start {
        scanRunning := true;
        spawned := spawned + [SpawnScan];
      }
    }

    method HandleEvent(event: Event, intervalPassed: bool)
      modifies this, state
      ensures View() == Handled(old(View()), event, intervalPassed).0
      ensures spawned == old(spawned) + Handled(old(View()), event, intervalPassed).1
    {
      match event
      case Devices(devices) =>
        var current := if state.device.Some? then Some(state.device.value.udid) else None;
        var selected := ResolveSelected(devices, current, remembered);
        state.Apply(event);
        state.device := selected;
        scanRunning := false;
        RequestDeviceScan(intervalPassed, false);
      case DeviceScanFailed(_) =>
        state.Apply(event);
        scanRunning := false;
        RequestDeviceScan(intervalPassed, false);
      case PhaseChanged(_) => state.Apply(event);
      case Progress(_, _) => state.Apply(event);
      case Signed(_, _, _) => state.Apply(event);
      case Installed(_) => state.Apply(event);
      case Failed(_) => state.Apply(event);
    }

    method StartResign(path: string)
      modifies this, state
      ensures View() == ResignStarted(old(View()), path).0
      ensures spawned == old(spawned) + ResignStarted(old(View()), path).1
    {
      if !state.View().CanStart() {
        return;
      }
      if state.device.None? {
        state.Apply(Failed(NO_DEVICE));
        return;
      }
      var device := state.device.value;
      selectedHap := Some(path);
      operationDevice := Some(device);
      installStarted := false;
      state.logs := [];
      state.Apply(PhaseChanged(Inspecting));
      state.signedHap := None;
      state.bundle := None;
      state.ability := None;
      spawned := spawned + [SpawnResign(path, device)];
    }

    method StartInstall()
      modifies this, state
      ensures View() == InstallStarted(old(View())).0
      ensures spawned == old(spawned) + InstallStarted(old(View())).1
    {
      if installStarted || !state.View().CanInstall() {
        return;
      }
      if state.signedHap.None? || state.bundle.None? || state.ability.None? || operationDevice.None? {
        state.Apply(Failed(NO_DEVICE));
        return;
      }
      installStarted := true;
      spawned := spawned + [SpawnInstall(state.signedHap.value, state.bundle.value, state.ability.value,
                                         operationDevice.value)];
    }

    method Retry()
      modifies this, state
      ensures View() == Retried(old(View())).0
      ensures spawned == old(spawned) + Retried(old(View())).1
    {
      if state.device.None? {
        state.Apply(Failed(NO_DEVICE));
        return;
      }
      if selectedHap.Some? {
        StartResign(selectedHap.value);
      }
    }

    method ChooseDevice(udid: string)
      modifies this, state
      ensures View() == DeviceChosen(old(View()), udid) && spawned == old(spawned)
    {
      if UdidOf(state.device) != Some(udid) {
        remembered := Some(udid);
        state.device := FindDevice(state.devices, Some(udid));
      }
    }
  }
}
