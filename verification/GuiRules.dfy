/** What the handlers of the application do start, and when: the other side of the safety of its runs. */
module GuiRules {
  import opened Wrappers
  import opened GuiApp
  import opened GuiProtocol

  // ----- Scans -----

  /** Scans run only while no operation does. */
  predicate ScanPhase(phase: AppPhase) {
    phase == Idle || phase == Done || phase == ErrorPhase
  }

  /** A scan starts exactly if one is wanted, none is running, and no operation is; a wanted scan waits for the
      running one; nothing else changes. */
  lemma ScanStartsExactly(a: AppView, intervalPassed: bool, menuJustOpened: bool)
    ensures
      var (b, spawns) := RequestScan(a, intervalPassed, menuJustOpened);
      var wanted := ScanPhase(a.state.phase) && (a.scanPending || menuJustOpened || intervalPassed);
      && spawns == (if wanted && !a.scanRunning then [SpawnScan] else [])
      && b.scanRunning == (a.scanRunning || wanted)
      && b.scanPending == (wanted && a.scanRunning)
      && b.(scanRunning := a.scanRunning, scanPending := a.scanPending) == a
  {
  }

  /** The result of a scan ends it and starts the one that waits for it, unless an operation has begun. */
  lemma WaitingScanIsServed(a: AppView, e: Event, intervalPassed: bool)
    requires e.Devices? || e.DeviceScanFailed?
    ensures
      var (b, spawns) := Handled(a, e, intervalPassed);
      && (b.scanRunning <==> ScanPhase(a.state.phase) && (a.scanPending || intervalPassed))
      && spawns == (if b.scanRunning then [SpawnScan] else []) && !b.scanPending
      && b.state.phase == a.state.phase && b.operationDevice == a.operationDevice
      && b.installStarted == a.installStarted && b.remembered == a.remembered && b.selectedHap == a.selectedHap
  {
    hide ResolveSelected;
  }

  // ----- Events -----

  /** What an event leaves behind in the state. */
  lemma EventsExactly(s: StateView, e: Event)
    ensures
      var t := Applied(s, e);
      && t.phase == (if e.PhaseChanged? then e.phase
                     else if e.Signed? then ReadyToInstall
                     else if e.Installed? then Done
                     else if e.Failed? then ErrorPhase
                     else s.phase)
      && t.error == (if e.Failed? then Some(e.error) else if e == PhaseChanged(Inspecting) then None else s.error)
      && t.failedPhase == (if e.Failed? then Some(s.phase) else if e == PhaseChanged(Inspecting) then None
                           else s.failedPhase)
      && t.pid == (if e.Installed? then Some(e.pid) else if e == PhaseChanged(Inspecting) then None else s.pid)
      && t.devices == (if e.Devices? then e.devices else s.devices) && t.device == s.device
      && t.scanError == (if e.Devices? then None else if e.DeviceScanFailed? then Some(e.error) else s.scanError)
      && (if e.Signed? then t.signedHap == Some(e.output) && t.bundle == Some(e.bundle) && t.ability == Some(e.ability)
          else t.signedHap == s.signedHap && t.bundle == s.bundle && t.ability == s.ability)
      && t.logs == s.logs + (if e.Progress? then [LogEntry(e.level, e.message)]
                             else if e.DeviceScanFailed? then [LogEntry(Warning, e.error)]
                             else if e.Failed? then [LogEntry(ErrorLevel, e.error)] else [])
  {
  }

  // ----- Operations -----

  /** A file is re-signed exactly if no operation is running and a device is selected; without a device the start
      fails, and during an operation nothing happens. */
  lemma ResignStartsExactly(a: AppView, path: string)
    ensures
      var (b, spawns) := ResignStarted(a, path);
      var free := ScanPhase(a.state.phase) || a.state.phase == ReadyToInstall;
      if free && a.state.device.Some? then
        && spawns == [SpawnResign(path, a.state.device.value)]
        && b.state.phase == Inspecting && b.selectedHap == Some(path) && b.operationDevice == a.state.device
        && !b.installStarted && b.state.signedHap == b.state.bundle == b.state.ability == None
        && b.state.error == None && b.state.failedPhase == None && b.state.pid == None && b.state.logs == []
        && b.state.device == a.state.device && b.state.devices == a.state.devices
        && b.scanRunning == a.scanRunning && b.scanPending == a.scanPending && b.remembered == a.remembered
      else
        spawns == [] && (!free ==> b == a) && (free ==> b.state.phase == ErrorPhase && b.state.error.Some?)
  {
  }

  /** An installation starts exactly once for a signed file, with what the re-sign delivered and the device it was
      started for. */
  lemma InstallStartsExactly(a: AppView)
    ensures
      var (b, spawns) := InstallStarted(a);
      var due := a.state.phase == ReadyToInstall && a.state.signedHap.Some? && !a.installStarted;
      if due && a.state.bundle.Some? && a.state.ability.Some? && a.operationDevice.Some? then
        && spawns == [SpawnInstall(a.state.signedHap.value, a.state.bundle.value, a.state.ability.value,
                                   a.operationDevice.value)]
        && b.installStarted && b.(installStarted := false) == a
      else spawns == [] && (!due ==> b == a) && (due ==> b.state.phase == ErrorPhase && b.state.error.Some?)
  {
  }

  /** The retry button starts the last file again under the same conditions. */
  lemma RetryStartsExactly(a: AppView)
    ensures
      var (b, spawns) := Retried(a);
      && (a.state.device.None? ==> spawns == [] && b.state.phase == ErrorPhase && b.state.error.Some?)
      && (a.state.device.Some? && a.selectedHap.None? ==> spawns == [] && b == a)
      && (a.state.device.Some? && a.selectedHap.Some? ==> (b, spawns) == ResignStarted(a, a.selectedHap.value))
  {
    hide ResignStarted;
  }

  /** A chosen device is remembered and selected if it is listed. */
  lemma ChoiceExactly(a: AppView, udid: string)
    ensures
      var b := DeviceChosen(a, udid);
      if a.state.device.Some? && a.state.device.value.udid == udid then b == a
      else
        && b.remembered == Some(udid)
        && (if exists d :: d in a.state.devices && d.udid == udid
            then b.state.device.Some? && b.state.device.value in a.state.devices && b.state.device.value.udid == udid
            else b.state.device == None)
        && b.(remembered := a.remembered, state := a.state) == a && b.state.(device := a.state.device) == a.state
  {
  }

  // ----- From a start to the installed application -----

  predicate Goes(s: System, step: Step, t: System) {
    Enabled(s, step) && t == Next(s, step)
  }

  /** A quiet application with a selected device. */
  predicate Ready(s: System) {
    && s.channel == [] && s.resigns == [] && s.app.state.device.Some?
    && (ScanPhase(s.app.state.phase) || s.app.state.phase == ReadyToInstall)
  }

  lemma StartLeadsToSigned(s: System, path: string, output: string, bundle: string, ability: string)
    returns (s1: System, s2: System, s3: System)
    requires Ready(s)
    ensures Goes(s, Start(path), s1) && Goes(s1, ResignEnds(0, Signed(output, bundle, ability)), s2)
    ensures Goes(s2, Deliver(false), s3)
    ensures s3.channel == [] && s3.resigns == [] && s3.installs == s.installs && s3.scans == s.scans
    ensures s3.resignsStarted == s.resignsStarted + 1 && s3.installsStarted == s.installsStarted
    ensures
      var a := s3.app;
      && a.state.phase == ReadyToInstall && !a.installStarted && a.operationDevice == s.app.state.device
      && a.state.signedHap == Some(output) && a.state.bundle == Some(bundle) && a.state.ability == Some(ability)
      && a.state.error == None
  {
    hide ResolveSelected, RequestScan, InstallStarted, Retried, DeviceChosen;
    var device := s.app.state.device.value;
    s1 := Next(s, Start(path));
    assert s1.resigns == [device] && s1.channel == [];
    s2 := Next(s1, ResignEnds(0, Signed(output, bundle, ability)));
    assert s2.channel == [Message(Signed(output, bundle, ability), Some(device))] && s2.resigns == [];
    s3 := Next(s2, Deliver(false));
  }

  lemma SignedLeadsToInstalled(s: System, pid: nat) returns (s1: System, s2: System, s3: System)
    requires s.channel == [] && s.app.state.phase == ReadyToInstall && !s.app.installStarted
    requires s.app.operationDevice.Some? && s.app.state.error == None
    requires s.app.state.signedHap.Some? && s.app.state.bundle.Some? && s.app.state.ability.Some?
    ensures Goes(s, AutoInstall, s1) && Goes(s1, InstallEnds(Installed(pid)), s2) && Goes(s2, Deliver(false), s3)
    ensures
      var a := s3.app.state;
      && a.phase == Done && a.pid == Some(pid) && a.error == None
      && s3.installsStarted == s.installsStarted + 1 && s3.resignsStarted == s.resignsStarted
      && s3.channel == [] && s3.resigns == s.resigns && s3.installs == s.installs && s3.scans == s.scans
  {
    hide ResolveSelected, RequestScan, ResignStarted, Retried, DeviceChosen;
    s1 := Next(s, AutoInstall);
    assert s1.installs == s.installs + 1 && s1.channel == [];
    s2 := Next(s1, InstallEnds(Installed(pid)));
    assert s2.channel == [Message(Installed(pid), None)];
    s3 := Next(s2, Deliver(false));
  }

  /** A start in such an application leads to exactly one installation of the signed file on the selected device,
      and the end of that to the phase Done with the process that runs. */
  lemma StartLeadsToInstalled(s: System, path: string, output: string, bundle: string, ability: string, pid: nat)
    returns (s1: System, s2: System, s3: System, s4: System, s5: System, s6: System)
    requires Ready(s)
    ensures Goes(s, Start(path), s1) && Goes(s1, ResignEnds(0, Signed(output, bundle, ability)), s2)
    ensures Goes(s2, Deliver(false), s3) && Goes(s3, AutoInstall, s4)
    ensures Goes(s4, InstallEnds(Installed(pid)), s5) && Goes(s5, Deliver(false), s6)
    ensures InstallStarted(s3.app).1 == [SpawnInstall(output, bundle, ability, s.app.state.device.value)]
    ensures s6.app.state.phase == Done && s6.app.state.pid == Some(pid) && s6.app.state.error == None
    ensures s6.installsStarted == s.installsStarted + 1 && s6.resignsStarted == s.resignsStarted + 1
    ensures s6.channel == [] && s6.resigns == [] && s6.installs == s.installs && s6.scans == s.scans
  {
    hide Goes, InstallStarted;
    s1, s2, s3 := StartLeadsToSigned(s, path, output, bundle, ability);
    InstallStartsExactly(s3.app);
    s4, s5, s6 := SignedLeadsToInstalled(s3, pid);
  }
}
