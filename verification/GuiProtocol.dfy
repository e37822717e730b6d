/** The application together with its worker threads and the event channel between them: every
    interleaving of handlers, user actions and worker progress. */
module GuiProtocol {
  import opened Wrappers
  import opened GuiApp

  /** A queued event; a re-sign's messages carry the device it was started for. */
  datatype Message = Message(event: Event, origin: Option<Device>)

  datatype System = System(
    app: AppView,
    channel: seq<Message>,
    scans: nat,
    resigns: seq<Device>,
    installs: nat,
    resignsStarted: nat,
    installsStarted: nat,
    signedFor: Option<Device>)

  datatype Step =
    | Deliver(intervalPassed: bool)
    | AskScan(intervalPassed: bool, menuJustOpened: bool)
    | AutoInstall
    | Start(path: string)
    | Retry
    | Choose(udid: string)
    | ScanEnds(event: Event)
    | ResignSends(worker: nat, event: Event)
    | ResignEnds(worker: nat, event: Event)
    | InstallSends(event: Event)
    | InstallEnds(event: Event)

  function Initial(remembered: Option<string>): System {
    System(AppView(INITIAL_STATE, None, None, remembered, true, false, false), [], 1, [], 0, 0, 0, None)
  }

  /** The threads a handler started. */
  function Launch(s: System, app: AppView, spawns: seq<Spawn>): System {
    if spawns == [] then s.(app := app)
    else
      match spawns[0]
      case SpawnScan => s.(app := app, scans := s.scans + 1)
      case SpawnResign(_, device) =>
        s.(app := app, resigns := s.resigns + [device], resignsStarted := s.resignsStarted + 1)
      case SpawnInstall(_, _, _, _) =>
        s.(app := app, installs := s.installs + 1, installsStarted := s.installsStarted + 1)
  }

  predicate IsScanEvent(e: Event) {
    e.Devices? || e.DeviceScanFailed?
  }

  /** Phases a re-sign reports while it works. */
  predicate IsResignPhase(p: AppPhase) {
    p in {Inspecting, Authenticating, WaitingForLogin, PreparingMaterials, Signing}
  }

  /** A frame handles all queued messages before it looks for an installation that is due. What workers
      send in between changes nothing the look depends on, so it may be put in front of that. */
  predicate Enabled(s: System, step: Step) {
    match step
    case Deliver(_) => s.channel != []
    case AskScan(_, _) => true
    case AutoInstall => s.channel == [] && ShouldAutoInstall(s.app.state.phase, s.app.installStarted)
    case Start(_) => true
    case Retry => true
    case Choose(_) => DeviceControlsEnabled(s.app.state.phase)
    case ScanEnds(e) => s.scans > 0 && IsScanEvent(e)
    case ResignSends(w, e) => w < |s.resigns| && (e.Progress? || (e.PhaseChanged? && IsResignPhase(e.phase)))
    case ResignEnds(w, e) => w < |s.resigns| && (e.Signed? || e.Failed?)
    case InstallSends(e) => s.installs > 0 && (e.Progress? || e == PhaseChanged(Installing))
    case InstallEnds(e) => s.installs > 0 && (e.Installed? || e.Failed?)
  }

  /** What the user interface thread does in a step: the new control fields and the threads to start. */
  function Moved(s: System, step: Step): (AppView, seq<Spawn>)
    requires Enabled(s, step)
  {
    match step
    case Deliver(intervalPassed) => Handled(s.app, s.channel[0].event, intervalPassed)
    case AskScan(intervalPassed, menu) => RequestScan(s.app, intervalPassed, menu)
    case AutoInstall => InstallStarted(s.app)
    case Start(path) => ResignStarted(s.app, path)
    case Retry => Retried(s.app)
    case Choose(udid) => (DeviceChosen(s.app, udid), [])
    case _ => (s.app, [])
  }

  /** What happens to the channel and to the threads that end in a step. */
  function Passed(s: System, step: Step): System
    requires Enabled(s, step)
  {
    match step
    case Deliver(_) =>
      var m := s.channel[0];
      s.(channel := s.channel[1..], signedFor := if m.event.Signed? then m.origin else s.signedFor)
    case ScanEnds(e) => s.(scans := s.scans - 1, channel := s.channel + [Message(e, None)])
    case ResignSends(w, e) => s.(channel := s.channel + [Message(e, Some(s.resigns[w]))])
    case ResignEnds(w, e) =>
      s.(channel := s.channel + [Message(e, Some(s.resigns[w]))], resigns := s.resigns[..w] + s.resigns[w + 1..])
    case InstallSends(e) => s.(channel := s.channel + [Message(e, None)])
    case InstallEnds(e) => s.(installs := s.installs - 1, channel := s.channel + [Message(e, None)])
    case _ => s
  }

  function Next(s: System, step: Step): System
    requires Enabled(s, step)
  {
    Launch(Passed(s, step), Moved(s, step).0, Moved(s, step).1)
  }

  /** The states a run passes through start from the initial one, each by an enabled step. */
  ghost predicate IsRun(states: seq<System>, steps: seq<Step>, remembered: Option<string>) {
    && |states| == |steps| + 1 && states[0] == Initial(remembered)
    && forall i {:trigger steps[i]} :: 0 <= i < |steps| ==>
         Enabled(states[i], steps[i]) && states[i + 1] == Next(states[i], steps[i])
  }

  // ----- Invariants -----

  function ScanEvents(channel: seq<Message>): nat {
    if channel == [] then 0 else (if IsScanEvent(channel[0].event) then 1 else 0) + ScanEvents(channel[1..])
  }

  lemma {:induction false} ScanEventsSnoc(channel: seq<Message>, m: Message)
    ensures ScanEvents(channel + [m]) == ScanEvents(channel) + if IsScanEvent(m.event) then 1 else 0
    decreases |channel|
  {
    if channel == [] {
      assert (channel + [m])[1..] == [];
    } else {
      assert (channel + [m])[1..] == channel[1..] + [m];
      ScanEventsSnoc(channel[1..], m);
    }
  }

  /** The running flag counts the scan that is live or whose result is still queued. */
  predicate OneScan(s: System) {
    && s.scans + ScanEvents(s.channel) == (if s.app.scanRunning then 1 else 0)
    && (s.app.scanPending ==> s.app.scanRunning)
  }

  predicate DeviceListed(a: AppView) {
    a.state.device.Some? ==> a.state.device.value in a.state.devices
  }

  /** A finished signature left everything an installation needs. */
  predicate ReadyIsComplete(a: AppView) {
    a.state.phase == ReadyToInstall ==>
      && a.state.signedHap.Some? && a.state.bundle.Some? && a.state.ability.Some? && a.operationDevice.Some?
  }

  /** A signed file is being made or is queued only after a re-sign was started. */
  predicate SignedAfterStart(s: System) {
    && ReadyIsComplete(s.app)
    && (s.resigns != [] || s.app.state.phase == ReadyToInstall ==> s.resignsStarted > 0)
    && (s.resignsStarted > 0 ==> s.app.operationDevice.Some?)
    && forall m :: m in s.channel ==>
         m.event != PhaseChanged(ReadyToInstall) && (m.event.Signed? ==> s.resignsStarted > 0)
  }

  /** A re-sign re-arms the installation, an installation disarms it. */
  predicate InstallsCounted(s: System) {
    if s.resignsStarted == 0 then s.installsStarted == 0 && !s.app.installStarted
    else s.installsStarted + (if s.app.installStarted then 0 else 1) <= s.resignsStarted
  }

  predicate Good(s: System) {
    OneScan(s) && DeviceListed(s.app) && SignedAfterStart(s) && InstallsCounted(s)
  }

  // ----- What each handler does to the control fields -----

  /** The handlers touch the scan flags only when they end or start a scan, and start at most one. */
  lemma ScanFlags(s: System, step: Step)
    requires Enabled(s, step) && OneScan(s)
    ensures
      var (a, spawns) := Moved(s, step);
      var ended := step.Deliver? && IsScanEvent(s.channel[0].event);
      && |spawns| <= 1
      && (a.scanPending ==> a.scanRunning)
      && (ended ==> s.app.scanRunning)
      && a.scanRunning == ((s.app.scanRunning && !ended) || (spawns != [] && spawns[0].SpawnScan?))
      && (s.app.scanRunning && !ended ==> spawns == [] || !spawns[0].SpawnScan?)
  {
    hide Applied, ResolveSelected, FindDevice;
  }

  lemma DeviceStaysListed(s: System, step: Step)
    requires Enabled(s, step) && DeviceListed(s.app)
    ensures DeviceListed(Moved(s, step).0)
  {
    if step.Deliver? {
      EventKeepsDeviceListed(s.app, s.channel[0].event, step.intervalPassed);
    }
    hide Handled, ScanPlan, FindDevice;
  }

  lemma EventKeepsDeviceListed(a: AppView, e: Event, intervalPassed: bool)
    requires DeviceListed(a)
    ensures DeviceListed(Handled(a, e, intervalPassed).0)
  {
    hide ScanPlan, FindDevice;
  }

  /** An event starts no re-sign and no installation, and only a signature brings new outputs. */
  lemma EventFields(a: AppView, e: Event, intervalPassed: bool)
    ensures
      var (b, spawns) := Handled(a, e, intervalPassed);
      && (spawns == [] || spawns[0].SpawnScan?)
      && b.operationDevice == a.operationDevice && b.installStarted == a.installStarted
      && OutputsMoved(a, b, Some(e))
  {
    hide ScanPlan, FindDevice, ResolveSelected;
  }

  /** The outputs come from a signature event, the ready phase from it or from a phase event. */
  predicate OutputsMoved(a: AppView, b: AppView, e: Option<Event>) {
    if e.Some? && e.value.Signed? then
      b.state.phase == ReadyToInstall && b.state.signedHap.Some? && b.state.bundle.Some? && b.state.ability.Some?
    else
      && b.state.signedHap == a.state.signedHap && b.state.bundle == a.state.bundle
      && b.state.ability == a.state.ability
      && (b.state.phase == ReadyToInstall && a.state.phase != ReadyToInstall ==>
          e == Some(PhaseChanged(ReadyToInstall)))
  }

  /** What the handlers do to the fields of the re-sign and of the installation. */
  lemma SigningFields(s: System, step: Step)
    requires Enabled(s, step)
    ensures
      var a := s.app;
      var (b, spawns) := Moved(s, step);
      if spawns != [] && spawns[0].SpawnResign? then
        && a.state.device == Some(spawns[0].device) && b.operationDevice == Some(spawns[0].device)
        && !b.installStarted && b.state.phase == Inspecting && b.state.signedHap == None
        && (step.Start? || step.Retry?)
      else
        && b.operationDevice == a.operationDevice
        && OutputsMoved(a, b, if step.Deliver? then Some(s.channel[0].event) else None)
        && if spawns != [] && spawns[0].SpawnInstall? then
             !a.installStarted && b.installStarted && a.state.phase == ReadyToInstall
           else b.installStarted == a.installStarted
  {
    if step.Deliver? {
      EventFields(s.app, s.channel[0].event, step.intervalPassed);
    }
    hide Handled, ScanPlan, FindDevice, ResolveSelected;
  }

  // ----- Each step keeps the invariants -----

  lemma OneScanKept(s: System, step: Step)
    requires OneScan(s) && Enabled(s, step)
    ensures OneScan(Next(s, step))
  {
    ScanFlags(s, step);
    hide Moved;
    match step
    case ScanEnds(e) => ScanEventsSnoc(s.channel, Message(e, None));
    case ResignSends(w, e) => ScanEventsSnoc(s.channel, Message(e, Some(s.resigns[w])));
    case ResignEnds(w, e) => ScanEventsSnoc(s.channel, Message(e, Some(s.resigns[w])));
    case InstallSends(e) => ScanEventsSnoc(s.channel, Message(e, None));
    case InstallEnds(e) => ScanEventsSnoc(s.channel, Message(e, None));
    case _ =>
  }

  lemma SignedAfterStartKept(s: System, step: Step)
    requires SignedAfterStart(s) && Enabled(s, step)
    ensures SignedAfterStart(Next(s, step))
  {
    SigningFields(s, step);
    hide Moved;
    if step.Deliver? {
      assert s.channel[0] in s.channel;
    }
  }

  lemma InstallsCountedKept(s: System, step: Step)
    requires InstallsCounted(s) && SignedAfterStart(s) && Enabled(s, step)
    ensures InstallsCounted(Next(s, step))
  {
    SigningFields(s, step);
    hide Moved;
  }

  lemma {:induction false} RunIsGood(states: seq<System>, steps: seq<Step>, remembered: Option<string>, i: nat)
    requires IsRun(states, steps, remembered) && i < |states|
    ensures Good(states[i])
    decreases i
  {
    hide Enabled, Moved, Passed;
    if i > 0 {
      RunIsGood(states, steps, remembered, i - 1);
      OneScanKept(states[i - 1], steps[i - 1]);
      DeviceStaysListed(states[i - 1], steps[i - 1]);
      SignedAfterStartKept(states[i - 1], steps[i - 1]);
      InstallsCountedKept(states[i - 1], steps[i - 1]);
    }
  }

  /** Single scan: in every reachable state the running flag holds exactly when one scan is live or
      has its result queued, no more than one ever is, a pending request implies a running scan,
      and the selected device is one of the listed ones. */
  lemma SingleDeviceScan(states: seq<System>, steps: seq<Step>, remembered: Option<string>, i: nat)
    requires IsRun(states, steps, remembered) && i < |states|
    ensures
      var s := states[i];
      && (s.app.scanRunning <==> s.scans + ScanEvents(s.channel) == 1)
      && s.scans + ScanEvents(s.channel) <= 1
      && (s.app.scanPending ==> s.app.scanRunning)
      && (s.app.state.device.Some? ==> s.app.state.device.value in s.app.state.devices)
  {
    hide IsRun;
    RunIsGood(states, steps, remembered, i);
  }

  /** Install at most once per re-sign, and a due installation always has all it needs: the
      fallback that reports a missing device is never taken. */
  lemma InstallOncePerResign(states: seq<System>, steps: seq<Step>, remembered: Option<string>, i: nat)
    requires IsRun(states, steps, remembered) && i < |states|
    ensures states[i].installsStarted <= states[i].resignsStarted
    ensures
      var a := states[i].app;
      a.state.phase == ReadyToInstall ==>
        a.state.signedHap.Some? && a.state.bundle.Some? && a.state.ability.Some? && a.operationDevice.Some?
    ensures
      var a := states[i].app;
      ShouldAutoInstall(a.state.phase, a.installStarted) ==>
        InstallStarted(a).1 == [SpawnInstall(a.state.signedHap.value, a.state.bundle.value, a.state.ability.value,
                                                a.operationDevice.value)]
  {
    hide IsRun;
    RunIsGood(states, steps, remembered, i);
  }

  // ----- Which device an installation targets -----

  /** The events that set the phase. */
  predicate IsControl(e: Event) {
    e.PhaseChanged? || e.Signed? || e.Installed? || e.Failed?
  }

  function LastControl(channel: seq<Message>): Option<Message> {
    if channel == [] then None
    else if IsControl(channel[|channel| - 1].event) then Some(channel[|channel| - 1])
    else LastControl(channel[..|channel| - 1])
  }

  /** The same, from the front. */
  lemma {:induction false} LastControlFront(channel: seq<Message>)
    requires channel != []
    ensures LastControl(channel) ==
            if LastControl(channel[1..]).Some? then LastControl(channel[1..])
            else if IsControl(channel[0].event) then Some(channel[0]) else None
    decreases |channel|
  {
    hide IsControl;
    if |channel| > 1 {
      var init := channel[..|channel| - 1];
      LastControlFront(init);
      assert channel[1..][..|channel| - 2] == init[1..];
    }
  }

  lemma LastControlSnoc(channel: seq<Message>, m: Message)
    ensures LastControl(channel + [m]) == if IsControl(m.event) then Some(m) else LastControl(channel)
  {
    assert (channel + [m])[..|channel|] == channel;
  }

  predicate Misleads(m: Option<Message>, target: Option<Device>) {
    m.Some? && m.value.event.Signed? && m.value.origin != target
  }

  /** What is being signed is for the device installations go to, and so is what will be ready to be
      installed once the queue is empty. */
  predicate OnTarget(s: System) {
    && (forall w :: w in s.resigns ==> Some(w) == s.app.operationDevice)
    && !Misleads(LastControl(s.channel), s.app.operationDevice)
    && (LastControl(s.channel).None? && s.app.state.phase == ReadyToInstall ==> s.signedFor == s.app.operationDevice)
  }

  /** The step starts a re-sign for that device. */
  predicate StartsResign(s: System, step: Step, d: Device)
    requires Enabled(s, step)
  {
    Next(s, step).resignsStarted == s.resignsStarted + 1 && s.app.state.device == Some(d)
  }

  /** No step but the start of another re-sign breaks this. */
  lemma OnTargetKept(s: System, step: Step)
    requires OnTarget(s) && SignedAfterStart(s) && Enabled(s, step) && Next(s, step).resignsStarted == s.resignsStarted
    ensures OnTarget(Next(s, step))
  {
    SigningFields(s, step);
    if step.Deliver? {
      OnTargetDelivered(s, step);
    } else if step.ScanEnds? || step.ResignSends? || step.ResignEnds? || step.InstallSends? || step.InstallEnds? {
      OnTargetSent(s, step);
    }
    hide Moved, LastControl;
  }

  lemma OnTargetDelivered(s: System, step: Step)
    requires OnTarget(s) && SignedAfterStart(s) && Enabled(s, step) && step.Deliver?
    ensures OnTarget(Next(s, step))
  {
    SigningFields(s, step);
    LastControlFront(s.channel);
    assert s.channel[0] in s.channel;
    PhaseAfter(s.app, s.channel[0].event, step.intervalPassed);
    EventFields(s.app, s.channel[0].event, step.intervalPassed);
    hide Moved, LastControl, Handled;
  }

  /** An event that sets the phase and is not a signature ends the ready phase. */
  lemma PhaseAfter(a: AppView, e: Event, intervalPassed: bool)
    requires e != PhaseChanged(ReadyToInstall)
    ensures
      var b := Handled(a, e, intervalPassed).0;
      if IsControl(e) then b.state.phase == ReadyToInstall <==> e.Signed?
      else && b.state.phase == a.state.phase && b.state.signedHap == a.state.signedHap
           && b.state.bundle == a.state.bundle && b.state.ability == a.state.ability
  {
    hide ScanPlan, FindDevice, ResolveSelected;
  }

  lemma OnTargetSent(s: System, step: Step)
    requires OnTarget(s) && Enabled(s, step)
    requires step.ScanEnds? || step.ResignSends? || step.ResignEnds? || step.InstallSends? || step.InstallEnds?
    ensures OnTarget(Next(s, step))
  {
    hide LastControl;
    var origin := if step.ResignSends? || step.ResignEnds? then Some(s.resigns[step.worker]) else None;
    LastControlSnoc(s.channel, Message(step.event, origin));
    if origin.Some? {
      assert s.resigns[step.worker] in s.resigns;
    }
  }

  /** Every re-sign still running is for that device, and the last queued message that sets the phase is
      not a signature for another one. */
  predicate SafeStart(s: System, d: Device) {
    (forall w :: w in s.resigns ==> w == d) && !Misleads(LastControl(s.channel), Some(d))
  }

  lemma Started(s: System, step: Step, d: Device)
    requires Enabled(s, step) && StartsResign(s, step, d)
    ensures
      var t := Next(s, step);
      && t.resigns == s.resigns + [d] && t.channel == s.channel && !t.app.installStarted
      && t.app.operationDevice == Some(d) && t.app.state.phase == Inspecting
  {
    SigningFields(s, step);
    hide Moved;
  }

  lemma StartKeepsTargetsExactly(s: System, step: Step, d: Device)
    requires Enabled(s, step) && StartsResign(s, step, d)
    ensures OnTarget(Next(s, step)) <==> SafeStart(s, d)
  {
    Started(s, step, d);
    hide Next, Enabled, LastControl;
    assert forall w :: w in s.resigns + [d] <==> w in s.resigns || w == d;
  }

  // ----- What a start can lead to -----

  /** t is the state that these steps lead to from s, each of them enabled. */
  predicate Reaches(s: System, steps: seq<Step>, t: System)
    decreases |steps|
  {
    if steps == [] then s == t
    else Enabled(s, steps[0]) && Reaches(Next(s, steps[0]), steps[1..], t)
  }

  /** All messages are handled, an installation is due, and it goes to another device than its file was
      signed for. */
  predicate WrongInstallDue(s: System) {
    var spawns := InstallStarted(s.app).1;
    && s.channel == [] && ShouldAutoInstall(s.app.state.phase, s.app.installStarted)
    && spawns != [] && spawns[0].SpawnInstall? && Some(spawns[0].device) != s.signedFor
  }

  predicate StartFree(steps: seq<Step>) {
    forall step :: step in steps ==> !step.Start? && !step.Retry?
  }

  /** This lasts until the next start, and as long as it lasts no wrong installation is due. */
  lemma {:induction false} TargetLasts(s: System, steps: seq<Step>, t: System)
    requires OnTarget(s) && SignedAfterStart(s) && StartFree(steps) && Reaches(s, steps, t)
    ensures OnTarget(t) && !WrongInstallDue(t)
    decreases |steps|
  {
    if steps == [] {
      NoneWrong(t);
    } else {
      assert steps[0] in steps;
      StartFreeStep(s, steps[0]);
      OnTargetKept(s, steps[0]);
      SignedAfterStartKept(s, steps[0]);
      TargetLasts(Next(s, steps[0]), steps[1..], t);
    }
  }

  lemma StartFreeStep(s: System, step: Step)
    requires Enabled(s, step) && !step.Start? && !step.Retry?
    ensures Next(s, step).resignsStarted == s.resignsStarted
  {
    SigningFields(s, step);
    hide Moved;
  }

  lemma NoneWrong(s: System)
    requires OnTarget(s)
    ensures !WrongInstallDue(s)
  {
  }

  function Delivers(n: nat): (steps: seq<Step>)
    ensures |steps| == n && StartFree(steps)
  {
    if n == 0 then [] else [Deliver(false)] + Delivers(n - 1)
  }

  /** Phase and outputs are those of a state in which a signature has just been handled. */
  predicate ReadyFor(t: System, origin: Option<Device>) {
    && t.app.state.phase == ReadyToInstall && t.app.state.signedHap.Some? && t.app.state.bundle.Some?
    && t.app.state.ability.Some? && t.signedFor == origin
  }

  /** Handling all queued messages touches neither target nor flag; if the last one that sets the phase is
      a signature, its file is ready to be installed, and without such a message a ready one stays so. */
  lemma {:induction false} Drain(s: System) returns (t: System)
    ensures Reaches(s, Delivers(|s.channel|), t) && t.channel == []
    ensures t.app.operationDevice == s.app.operationDevice && t.app.installStarted == s.app.installStarted
    ensures var m := LastControl(s.channel);
      && (m.Some? && m.value.event.Signed? ==> ReadyFor(t, m.value.origin))
      && (m.None? ==> forall origin :: ReadyFor(s, origin) ==> ReadyFor(t, origin))
    decreases |s.channel|
  {
    if s.channel == [] {
      t := s;
    } else {
      var u := Next(s, Deliver(false));
      Delivered(s);
      LastControlFront(s.channel);
      assert Delivers(|s.channel|)[1..] == Delivers(|s.channel| - 1);
      hide Next, Moved, Passed, LastControl;
      t := Drain(u);
    }
  }

  lemma Delivered(s: System)
    requires s.channel != []
    ensures
      var t, m := Next(s, Deliver(false)), s.channel[0];
      && t.channel == s.channel[1..]
      && t.app.operationDevice == s.app.operationDevice && t.app.installStarted == s.app.installStarted
      && (m.event.Signed? ==> ReadyFor(t, m.origin))
      && (!IsControl(m.event) ==> forall origin :: ReadyFor(s, origin) ==> ReadyFor(t, origin))
  {
    EventFields(s.app, s.channel[0].event, false);
    if !IsControl(s.channel[0].event) {
      PhaseAfter(s.app, s.channel[0].event, false);
    }
    hide Handled;
  }

  /** If what will be ready is for another device, only delivering is left to do. */
  lemma QueuedMisdirects(s: System, d: Device) returns (t: System)
    requires s.app.operationDevice == Some(d) && !s.app.installStarted && Misleads(LastControl(s.channel), Some(d))
    ensures Reaches(s, Delivers(|s.channel|), t) && WrongInstallDue(t)
  {
    t := Drain(s);
    hide Reaches, Delivers, LastControl;
  }

  /** A running re-sign for another device can send the last message. */
  lemma RunningMisdirects(s: System, d: Device, j: nat) returns (rest: seq<Step>, t: System)
    requires s.app.operationDevice == Some(d) && !s.app.installStarted
    requires j < |s.resigns| && s.resigns[j] != d
    ensures StartFree(rest) && Reaches(s, rest, t) && WrongInstallDue(t)
  {
    var end := ResignEnds(j, Signed("", "", ""));
    LastMessage(s, end);
    LastControlSnoc(s.channel, Message(end.event, Some(s.resigns[j])));
    var v := Next(s, end);
    hide Next, WrongInstallDue, LastControl;
    t := QueuedMisdirects(v, d);
    rest := [end] + Delivers(|v.channel|);
    assert rest[1..] == Delivers(|v.channel|);
  }

  /** A start that is not safe can end in an installation on the wrong device, without any further start. */
  lemma StartCanMisdirect(s: System, step: Step, d: Device) returns (rest: seq<Step>, t: System)
    requires Enabled(s, step) && StartsResign(s, step, d) && !SafeStart(s, d)
    ensures StartFree(rest) && Reaches(Next(s, step), rest, t) && WrongInstallDue(t)
  {
    Started(s, step, d);
    var u := Next(s, step);
    hide Next, Reaches, WrongInstallDue, LastControl;
    if Misleads(LastControl(s.channel), Some(d)) {
      t := QueuedMisdirects(u, d);
      rest := Delivers(|u.channel|);
    } else {
      var w :| w in s.resigns && w != d;
      var j :| 0 <= j < |s.resigns| && s.resigns[j] == w;
      assert u.resigns[j] == w;
      rest, t := RunningMisdirects(u, d, j);
    }
  }

  lemma LastMessage(s: System, end: Step)
    requires Enabled(s, end) && end.ResignEnds?
    ensures Next(s, end).channel == s.channel + [Message(end.event, Some(s.resigns[end.worker]))]
    ensures Next(s, end).app == s.app
  {
  }

  /** In every reachable state, a start for device d is safe exactly if every running re-sign is for d and
      the last queued message that sets the phase is not a signature for another device: otherwise, and
      only otherwise, some continuation without a further start makes an installation due that goes to
      another device than its file was signed for. */
  lemma StartIsSafeExactly(states: seq<System>, steps: seq<Step>, remembered: Option<string>, i: nat, step: Step,
                           d: Device)
    requires IsRun(states, steps, remembered) && i < |states|
    requires Enabled(states[i], step) && StartsResign(states[i], step, d)
    ensures SafeStart(states[i], d) <==>
            forall rest, t :: StartFree(rest) && Reaches(Next(states[i], step), rest, t) ==> !WrongInstallDue(t)
  {
    hide Next, Enabled, Reaches, WrongInstallDue, SafeStart, StartFree, OnTarget, StartsResign, IsRun, SignedAfterStart,
         OneScan, InstallsCounted;
    var s := states[i];
    if SafeStart(s, d) {
      RunIsGood(states, steps, remembered, i);
      StartKeepsTargetsExactly(s, step, d);
      SignedAfterStartKept(s, step);
      forall rest, t | StartFree(rest) && Reaches(Next(s, step), rest, t)
        ensures !WrongInstallDue(t)
      {
        TargetLasts(Next(s, step), rest, t);
      }
    } else {
      var rest, t := StartCanMisdirect(s, step, d);
    }
  }

  /** If every re-sign of a run is started safely, every installation goes to the device its file was
      signed for. */
  lemma {:induction false} CarefulRunsHitTheirTarget(states: seq<System>, steps: seq<Step>, remembered: Option<string>,
                                                     i: nat)
    requires IsRun(states, steps, remembered) && i < |states|
    requires forall k, d {:trigger StartsResign(states[k], steps[k], d)} ::
               0 <= k < i && StartsResign(states[k], steps[k], d) ==> SafeStart(states[k], d)
    ensures OnTarget(states[i]) && !WrongInstallDue(states[i])
    decreases i
  {
    hide Next, Enabled, OnTarget, SafeStart, WrongInstallDue, SignedAfterStart, OneScan, InstallsCounted;
    if i == 0 {
      InitialOnTarget(remembered);
    } else {
      CarefulRunsHitTheirTarget(states, steps, remembered, i - 1);
      var s, step := states[i - 1], steps[i - 1];
      RunIsGood(states, steps, remembered, i - 1);
      StartsOnlyWithDevice(s, step);
      if Next(s, step).resignsStarted == s.resignsStarted {
        OnTargetKept(s, step);
      } else {
        assert StartsResign(s, step, s.app.state.device.value);
        StartKeepsTargetsExactly(s, step, s.app.state.device.value);
      }
    }
    NoneWrong(states[i]);
  }

  lemma InitialOnTarget(remembered: Option<string>)
    ensures OnTarget(Initial(remembered))
  {
  }

  lemma StartsOnlyWithDevice(s: System, step: Step)
    requires Enabled(s, step)
    ensures Next(s, step).resignsStarted == s.resignsStarted
         || (Next(s, step).resignsStarted == s.resignsStarted + 1 && s.app.state.device.Some?)
  {
    SigningFields(s, step);
    hide Moved;
  }

  // ----- A run whose installation goes to the wrong device -----

  const DEVICE_A := Device("a", "A", "phone")
  const DEVICE_B := Device("b", "B", "tablet")

  /** A worker sends a message, which the user interface thread then handles. */
  function Told(step: Step): seq<Step> {
    [step, Deliver(false)]
  }

  function FirstSteps(): seq<Step> {
    Told(ScanEnds(Devices([DEVICE_A, DEVICE_B]))) + [Start("first")] + Told(ResignSends(0, PhaseChanged(Inspecting)))
    + Told(ResignSends(0, PhaseChanged(Signing))) + Told(ResignEnds(0, Signed("1", "b", "m")))
  }

  /** A second file is dropped before the first installation reports its phase. */
  function SecondSteps(): seq<Step> {
    [AutoInstall, Start("second")] + Told(ResignSends(0, PhaseChanged(Inspecting)))
    + Told(InstallSends(PhaseChanged(Installing))) + Told(InstallEnds(Installed(1)))
  }

  /** With the first installation done, a third file is started for another device while the second
      is still being signed. */
  function ThirdSteps(): seq<Step> {
    [Choose("B"), Start("third")] + Told(ResignSends(0, PhaseChanged(Signing)))
    + Told(ResignEnds(0, Signed("2", "b", "m")))
  }

  function Shown(phase: AppPhase, device: Device, signed: Option<string>, pid: Option<nat>): StateView {
    StateView(phase, None, [], None, None, [DEVICE_A, DEVICE_B], Some(device), signed,
              if signed.Some? then Some("b") else None, if signed.Some? then Some("m") else None, pid)
  }

  /** No scan runs and no message is queued. */
  function Quiet(state: StateView, path: string, operation: Device, remembered: string, installStarted: bool,
                 resigns: seq<Device>, installs: nat, resignsStarted: nat, installsStarted: nat,
                 signedFor: Option<Device>)
    : System
  {
    System(AppView(state, Some(path), Some(operation), Some(remembered), false, false, installStarted), [], 0, resigns,
           installs, resignsStarted, installsStarted, signedFor)
  }

  const SCANNED := System(
    AppView(INITIAL_STATE.(devices := [DEVICE_A, DEVICE_B], device := Some(DEVICE_A)), None, None, Some("A"), false,
            false, false),
    [], 0, [], 0, 0, 0, None)
  const FIRST_SIGNED :=
    Quiet(Shown(ReadyToInstall, DEVICE_A, Some("1"), None), "first", DEVICE_A, "A", false, [], 0, 1, 0, Some(DEVICE_A))
  const SECOND_STARTED :=
    Quiet(Shown(Inspecting, DEVICE_A, None, None), "second", DEVICE_A, "A", false, [DEVICE_A], 1, 2, 1, Some(DEVICE_A))
  const SECOND_RUNNING :=
    Quiet(Shown(Done, DEVICE_A, None, Some(1)), "second", DEVICE_A, "A", false, [DEVICE_A], 0, 2, 1, Some(DEVICE_A))
  const THIRD_STARTED :=
    Quiet(Shown(Inspecting, DEVICE_B, None, None), "third", DEVICE_B, "B", false, [DEVICE_A, DEVICE_B], 0, 3, 1,
          Some(DEVICE_A))
  const SECOND_SIGNED :=
    Quiet(Shown(ReadyToInstall, DEVICE_B, Some("2"), None), "third", DEVICE_B, "B", false, [DEVICE_B], 0, 3, 1,
          Some(DEVICE_A))

  lemma {:induction false} ReachedByRun(s: System, steps: seq<Step>, t: System) returns (states: seq<System>)
    requires Reaches(s, steps, t)
    ensures |states| == |steps| + 1 && states[0] == s && states[|steps|] == t
    ensures forall i {:trigger steps[i]} :: 0 <= i < |steps| ==>
              Enabled(states[i], steps[i]) && states[i + 1] == Next(states[i], steps[i])
    decreases |steps|
  {
    hide Enabled, Next;
    if steps == [] {
      states := [s];
    } else {
      var rest := ReachedByRun(Next(s, steps[0]), steps[1..], t);
      states := [s] + rest;
      forall i {:trigger steps[i]} | 0 <= i < |steps|
        ensures Enabled(states[i], steps[i]) && states[i + 1] == Next(states[i], steps[i])
      {
        if i > 0 {
          assert steps[1..][i - 1] == steps[i];
        }
      }
    }
  }

  lemma {:induction false} ReachesThrough(s: System, first: seq<Step>, t: System, second: seq<Step>, u: System)
    requires Reaches(s, first, t) && Reaches(t, second, u)
    ensures Reaches(s, first + second, u)
    decreases |first|
  {
    hide Enabled, Next;
    if first == [] {
      assert first + second == second;
    } else {
      assert (first + second)[1..] == first[1..] + second;
      ReachesThrough(Next(s, first[0]), first[1..], t, second, u);
    }
  }

  /** A message of a worker that goes on, on an empty channel. */
  lemma Hears(s: System, step: Step)
    requires Enabled(s, step) && s.channel == [] && (step.ResignSends? || step.InstallSends?)
    ensures Reaches(s, Told(step), s.(app := s.app.(state := Applied(s.app.state, step.event))))
  {
    var m := Message(step.event, if step.ResignSends? then Some(s.resigns[step.worker]) else None);
    var s1 := Next(s, step);
    hide Applied;
    assert s1 == s.(channel := [m]);
    var t := Next(s1, Deliver(false));
    assert t == s.(app := s.app.(state := Applied(s.app.state, step.event)));
    assert Reaches(s1, [Deliver(false)], t);
    assert Told(step)[1..] == [Deliver(false)];
  }

  /** The last message of the oldest re-sign. */
  lemma HearsSigned(s: System, e: Event)
    requires s.channel == [] && s.resigns != [] && e.Signed?
    ensures Reaches(s, Told(ResignEnds(0, e)),
                    s.(app := s.app.(state := Applied(s.app.state, e)), resigns := s.resigns[1..],
                       signedFor := Some(s.resigns[0])))
  {
    hide Applied;
    var s1 := Next(s, ResignEnds(0, e));
    assert s1 == s.(channel := [Message(e, Some(s.resigns[0]))], resigns := s.resigns[1..]);
    var t := Next(s1, Deliver(false));
    assert Reaches(s1, [Deliver(false)], t);
    assert Told(ResignEnds(0, e))[1..] == [Deliver(false)];
  }

  lemma HearsInstalled(s: System, e: Event)
    requires s.channel == [] && s.installs > 0 && e.Installed?
    ensures Reaches(s, Told(InstallEnds(e)),
                    s.(app := s.app.(state := Applied(s.app.state, e)), installs := s.installs - 1))
  {
    hide Applied;
    var s1 := Next(s, InstallEnds(e));
    assert s1 == s.(channel := [Message(e, None)], installs := s.installs - 1);
    var t := Next(s1, Deliver(false));
    assert Reaches(s1, [Deliver(false)], t);
    assert Told(InstallEnds(e))[1..] == [Deliver(false)];
  }

  lemma ScanStage()
    ensures Reaches(Initial(Some("A")), Told(ScanEnds(Devices([DEVICE_A, DEVICE_B]))), SCANNED)
  {
    assert ResolveSelected([DEVICE_A, DEVICE_B], None, Some("A")) == Some(DEVICE_A);
    var step := ScanEnds(Devices([DEVICE_A, DEVICE_B]));
    assert Next(Next(Initial(Some("A")), step), Deliver(false)) == SCANNED;
  }

  lemma OneStep(s: System, step: Step)
    requires Enabled(s, step)
    ensures Reaches(s, [step], Next(s, step))
  {
    hide Enabled, Next;
    assert [step][1..] == [];
  }

  const FIRST_STARTED := Quiet(Shown(Inspecting, DEVICE_A, None, None), "first", DEVICE_A, "A", false, [DEVICE_A], 0,
                               1, 0, None)

  lemma FirstStarts()
    ensures Reaches(SCANNED, [Start("first")], FIRST_STARTED)
  {
    assert Next(SCANNED, Start("first")) == FIRST_STARTED;
    OneStep(SCANNED, Start("first"));
  }

  const FIRST_SIGNING := Quiet(Shown(Signing, DEVICE_A, None, None), "first", DEVICE_A, "A", false, [DEVICE_A], 0, 1,
                               0, None)

  lemma FirstReports()
    ensures Reaches(FIRST_STARTED, Told(ResignSends(0, PhaseChanged(Inspecting))), FIRST_STARTED)
    ensures Reaches(FIRST_STARTED, Told(ResignSends(0, PhaseChanged(Signing))), FIRST_SIGNING)
  {
    hide Next, Reaches;
    Hears(FIRST_STARTED, ResignSends(0, PhaseChanged(Inspecting)));
    Hears(FIRST_STARTED, ResignSends(0, PhaseChanged(Signing)));
  }

  lemma FirstEnds()
    ensures Reaches(FIRST_SIGNING, Told(ResignEnds(0, Signed("1", "b", "m"))), FIRST_SIGNED)
  {
    hide Next, Reaches;
    HearsSigned(FIRST_SIGNING, Signed("1", "b", "m"));
    assert [DEVICE_A][1..] == [];
  }

  lemma FirstStage()
    ensures Reaches(SCANNED, FirstSteps()[2..], FIRST_SIGNED)
  {
    hide Enabled, Next, Reaches, Quiet, Shown;
    FirstStarts();
    FirstReports();
    FirstEnds();
    ReachesThrough(SCANNED, [Start("first")], FIRST_STARTED, Told(ResignSends(0, PhaseChanged(Inspecting))),
                   FIRST_STARTED);
    var steps := [Start("first")] + Told(ResignSends(0, PhaseChanged(Inspecting)));
    ReachesThrough(SCANNED, steps, FIRST_STARTED, Told(ResignSends(0, PhaseChanged(Signing))), FIRST_SIGNING);
    steps := steps + Told(ResignSends(0, PhaseChanged(Signing)));
    ReachesThrough(SCANNED, steps, FIRST_SIGNING, Told(ResignEnds(0, Signed("1", "b", "m"))), FIRST_SIGNED);
    assert FirstSteps()[2..] == steps + Told(ResignEnds(0, Signed("1", "b", "m")));
  }

  lemma SecondStarts()
    ensures Reaches(FIRST_SIGNED, SecondSteps()[..2], SECOND_STARTED)
  {
    var s1 := FIRST_SIGNED.(app := FIRST_SIGNED.app.(installStarted := true), installs := 1, installsStarted := 1);
    assert Next(FIRST_SIGNED, AutoInstall) == s1;
    assert Next(s1, Start("second")) == SECOND_STARTED;
    OneStep(FIRST_SIGNED, AutoInstall);
    OneStep(s1, Start("second"));
    hide Enabled, Next, Reaches;
    ReachesThrough(FIRST_SIGNED, [AutoInstall], s1, [Start("second")], SECOND_STARTED);
    assert SecondSteps()[..2] == [AutoInstall] + [Start("second")];
  }

  lemma SecondStage()
    ensures Reaches(SECOND_STARTED, SecondSteps()[2..], SECOND_RUNNING)
  {
    var s := SECOND_STARTED;
    var s2 := s.(app := s.app.(state := Shown(Installing, DEVICE_A, None, None)));
    Hears(s, ResignSends(0, PhaseChanged(Inspecting)));
    Hears(s, InstallSends(PhaseChanged(Installing)));
    HearsInstalled(s2, Installed(1));
    hide Enabled, Next, Reaches;
    var steps := Told(ResignSends(0, PhaseChanged(Inspecting)));
    ReachesThrough(s, steps, s, Told(InstallSends(PhaseChanged(Installing))), s2);
    steps := steps + Told(InstallSends(PhaseChanged(Installing)));
    ReachesThrough(s, steps, s2, Told(InstallEnds(Installed(1))), SECOND_RUNNING);
    assert SecondSteps()[2..] == steps + Told(InstallEnds(Installed(1)));
  }

  lemma ThirdStarts()
    ensures Reaches(SECOND_RUNNING, ThirdSteps()[..2], THIRD_STARTED)
  {
    assert FindDevice([DEVICE_A, DEVICE_B][1..], Some("B")) == Some(DEVICE_B);
    var app := SECOND_RUNNING.app.(remembered := Some("B"), state := Shown(Done, DEVICE_B, None, Some(1)));
    var s1 := SECOND_RUNNING.(app := app);
    assert Next(SECOND_RUNNING, Choose("B")) == s1;
    assert Next(s1, Start("third")) == THIRD_STARTED;
    OneStep(SECOND_RUNNING, Choose("B"));
    OneStep(s1, Start("third"));
    hide Enabled, Next, Reaches;
    ReachesThrough(SECOND_RUNNING, [Choose("B")], s1, [Start("third")], THIRD_STARTED);
    assert ThirdSteps()[..2] == [Choose("B")] + [Start("third")];
  }

  lemma ThirdStage()
    ensures Reaches(THIRD_STARTED, ThirdSteps()[2..], SECOND_SIGNED)
  {
    var s2 := THIRD_STARTED.(app := THIRD_STARTED.app.(state := Shown(Signing, DEVICE_B, None, None)));
    Hears(THIRD_STARTED, ResignSends(0, PhaseChanged(Signing)));
    HearsSigned(s2, Signed("2", "b", "m"));
    hide Enabled, Next, Reaches;
    ReachesThrough(THIRD_STARTED, Told(ResignSends(0, PhaseChanged(Signing))), s2,
                   Told(ResignEnds(0, Signed("2", "b", "m"))), SECOND_SIGNED);
    assert ThirdSteps()[2..]
           == Told(ResignSends(0, PhaseChanged(Signing))) + Told(ResignEnds(0, Signed("2", "b", "m")));
  }

  /** Not every start is safe: after this run the file signed for one device is due to be installed
      on another. */
  lemma InstallOnWrongDevice() returns (states: seq<System>)
    ensures IsRun(states, FirstSteps() + SecondSteps() + ThirdSteps(), Some("A"))
    ensures
      var s := states[|states| - 1];
      && WrongInstallDue(s) && s.signedFor == Some(DEVICE_A)
      && InstallStarted(s.app).1 == [SpawnInstall("2", "b", "m", DEVICE_B)]
  {
    ScanStage();
    FirstStage();
    SecondStarts();
    SecondStage();
    ThirdStarts();
    ThirdStage();
    hide Enabled, Next, Initial, Reaches;
    var s0 := Initial(Some("A"));
    assert FirstSteps() == Told(ScanEnds(Devices([DEVICE_A, DEVICE_B]))) + FirstSteps()[2..];
    ReachesThrough(s0, Told(ScanEnds(Devices([DEVICE_A, DEVICE_B]))), SCANNED, FirstSteps()[2..], FIRST_SIGNED);
    assert SecondSteps() == SecondSteps()[..2] + SecondSteps()[2..];
    assert ThirdSteps() == ThirdSteps()[..2] + ThirdSteps()[2..];
    ReachesThrough(FIRST_SIGNED, SecondSteps()[..2], SECOND_STARTED, SecondSteps()[2..], SECOND_RUNNING);
    ReachesThrough(SECOND_RUNNING, ThirdSteps()[..2], THIRD_STARTED, ThirdSteps()[2..], SECOND_SIGNED);
    hide FirstSteps, SecondSteps, ThirdSteps;
    ReachesThrough(s0, FirstSteps(), FIRST_SIGNED, SecondSteps(), SECOND_RUNNING);
    ReachesThrough(s0, FirstSteps() + SecondSteps(), SECOND_RUNNING, ThirdSteps(), SECOND_SIGNED);
    states := ReachedByRun(s0, FirstSteps() + SecondSteps() + ThirdSteps(), SECOND_SIGNED);
  }
}
