/** The owner of the gadget (src/otg/service.rs): it holds a desired state and reconciles the gadget
    with it, step by step, any of which may fail. Calls do not overlap. */
module OtgService {
  import opened Prelude
  import OtgEndpoint
  import opened OtgManager
  import opened OtgConfig

  /** How the steps outside this program turn out during one call. */
  datatype Outcome = Outcome(configFsMounted: bool, setupWorks: bool, bindWorks: bool)

  datatype Error = NotMounted | NoUdc | AddFailed(kind: Kind) | SetupFailed | BindFailed | BadConfig(cause: ConfigError)

  datatype HidDevicePaths = HidDevicePaths(
    keyboard: Option<Path>, mouseRelative: Option<Path>, mouseAbsolute: Option<Path>, consumer: Option<Path>,
    udc: Option<string>, keyboardLedsEnabled: bool)
  {
    function ExistingPaths(): seq<Path> {
      Listed(keyboard) + Listed(mouseRelative) + Listed(mouseAbsolute) + Listed(consumer)
    }
  }

  function Listed(path: Option<Path>): seq<Path> {
    if path.Some? then [path.value] else []
  }

  datatype OtgServiceState = OtgServiceState(
    gadgetActive: bool, hidEnabled: bool, msdEnabled: bool, configuredUdc: Option<string>,
    hidPaths: Option<HidDevicePaths>, hidFunctions: Option<OtgHidFunctions>, keyboardLedsEnabled: bool,
    maxEndpoints: Byte, descriptor: Option<Descriptor>, error: Option<Error>)

  const DEFAULT_STATE := OtgServiceState(false, false, false, None, None, None, false, 0, None, None)

  const CLEARED_STATE := DEFAULT_STATE.(maxEndpoints := OtgEndpoint.DEFAULT_MAX_ENDPOINTS)

  const DEFAULT_DESCRIPTOR := Descriptor(0x1d6b, 0x0104, "One-KVM", "One-KVM USB Device", "0123456789")

  const DEFAULT_DESIRED := OtgDesiredState(None, DEFAULT_DESCRIPTOR, None, false, false, OtgEndpoint.DEFAULT_MAX_ENDPOINTS)

  predicate WantsGadget(d: OtgDesiredState) {
    d.hidFunctions.Some? || d.msdEnabled
  }

  function One(on: bool): nat {
    if on then 1 else 0
  }

  /** The device paths of the enabled functions. */
  function PathsFor(f: OtgHidFunctions, udc: string, leds: bool): HidDevicePaths {
    HidDevicePaths(
      if f.keyboard then Some(HidG(0)) else None,
      if f.mouseRelative then Some(HidG(One(f.keyboard))) else None,
      if f.mouseAbsolute then Some(HidG(One(f.keyboard) + One(f.mouseRelative))) else None,
      if f.consumer then Some(HidG(One(f.keyboard) + One(f.mouseRelative) + One(f.mouseAbsolute))) else None,
      Some(udc), leds)
  }

  /** Paths exist for exactly the enabled functions, numbered from 0 without a hole. */
  lemma PathsAreConsecutive(f: OtgHidFunctions, udc: string, leds: bool)
    ensures var paths := PathsFor(f, udc, leds);
            && |paths.ExistingPaths()| == |HidKinds(f, leds)|
            && (forall i :: 0 <= i < |paths.ExistingPaths()| ==> paths.ExistingPaths()[i].n == i)
            && paths.keyboard.Some? == f.keyboard && paths.mouseRelative.Some? == f.mouseRelative
            && paths.mouseAbsolute.Some? == f.mouseAbsolute && paths.consumer.Some? == f.consumer
  {
  }

  /** What is recorded while a gadget for a desired state is active. */
  function ActiveState(d: OtgDesiredState): OtgServiceState
    requires d.udc.Some?
  {
    OtgServiceState(
      true, d.hidFunctions.Some?, d.msdEnabled, d.udc,
      if d.hidFunctions.Some? then Some(PathsFor(d.hidFunctions.value, d.udc.value, d.keyboardLeds)) else None,
      d.hidFunctions, d.keyboardLeds, d.maxEndpoints, Some(d.descriptor), None)
  }

  predicate Matches(state: OtgServiceState, d: OtgDesiredState) {
    && state.gadgetActive
    && state.hidEnabled == d.hidFunctions.Some?
    && state.msdEnabled == d.msdEnabled
    && state.configuredUdc == d.udc
    && state.hidFunctions == d.hidFunctions
    && state.keyboardLedsEnabled == d.keyboardLeds
    && state.maxEndpoints == d.maxEndpoints
    && state.descriptor == Some(d.descriptor)
  }

  /** The first kind that does not fit after `used` endpoints. */
  function FirstUnfit(max: Byte, used: nat, kinds: seq<Kind>): Option<Kind>
    decreases |kinds|
  {
    if kinds == [] then None
    else if used + EndpointsRequired(kinds[0]) > max then Some(kinds[0])
    else FirstUnfit(max, used + EndpointsRequired(kinds[0]), kinds[1..])
  }

  /** Why a gadget for a desired state cannot be brought up, if it cannot. */
  function Obstacle(d: OtgDesiredState, o: Outcome): Option<Error> {
    if !o.configFsMounted then Some(NotMounted)
    else if d.udc.None? then Some(NoUdc)
    else match FirstUnfit(d.maxEndpoints, 0, WantedKinds(d))
      case Some(kind) => Some(AddFailed(kind))
      case None =>
        if !o.setupWorks then Some(SetupFailed) else if !o.bindWorks then Some(BindFailed) else None
  }

  /** What of a failure is recorded: all but a missing UDC. */
  function Recorded(error: Error): Option<Error> {
    if error.NoUdc? then None else Some(error)
  }

  /* ---- The outcome, in terms of the steps ---- */

  /** The functions wanted fit into the limit. */
  predicate AllFit(d: OtgDesiredState) {
    Cost(WantedKinds(d)) <= d.maxEndpoints
  }

  /** Every step of bringing up the gadget succeeds. */
  predicate BringsUp(d: OtgDesiredState, o: Outcome) {
    && (d.hidFunctions.Some? || d.msdEnabled)
    && o.configFsMounted && d.udc.Some? && AllFit(d) && o.setupWorks && o.bindWorks
  }

  /** The error is that of the first step that fails, and there is none if nothing is wanted. */
  ghost predicate FirstFailure(d: OtgDesiredState, o: Outcome, error: Option<Error>) {
    if d.hidFunctions.None? && !d.msdEnabled then error == None
    else if !o.configFsMounted then error == Some(NotMounted)
    else if d.udc.None? then error == Some(NoUdc)
    else if !AllFit(d) then error.Some? && error.value.AddFailed? && IsFirstUnfit(d.maxEndpoints, WantedKinds(d), error.value.kind)
    else if !o.setupWorks then error == Some(SetupFailed)
    else if !o.bindWorks then error == Some(BindFailed)
    else error == None
  }

  /** The kinds before it fit, and with it they do not. */
  ghost predicate IsFirstUnfit(max: Byte, kinds: seq<Kind>, kind: Kind) {
    exists i :: 0 <= i < |kinds| && kinds[i] == kind && Cost(kinds[..i]) <= max < Cost(kinds[..i + 1])
  }

  /** The record of an active gadget. */
  predicate Records(state: OtgServiceState, d: OtgDesiredState) {
    && state.gadgetActive && state.error == None
    && state.hidEnabled == d.hidFunctions.Some? && state.msdEnabled == d.msdEnabled
    && state.configuredUdc == d.udc && state.hidFunctions == d.hidFunctions
    && state.keyboardLedsEnabled == d.keyboardLeds && state.maxEndpoints == d.maxEndpoints
    && state.descriptor == Some(d.descriptor)
    && (state.hidPaths.Some? <==> d.hidFunctions.Some?)
    && (d.hidFunctions.Some? ==> HasPaths(state.hidPaths.value, d.hidFunctions.value, d.udc, d.keyboardLeds))
  }

  /** Paths for exactly the enabled functions, numbered from 0 without a hole. */
  predicate HasPaths(paths: HidDevicePaths, f: OtgHidFunctions, udc: Option<string>, leds: bool) {
    && paths.udc == udc && paths.keyboardLedsEnabled == leds
    && paths.keyboard.Some? == f.keyboard && paths.mouseRelative.Some? == f.mouseRelative
    && paths.mouseAbsolute.Some? == f.mouseAbsolute && paths.consumer.Some? == f.consumer
    && forall i :: 0 <= i < |paths.ExistingPaths()| ==> paths.ExistingPaths()[i].n == i
  }

  /** The record without a gadget, its error apart. */
  predicate RecordsNone(state: OtgServiceState) {
    && !state.gadgetActive && !state.hidEnabled && !state.msdEnabled && state.configuredUdc == None
    && state.hidPaths == None && state.hidFunctions == None && !state.keyboardLedsEnabled && state.descriptor == None
  }

  lemma {:induction false} FirstUnfitIs(max: Byte, used: nat, kinds: seq<Kind>) returns (i: nat)
    requires used <= max && FirstUnfit(max, used, kinds).Some?
    ensures i < |kinds| && FirstUnfit(max, used, kinds) == Some(kinds[i])
    ensures used + Cost(kinds[..i]) <= max < used + Cost(kinds[..i + 1])
    decreases |kinds|
  {
    CostFirst(kinds);
    if used + EndpointsRequired(kinds[0]) > max {
      i := 0;
    } else {
      var later := kinds[1..];
      var k := FirstUnfitIs(max, used + EndpointsRequired(kinds[0]), later);
      i := k + 1;
      assert kinds[..i][1..] == later[..k] && kinds[..i + 1][1..] == later[..k + 1];
      CostCons(kinds[..i]);
      CostCons(kinds[..i + 1]);
    }
  }

  lemma CostFirst(kinds: seq<Kind>)
    requires kinds != []
    ensures Cost(kinds[..0]) == 0 && Cost(kinds[..1]) == EndpointsRequired(kinds[0])
  {
    assert kinds[..1][..0] == [];
  }

  lemma UnfitIs(d: OtgDesiredState)
    ensures var unfit := FirstUnfit(d.maxEndpoints, 0, WantedKinds(d));
            && (unfit == None <==> AllFit(d))
            && (unfit.Some? ==> IsFirstUnfit(d.maxEndpoints, WantedKinds(d), unfit.value))
  {
    var kinds := WantedKinds(d);
    hide WantedKinds, FirstUnfit, Cost;
    FirstUnfitIff(d.maxEndpoints, 0, kinds);
    if FirstUnfit(d.maxEndpoints, 0, kinds).Some? {
      var i := FirstUnfitIs(d.maxEndpoints, 0, kinds);
    }
  }

  lemma ObstacleIs(d: OtgDesiredState, o: Outcome)
    ensures FirstFailure(d, o, if WantsGadget(d) then Obstacle(d, o) else None)
    ensures Comes(d, o) <==> BringsUp(d, o)
  {
    hide WantedKinds, FirstUnfit, AllFit, IsFirstUnfit;
    UnfitIs(d);
  }

  lemma ActiveRecords(d: OtgDesiredState)
    requires d.udc.Some?
    ensures Records(ActiveState(d), d)
  {
    if d.hidFunctions.Some? {
      PathsAreConsecutive(d.hidFunctions.value, d.udc.value, d.keyboardLeds);
      hide PathsFor;
    }
  }

  class OtgService {
    var manager: OtgGadgetManager?
    var state: OtgServiceState
    var msdFunction: Option<GadgetFunction>
    var desired: OtgDesiredState

    /** A gadget is active exactly when a manager is held. Then that manager has exactly the desired
        functions, the record is that of the desired state and there is a handle for mass storage
        exactly if it is wanted; otherwise all of these are cleared. */
    ghost predicate Valid()
      reads this, manager, if manager != null then {manager.allocator} else {}
    {
      && (state.gadgetActive <==> manager != null)
      && (manager != null ==>
            && manager.Valid() && manager.allocator.maxEndpoints == desired.maxEndpoints
            && Kinds(manager.functions) == WantedKinds(desired)
            && WantsGadget(desired) && desired.udc.Some? && state == ActiveState(desired)
            && msdFunction == if desired.msdEnabled then Some(GadgetFunction(MassStorage, 0)) else None)
      && (manager == null ==>
            && msdFunction == None
            && state.(error := None) in {DEFAULT_STATE, CLEARED_STATE})
    }

    /** What an active gadget was brought up for. */
    ghost function Active(): Option<OtgDesiredState>
      reads this
    {
      if state.gadgetActive then Some(desired) else None
    }

    constructor ()
      ensures Valid() && Active() == None
    {
      manager, state, msdFunction, desired := null, DEFAULT_STATE, None, DEFAULT_DESIRED;
    }

    /** A state that is refused changes nothing; any other is applied. */
    method ApplyConfig(hid: HidConfig, udc: Option<string>, msdEnabled: bool, o: Outcome) returns (error: Option<Error>)
      requires Valid()
      modifies this
      ensures Valid()
      ensures match FromConfig(hid, udc, msdEnabled)
              case Err(e) => error == Some(BadConfig(e)) && Active() == old(Active())
                             && manager == old(manager) && state == old(state) && desired == old(desired)
              case Ok(d) => desired == d && Active() == After(old(Active()), Apply(d, o))
                            && (error.Some? ==> error.value in {NotMounted, NoUdc, SetupFailed, BindFailed})
    {
      match FromConfig(hid, udc, msdEnabled)
      case Err(e) => error := Some(BadConfig(e));
      case Ok(d) =>
        ValidatedIsRegistered(hid, udc, msdEnabled);
        FitsIff(d);
        error := ApplyDesiredState(d, o);
    }

    /** Nothing is touched if the gadget is already the one desired. Otherwise the old one goes, and a
        new one comes if one is wanted and no step fails. */
    method ApplyDesiredState(d: OtgDesiredState, o: Outcome) returns (error: Option<Error>)
      requires Valid()
      modifies this
      ensures Valid() && desired == d
      ensures Active() == After(old(Active()), Apply(d, o))
      ensures manager != null ==> Records(state, d)
      ensures manager == null ==> RecordsNone(state)
      ensures old(Active()) == Some(d) ==>
                error == None && manager == old(manager) && state == old(state) && msdFunction == old(msdFunction)
      ensures old(Active()) != Some(d) ==>
                && FirstFailure(d, o, error) && (manager != null <==> BringsUp(d, o))
                && error == (if WantsGadget(d) then Obstacle(d, o) else None)
                && (manager != null ==> fresh(manager))
                && (Active() == None ==> state == CLEARED_STATE.(error := if error.Some? then Recorded(error.value) else None))
    {
      var active := desired;
      desired := d;
      if Matches(state, d) {
        assert active == d;
        ActiveRecords(d);
        return None;
      }
      assert old(Active()) != Some(d);
      error := ReconcileGadget(o);
    }

    method ReconcileGadget(o: Outcome) returns (error: Option<Error>)
      modifies this
      ensures Valid() && desired == old(desired)
      ensures error == if WantsGadget(desired) then Obstacle(desired, o) else None
      ensures manager != null <==> BringsUp(desired, o)
      ensures FirstFailure(desired, o, error)
      ensures manager != null <==> WantsGadget(desired) && error == None
      ensures manager != null ==> fresh(manager) && Records(state, desired)
      ensures manager == null ==> RecordsNone(state) && state.error == (if error == Some(NoUdc) then None else error)
      ensures manager == null ==> state == CLEARED_STATE.(error := if error.Some? then Recorded(error.value) else None)
    {
      hide Cost, Count, HidKinds, PathsFor, Kinds, FirstUnfit, Progress, FirstFailure, BringsUp, Records, OtgGadgetManager.Valid;
      ObstacleIs(desired, o);
      if desired.udc.Some? {
        ActiveRecords(desired);
      }
      manager := null;
      msdFunction := None;
      state := CLEARED_STATE;
      if desired.hidFunctions.None? && !desired.msdEnabled {
        return None;
      }
      if !o.configFsMounted {
        state := state.(error := Some(NotMounted));
        return Some(NotMounted);
      }
      if desired.udc.None? {
        return Some(NoUdc);
      }
      var udc := desired.udc.value;
      var m := new OtgGadgetManager(desired.maxEndpoints);
      var hidPaths: Option<HidDevicePaths> := None;
      ghost var hid, later, all := [], If(desired.msdEnabled, MassStorage), WantedKinds(desired);
      ProgressStarts(m.functions, desired.maxEndpoints, all);
      if desired.hidFunctions.Some? {
        hid := HidKinds(desired.hidFunctions.value, desired.keyboardLeds);
        var failed, paths := AddHidFunctions(m, desired.hidFunctions.value, udc, desired.keyboardLeds, later);
        if failed.Some? {
          state := state.(error := failed);
          return failed;
        }
        hidPaths := Some(paths);
      }
      assert [] + later == later;
      assert all == hid + later;
      assert Progress(m.functions, desired.maxEndpoints, hid, later, all);
      var msd: Option<GadgetFunction> := None;
      if desired.msdEnabled {
        ghost var before := m.functions;
        assert [MassStorage] + [] == [MassStorage];
        msd := m.AddMsd();
        AddStep(before, desired.maxEndpoints, hid, MassStorage, [], all);
        if msd.None? {
          state := state.(error := Some(AddFailed(MassStorage)));
          return Some(AddFailed(MassStorage));
        }
      }
      assert hid + [] == hid;
      AllBuilt(m.functions, desired.maxEndpoints, all);
      if !o.setupWorks {
        state := state.(error := Some(SetupFailed));
        return Some(SetupFailed);
      }
      if !o.bindWorks {
        state := state.(error := Some(BindFailed));
        return Some(BindFailed);
      }
      manager := m;
      msdFunction := msd;
      state := OtgServiceState(
        true, desired.hidFunctions.Some?, desired.msdEnabled, Some(udc), hidPaths, desired.hidFunctions,
        desired.keyboardLeds, desired.maxEndpoints, Some(desired.descriptor), None);
      error := None;
    }

    method Shutdown()
      requires Valid()
      modifies this
      ensures Valid() && Active() == None
      ensures desired == DEFAULT_DESIRED && state == DEFAULT_STATE && manager == null && msdFunction == None
    {
      desired := DEFAULT_DESIRED;
      manager := null;
      msdFunction := None;
      state := DEFAULT_STATE;
    }
  }

  /** Adds the selected HID functions in turn, up to the first that does not fit. */
  method AddHidFunctions(m: OtgGadgetManager, f: OtgHidFunctions, udc: string, leds: bool, ghost later: seq<Kind>)
    returns (failed: Option<Error>, paths: HidDevicePaths)
    requires m.Valid() && m.functions == []
    modifies m, m.allocator
    ensures m.Valid()
    ensures failed.Some? ==>
              && failed.value.AddFailed?
              && FirstUnfit(m.allocator.maxEndpoints, 0, HidKinds(f, leds) + later) == Some(failed.value.kind)
    ensures failed.None? ==>
              && paths == PathsFor(f, udc, leds)
              && Progress(m.functions, m.allocator.maxEndpoints, HidKinds(f, leds), later, HidKinds(f, leds) + later)
  {
    hide Cost, Count, Kinds, FirstUnfit, Progress, OtgGadgetManager.Valid, HidKinds, If;
    var max := m.allocator.maxEndpoints;
    paths := HidDevicePaths(None, None, None, None, Some(udc), leds);
    ghost var all, before := HidKinds(f, leds) + later, m.functions;
    ghost var k4 := later;
    ghost var k3 := Before(f.consumer, ConsumerControl, k4);
    ghost var k2 := Before(f.mouseAbsolute, MouseAbsolute, k3);
    ghost var k1 := Before(f.mouseRelative, MouseRelative, k2);
    ghost var done: seq<Kind> := [];
    InTurnBefore(f, leds, later);
    ProgressStarts(m.functions, max, all);
    if f.keyboard {
      var path := m.AddKeyboard(leds);
      AddStep(before, max, done, Keyboard(leds), k1, all);
      if path.None? {
        return Some(AddFailed(Keyboard(leds))), paths;
      }
      paths := paths.(keyboard := path);
    }
    done := Then(done, f.keyboard, Keyboard(leds));
    assert Progress(m.functions, max, done, k1, all) && |done| == One(f.keyboard);
    before := m.functions;
    if f.mouseRelative {
      var path := m.AddMouseRelative();
      AddStep(before, max, done, MouseRelative, k2, all);
      if path.None? {
        return Some(AddFailed(MouseRelative)), paths;
      }
      paths := paths.(mouseRelative := path);
    }
    done := Then(done, f.mouseRelative, MouseRelative);
    assert Progress(m.functions, max, done, k2, all) && |done| == One(f.keyboard) + One(f.mouseRelative);
    before := m.functions;
    if f.mouseAbsolute {
      var path := m.AddMouseAbsolute();
      AddStep(before, max, done, MouseAbsolute, k3, all);
      if path.None? {
        return Some(AddFailed(MouseAbsolute)), paths;
      }
      paths := paths.(mouseAbsolute := path);
    }
    done := Then(done, f.mouseAbsolute, MouseAbsolute);
    assert Progress(m.functions, max, done, k3, all)
           && |done| == One(f.keyboard) + One(f.mouseRelative) + One(f.mouseAbsolute);
    before := m.functions;
    if f.consumer {
      var path := m.AddConsumerControl();
      AddStep(before, max, done, ConsumerControl, k4, all);
      if path.None? {
        return Some(AddFailed(ConsumerControl)), paths;
      }
      paths := paths.(consumer := path);
    }
    done := Then(done, f.consumer, ConsumerControl);
    InTurn(f, leds);
    failed := None;
  }

  function Then(kinds: seq<Kind>, on: bool, kind: Kind): seq<Kind> {
    if on then kinds + [kind] else kinds
  }

  lemma InTurn(f: OtgHidFunctions, leds: bool)
    ensures Then(Then(Then(Then([], f.keyboard, Keyboard(leds)), f.mouseRelative, MouseRelative),
                      f.mouseAbsolute, MouseAbsolute), f.consumer, ConsumerControl) == HidKinds(f, leds)
  {
  }

  lemma InTurnBefore(f: OtgHidFunctions, leds: bool, later: seq<Kind>)
    ensures Before(f.keyboard, Keyboard(leds), Before(f.mouseRelative, MouseRelative,
            Before(f.mouseAbsolute, MouseAbsolute, Before(f.consumer, ConsumerControl, later)))) == HidKinds(f, leds) + later
  {
  }

  function Before(on: bool, kind: Kind, kinds: seq<Kind>): seq<Kind> {
    if on then [kind] + kinds else kinds
  }

  /** Of all kinds wanted, some are done, without mass storage, and the rest decides what will not fit. */
  ghost predicate Progress(functions: seq<GadgetFunction>, max: Byte, done: seq<Kind>, rest: seq<Kind>, all: seq<Kind>) {
    && Kinds(functions) == done
    && (rest != [] ==> Count(done, false) == |done| && Count(done, true) == 0)
    && FirstUnfit(max, 0, all) == FirstUnfit(max, Cost(done), rest)
  }

  lemma ProgressStarts(functions: seq<GadgetFunction>, max: Byte, all: seq<Kind>)
    requires functions == []
    ensures Progress(functions, max, [], all, all)
  {
    assert Kinds(functions) == [];
  }

  /** The next kind of those wanted is turned down or takes its place after the ones done. */
  lemma AddStep(before: seq<GadgetFunction>, max: Byte, done: seq<Kind>, kind: Kind, rest: seq<Kind>, all: seq<Kind>)
    requires Progress(before, max, done, [kind] + rest, all) && (kind.MassStorage? ==> rest == [])
    ensures Count(Kinds(before), false) == |done| && Count(Kinds(before), true) == 0
    ensures if Cost(Kinds(before)) + EndpointsRequired(kind) > max then FirstUnfit(max, 0, all) == Some(kind)
            else forall n: Byte :: Progress(before + [GadgetFunction(kind, n)], max, done + [kind], rest, all)
  {
    assert ([kind] + rest)[1..] == rest;
    Snoc(done, kind);
    hide Cost, Count;
    forall n: Byte ensures Kinds(before + [GadgetFunction(kind, n)]) == done + [kind] {
      KindsSnoc(before, GadgetFunction(kind, n));
    }
    hide Kinds;
  }

  lemma AllBuilt(functions: seq<GadgetFunction>, max: Byte, all: seq<Kind>)
    requires Progress(functions, max, all, [], all)
    ensures Kinds(functions) == all && FirstUnfit(max, 0, all) == None
  {
  }

  lemma {:induction false} CostCons(kinds: seq<Kind>)
    requires kinds != []
    ensures Cost(kinds) == EndpointsRequired(kinds[0]) + Cost(kinds[1..])
    decreases |kinds|
  {
    var last := |kinds| - 1;
    if last == 0 {
      assert kinds[1..] == [] && kinds[..0] == [];
    } else {
      assert kinds[..last][1..] == kinds[1..][..last - 1];
      CostCons(kinds[..last]);
    }
  }

  lemma {:induction false} FirstUnfitIff(max: Byte, used: nat, kinds: seq<Kind>)
    requires used <= max
    ensures FirstUnfit(max, used, kinds) == None <==> used + Cost(kinds) <= max
    decreases |kinds|
  {
    if kinds != [] {
      CostCons(kinds);
      hide Cost;
      if used + EndpointsRequired(kinds[0]) <= max {
        FirstUnfitIff(max, used + EndpointsRequired(kinds[0]), kinds[1..]);
      }
    }
  }

  lemma FitsIff(d: OtgDesiredState)
    ensures FirstUnfit(d.maxEndpoints, 0, WantedKinds(d)) == None
            <==> Kinds(AddAll(d.maxEndpoints, WantedKinds(d))) == WantedKinds(d)
  {
    FirstUnfitIff(d.maxEndpoints, 0, WantedKinds(d));
    AllAddedIff(d.maxEndpoints, WantedKinds(d));
  }

  /* ---- Whole runs ---- */

  datatype Op = Apply(d: OtgDesiredState, o: Outcome) | Shutdown

  /** The desired state whose gadget is active, from the one before. */
  function After(active: Option<OtgDesiredState>, op: Op): Option<OtgDesiredState> {
    match op
    case Shutdown => None
    case Apply(d, o) =>
      if active == Some(d) then active else if Comes(d, o) then Some(d) else None
  }

  predicate Comes(d: OtgDesiredState, o: Outcome) {
    WantsGadget(d) && Obstacle(d, o) == None
  }

  function AfterRun(ops: seq<Op>): Option<OtgDesiredState> {
    if ops == [] then None else After(AfterRun(ops[..|ops| - 1]), ops[|ops| - 1])
  }

  method Serve(ops: seq<Op>) returns (service: OtgService)
    ensures fresh(service) && service.Valid() && service.Active() == AfterRun(ops)
  {
    service := new OtgService();
    for i := 0 to |ops|
      invariant fresh(service) && service.Valid() && service.Active() == AfterRun(ops[..i])
    {
      hide Obstacle, Matches, ActiveState;
      assert ops[..i + 1][..i] == ops[..i];
      match ops[i] {
        case Apply(d, o) => var _ := service.ApplyDesiredState(d, o);
        case Shutdown => service.Shutdown();
      }
    }
    assert ops[..|ops|] == ops;
  }

  /** Operation i brings up a gadget for d and every later one asks for d again. */
  ghost predicate Held(ops: seq<Op>, d: OtgDesiredState, i: nat) {
    && i < |ops| && ops[i].Apply? && ops[i].d == d && BringsUp(d, ops[i].o)
    && forall j :: i < j < |ops| ==> ops[j].Apply? && ops[j].d == d
  }

  ghost predicate SomeHeld(ops: seq<Op>, d: OtgDesiredState) {
    exists i: nat :: Held(ops, d, i)
  }

  lemma HeldStep(ops: seq<Op>, d: OtgDesiredState)
    requires ops != []
    ensures var op := ops[|ops| - 1];
            SomeHeld(ops, d) <==>
            op.Apply? && op.d == d && (BringsUp(d, op.o) || SomeHeld(ops[..|ops| - 1], d))
  {
    hide BringsUp;
    var last := |ops| - 1;
    var before := ops[..last];
    forall i: nat | i < last ensures Held(ops, d, i) <==> Held(before, d, i) && ops[last].Apply? && ops[last].d == d {
      HeldLonger(ops, d, i);
    }
    if i: nat :| Held(before, d, i) {
      assert Held(ops, d, i) <==> ops[last].Apply? && ops[last].d == d;
    }
    assert Held(ops, d, last) <==> ops[last].Apply? && ops[last].d == d && BringsUp(d, ops[last].o);
  }

  lemma HeldLonger(ops: seq<Op>, d: OtgDesiredState, i: nat)
    requires i < |ops| - 1
    ensures Held(ops, d, i) <==>
            Held(ops[..|ops| - 1], d, i) && ops[|ops| - 1].Apply? && ops[|ops| - 1].d == d
  {
    hide BringsUp;
    assert forall j :: 0 <= j < |ops| - 1 ==> ops[..|ops| - 1][j] == ops[j];
  }

  /** After any run, whatever failed in it, the gadget of a desired state is active if and only if some
      operation brought it up and all later ones asked for the same, even those whose steps would fail. */
  lemma {:induction false} ActiveIffHeld(ops: seq<Op>, d: OtgDesiredState)
    ensures AfterRun(ops) == Some(d) <==> SomeHeld(ops, d)
    decreases |ops|
  {
    if ops != [] {
      var before, op := ops[..|ops| - 1], ops[|ops| - 1];
      ActiveIffHeld(before, d);
      HeldStep(ops, d);
      assert AfterRun(ops) == After(AfterRun(before), op);
      hide BringsUp, FirstFailure, AfterRun, SomeHeld, WantsGadget, Obstacle;
      if op.Apply? {
        ObstacleIs(op.d, op.o);
      }
    }
  }
}
