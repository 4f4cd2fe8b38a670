/** What the configuration asks of the gadget and the endpoint budget it must keep
    (src/config/schema.rs, and `from_config` of src/otg/service.rs). The name that the UDC resolves to
    is a parameter; it comes from the file system. */
module OtgConfig {
  import opened Prelude
  import OtgEndpoint
  import opened OtgManager

  datatype OtgHidFunctions = OtgHidFunctions(keyboard: bool, mouseRelative: bool, mouseAbsolute: bool, consumer: bool)
  {
    predicate IsEmpty() {
      !keyboard && !mouseRelative && !mouseAbsolute && !consumer
    }

    /** The budgeted cost: one endpoint a function, and one more for the LEDs of the keyboard. */
    function EndpointCost(keyboardLeds: bool): nat {
      (if keyboard then if keyboardLeds then 2 else 1 else 0)
      + (if mouseRelative then 1 else 0) + (if mouseAbsolute then 1 else 0) + (if consumer then 1 else 0)
    }
  }

  datatype OtgHidProfile = Full | FullNoConsumer | LegacyKeyboard | LegacyMouseRelative | Custom

  function ResolveFunctions(profile: OtgHidProfile, custom: OtgHidFunctions): OtgHidFunctions {
    match profile
    case Full => OtgHidFunctions(true, true, true, true)
    case FullNoConsumer => OtgHidFunctions(true, true, true, false)
    case LegacyKeyboard => OtgHidFunctions(true, false, false, false)
    case LegacyMouseRelative => OtgHidFunctions(false, true, false, false)
    case Custom => custom
  }

  datatype OtgEndpointBudget = Auto | Five | Six | Unlimited

  function ToAsciiLowercase(c: char): char {
    if 'A' <= c <= 'Z' then c - 'A' + 'a' else c
  }

  predicate Contains(s: string, part: string) {
    part <= s || (s != [] && Contains(s[1..], part))
  }

  predicate IsLowEndpointUdc(name: string) {
    var lower := seq(|name|, i requires 0 <= i < |name| => ToAsciiLowercase(name[i]));
    Contains(lower, "musb") || Contains(lower, "musb-hdrc")
  }

  function EndpointLimit(budget: OtgEndpointBudget, udc: Option<string>): Option<Byte> {
    match budget
    case Auto => if udc.Some? && IsLowEndpointUdc(udc.value) then Some(5) else Some(6)
    case Five => Some(5)
    case Six => Some(6)
    case Unlimited => None
  }

  datatype HidBackend = Otg | Ch9329 | NoBackend

  datatype Descriptor = Descriptor(vendorId: nat, productId: nat, manufacturer: string, product: string, serialNumber: string)

  datatype HidConfig = HidConfig(
    backend: HidBackend, descriptor: Descriptor, profile: OtgHidProfile, budget: OtgEndpointBudget,
    functions: OtgHidFunctions, keyboardLeds: bool)
  {
    function EffectiveFunctions(): OtgHidFunctions {
      ResolveFunctions(profile, functions)
    }

    predicate EffectiveKeyboardLeds() {
      keyboardLeds && EffectiveFunctions().keyboard
    }

    function RequiredEndpoints(msdEnabled: bool): nat {
      EffectiveFunctions().EndpointCost(EffectiveKeyboardLeds()) + if msdEnabled then 2 else 0
    }
  }

  datatype ConfigError = NoFunctions | OverBudget(required: nat, limit: Byte)

  function ValidateOtgEndpointBudget(hid: HidConfig, udc: Option<string>, msdEnabled: bool): Option<ConfigError> {
    if hid.backend != Otg then None
    else if hid.EffectiveFunctions().IsEmpty() then Some(NoFunctions)
    else
      var required := hid.RequiredEndpoints(msdEnabled);
      match EndpointLimit(hid.budget, udc)
      case Some(limit) => if required > limit then Some(OverBudget(required, limit)) else None
      case None => None
  }

  datatype OtgDesiredState = OtgDesiredState(
    udc: Option<string>, descriptor: Descriptor, hidFunctions: Option<OtgHidFunctions>,
    keyboardLeds: bool, msdEnabled: bool, maxEndpoints: Byte)

  function FromConfig(hid: HidConfig, udc: Option<string>, msdEnabled: bool): Result<OtgDesiredState, ConfigError> {
    match ValidateOtgEndpointBudget(hid, udc, msdEnabled)
    case Some(error) => Err(error)
    case None => Ok(Desired(hid, udc, msdEnabled))
  }

  function Desired(hid: HidConfig, udc: Option<string>, msdEnabled: bool): OtgDesiredState {
    OtgDesiredState(
      udc, hid.descriptor, if hid.backend == Otg then Some(hid.EffectiveFunctions()) else None,
      hid.EffectiveKeyboardLeds(), msdEnabled,
      match EndpointLimit(hid.budget, udc) case Some(limit) => limit case None => OtgEndpoint.DEFAULT_MAX_ENDPOINTS)
  }

  /* ---- What a configuration means ---- */

  predicate IsCase(c: char, lower: char, upper: char) {
    c == lower || c == upper
  }

  /** The four letters stand at a place in the name, in either case. */
  predicate MusbAt(name: string, i: nat) {
    && i + 4 <= |name| && IsCase(name[i], 'm', 'M') && IsCase(name[i + 1], 'u', 'U')
    && IsCase(name[i + 2], 's', 'S') && IsCase(name[i + 3], 'b', 'B')
  }

  ghost predicate NamesMusb(udc: Option<string>) {
    udc.Some? && exists i: nat :: MusbAt(udc.value, i)
  }

  predicate PartAt(s: string, part: string, i: nat) {
    i + |part| <= |s| && s[i..i + |part|] == part
  }

  lemma {:induction false} ContainsIff(s: string, part: string)
    ensures Contains(s, part) <==> exists i: nat :: PartAt(s, part, i)
  {
    if part <= s {
      assert PartAt(s, part, 0);
    } else if s != [] {
      ContainsIff(s[1..], part);
      if i: nat :| PartAt(s[1..], part, i) {
        assert PartAt(s, part, i + 1);
      }
      if i: nat :| PartAt(s, part, i) {
        assert i > 0;
        assert PartAt(s[1..], part, i - 1);
      }
    }
  }

  lemma LowEndpointIff(name: string)
    ensures IsLowEndpointUdc(name) <==> exists i: nat :: MusbAt(name, i)
  {
    var lower := seq(|name|, i requires 0 <= i < |name| => ToAsciiLowercase(name[i]));
    ContainsIff(lower, "musb");
    ContainsIff(lower, "musb-hdrc");
    hide Contains, ToAsciiLowercase, MusbAt, PartAt;
    forall i: nat ensures PartAt(lower, "musb", i) <==> MusbAt(name, i) {
      PartIsMusb(name, lower, i);
    }
    forall i: nat ensures PartAt(lower, "musb-hdrc", i) ==> PartAt(lower, "musb", i) {
      ShorterPart(lower, i);
    }
  }

  lemma PartIsMusb(name: string, lower: string, i: nat)
    requires |lower| == |name| && forall k :: 0 <= k < |name| ==> lower[k] == ToAsciiLowercase(name[k])
    ensures PartAt(lower, "musb", i) <==> MusbAt(name, i)
  {
    if i + 4 <= |name| {
      assert lower[i..i + 4] == [lower[i], lower[i + 1], lower[i + 2], lower[i + 3]];
    }
  }

  lemma ShorterPart(s: string, i: nat)
    ensures PartAt(s, "musb-hdrc", i) ==> PartAt(s, "musb", i)
  {
    if PartAt(s, "musb-hdrc", i) {
      assert s[i..i + 4] == s[i..i + 9][..4];
    }
  }

  /** The functions of each profile. */
  predicate SelectedBy(f: OtgHidFunctions, hid: HidConfig) {
    && (hid.profile == Full ==> f.keyboard && f.mouseRelative && f.mouseAbsolute && f.consumer)
    && (hid.profile == FullNoConsumer ==> f.keyboard && f.mouseRelative && f.mouseAbsolute && !f.consumer)
    && (hid.profile == LegacyKeyboard ==> f.keyboard && !f.mouseRelative && !f.mouseAbsolute && !f.consumer)
    && (hid.profile == LegacyMouseRelative ==> !f.keyboard && f.mouseRelative && !f.mouseAbsolute && !f.consumer)
    && (hid.profile == Custom ==> f == hid.functions)
  }

  /** The limit of each budget: 5 or 6 endpoints or, without a budget, the 16 of the controller. */
  ghost predicate LimitedBy(max: Byte, budget: OtgEndpointBudget, udc: Option<string>) {
    && (budget == Five || (budget == Auto && NamesMusb(udc)) ==> max == 5)
    && (budget == Six || (budget == Auto && !NamesMusb(udc)) ==> max == 6)
    && (budget == Unlimited ==> max == 16)
  }

  function Number(on: bool): nat {
    if on then 1 else 0
  }

  /** The endpoints budgeted for some functions. */
  function Budgeted(f: OtgHidFunctions, leds: bool, msdEnabled: bool): nat {
    Number(f.keyboard) + Number(f.keyboard && leds) + Number(f.mouseRelative) + Number(f.mouseAbsolute)
    + Number(f.consumer) + 2 * Number(msdEnabled)
  }

  /** What an accepted configuration desires. */
  lemma AcceptedMeans(hid: HidConfig, udc: Option<string>, msdEnabled: bool)
    requires FromConfig(hid, udc, msdEnabled).Ok?
    ensures var d := FromConfig(hid, udc, msdEnabled).value;
            && d.udc == udc && d.descriptor == hid.descriptor && d.msdEnabled == msdEnabled
            && (d.hidFunctions.Some? <==> hid.backend == Otg)
            && (d.hidFunctions.Some? ==> SelectedBy(d.hidFunctions.value, hid)
                                         && d.keyboardLeds == (hid.keyboardLeds && d.hidFunctions.value.keyboard))
            && LimitedBy(d.maxEndpoints, hid.budget, udc)
  {
    if udc.Some? {
      LowEndpointIff(udc.value);
      hide IsLowEndpointUdc;
    }
  }

  /** A configuration is accepted exactly if it is not for the gadget or selects some function and keeps
      its budget, if it has one. */
  lemma AcceptedIff(hid: HidConfig, udc: Option<string>, msdEnabled: bool, f: OtgHidFunctions, max: Byte)
    requires SelectedBy(f, hid) && LimitedBy(max, hid.budget, udc)
    ensures FromConfig(hid, udc, msdEnabled).Ok? <==>
            || hid.backend != Otg
            || ((f.keyboard || f.mouseRelative || f.mouseAbsolute || f.consumer)
                && (hid.budget == Unlimited || Budgeted(f, hid.keyboardLeds, msdEnabled) <= max))
  {
    if udc.Some? {
      LowEndpointIff(udc.value);
      hide IsLowEndpointUdc;
    }
    assert f == hid.EffectiveFunctions();
  }

  /* ---- What a desired state registers ---- */

  function If(on: bool, kind: Kind): seq<Kind> {
    if on then [kind] else []
  }

  function HidKinds(functions: OtgHidFunctions, leds: bool): seq<Kind> {
    If(functions.keyboard, Keyboard(leds)) + If(functions.mouseRelative, MouseRelative)
    + If(functions.mouseAbsolute, MouseAbsolute) + If(functions.consumer, ConsumerControl)
  }

  /** The functions that a desired state asks for, in the order in which they are added. */
  function WantedKinds(d: OtgDesiredState): seq<Kind> {
    (if d.hidFunctions.Some? then HidKinds(d.hidFunctions.value, d.keyboardLeds) else [])
    + If(d.msdEnabled, MassStorage)
  }

  function Rank(kind: Kind): nat {
    match kind
    case Keyboard(_) => 0
    case MouseRelative => 1
    case MouseAbsolute => 2
    case ConsumerControl => 3
    case MassStorage => 4
  }

  predicate InRankOrder(kinds: seq<Kind>) {
    forall i, j :: 0 <= i < j < |kinds| ==> Rank(kinds[i]) < Rank(kinds[j])
  }

  ghost predicate OrderedBelow(kinds: seq<Kind>, rank: nat) {
    InRankOrder(kinds) && forall i :: 0 <= i < |kinds| ==> Rank(kinds[i]) < rank
  }

  lemma OrderedIf(kinds: seq<Kind>, on: bool, kind: Kind)
    requires OrderedBelow(kinds, Rank(kind))
    ensures OrderedBelow(kinds + If(on, kind), Rank(kind) + 1)
  {
  }

  predicate Enabled(d: OtgDesiredState, kind: Kind) {
    match kind
    case Keyboard(leds) => d.hidFunctions.Some? && d.hidFunctions.value.keyboard && leds == d.keyboardLeds
    case MouseRelative => d.hidFunctions.Some? && d.hidFunctions.value.mouseRelative
    case MouseAbsolute => d.hidFunctions.Some? && d.hidFunctions.value.mouseAbsolute
    case ConsumerControl => d.hidFunctions.Some? && d.hidFunctions.value.consumer
    case MassStorage => d.msdEnabled
  }

  /** The kinds wanted are exactly the enabled ones, each once, in that order. */
  lemma WantedAreEnabled(d: OtgDesiredState)
    ensures InRankOrder(WantedKinds(d))
    ensures forall kind :: kind in WantedKinds(d) <==> Enabled(d, kind)
  {
    WantedInOrder(d);
    forall kind ensures kind in WantedKinds(d) <==> Enabled(d, kind) {
      WantedIff(d, kind);
    }
  }

  lemma WantedIff(d: OtgDesiredState, kind: Kind)
    ensures kind in WantedKinds(d) <==> Enabled(d, kind)
  {
    if d.hidFunctions.Some? {
      var f := d.hidFunctions.value;
      InIf(f.keyboard, Keyboard(d.keyboardLeds), kind);
      InIf(f.mouseRelative, MouseRelative, kind);
      InIf(f.mouseAbsolute, MouseAbsolute, kind);
      InIf(f.consumer, ConsumerControl, kind);
    }
    InIf(d.msdEnabled, MassStorage, kind);
    hide If;
  }

  lemma InIf(on: bool, kind: Kind, k: Kind)
    ensures k in If(on, kind) <==> on && k == kind
  {
  }

  lemma WantedInOrder(d: OtgDesiredState)
    ensures InRankOrder(WantedKinds(d))
  {
    assert OrderedBelow([], 0) && OrderedBelow([], 4);
    var hid := if d.hidFunctions.Some? then HidKinds(d.hidFunctions.value, d.keyboardLeds) else [];
    if d.hidFunctions.Some? {
      HidInOrder(d.hidFunctions.value, d.keyboardLeds);
    }
    hide If, HidKinds;
    OrderedIf(hid, d.msdEnabled, MassStorage);
  }

  lemma HidInOrder(f: OtgHidFunctions, leds: bool)
    ensures OrderedBelow(HidKinds(f, leds), 4)
  {
    var k1 := If(f.keyboard, Keyboard(leds));
    var k2 := k1 + If(f.mouseRelative, MouseRelative);
    var k3 := k2 + If(f.mouseAbsolute, MouseAbsolute);
    assert OrderedBelow(k1, 1);
    hide If, OrderedBelow;
    OrderedIf(k1, f.mouseRelative, MouseRelative);
    OrderedIf(k2, f.mouseAbsolute, MouseAbsolute);
    OrderedIf(k3, f.consumer, ConsumerControl);
  }

  lemma CostIf(kinds: seq<Kind>, on: bool, kind: Kind)
    ensures Cost(kinds + If(on, kind)) == Cost(kinds) + if on then EndpointsRequired(kind) as nat else 0
  {
    if on {
      Snoc(kinds, kind);
    } else {
      assert kinds + [] == kinds;
    }
  }

  lemma HidKindsCost(functions: OtgHidFunctions, leds: bool)
    ensures Cost(HidKinds(functions, leds)) == functions.EndpointCost(false)
  {
    var k := If(functions.keyboard, Keyboard(leds));
    assert [] + k == k;
    CostIf([], functions.keyboard, Keyboard(leds));
    CostIf(k, functions.mouseRelative, MouseRelative);
    CostIf(k + If(functions.mouseRelative, MouseRelative), functions.mouseAbsolute, MouseAbsolute);
    CostIf(k + If(functions.mouseRelative, MouseRelative) + If(functions.mouseAbsolute, MouseAbsolute),
           functions.consumer, ConsumerControl);
  }

  /** The budget counts exactly one endpoint more than the gadget takes if the keyboard has LEDs, and
      the same otherwise. */
  lemma BudgetAgainstCost(hid: HidConfig, udc: Option<string>, msdEnabled: bool)
    ensures hid.backend == Otg ==>
      hid.RequiredEndpoints(msdEnabled)
      == Cost(WantedKinds(Desired(hid, udc, msdEnabled))) + if hid.EffectiveKeyboardLeds() then 1 else 0
    ensures hid.backend != Otg ==> Cost(WantedKinds(Desired(hid, udc, msdEnabled))) == if msdEnabled then 2 else 0
  {
    var leds := hid.EffectiveKeyboardLeds();
    HidKindsCost(hid.EffectiveFunctions(), leds);
    CostIf(HidKinds(hid.EffectiveFunctions(), leds), msdEnabled, MassStorage);
    CostIf([], msdEnabled, MassStorage);
    assert Cost([]) == 0;
    hide Cost, HidKinds;
  }

  /** Every configuration that passes validation has all its functions registered. */
  lemma ValidatedIsRegistered(hid: HidConfig, udc: Option<string>, msdEnabled: bool)
    requires FromConfig(hid, udc, msdEnabled).Ok?
    ensures var d := FromConfig(hid, udc, msdEnabled).value;
            Kinds(AddAll(d.maxEndpoints, WantedKinds(d))) == WantedKinds(d)
  {
    var d := Desired(hid, udc, msdEnabled);
    BudgetAgainstCost(hid, udc, msdEnabled);
    AllAddedIff(d.maxEndpoints, WantedKinds(d));
  }

  /** Validation turns down a selection that would register in full exactly if the keyboard's LEDs are
      what takes it over the limit. */
  lemma RejectedThoughItFitsIff(hid: HidConfig, udc: Option<string>, msdEnabled: bool)
    requires hid.backend == Otg && !hid.EffectiveFunctions().IsEmpty()
    ensures var d := Desired(hid, udc, msdEnabled);
            (FromConfig(hid, udc, msdEnabled).Err? && Kinds(AddAll(d.maxEndpoints, WantedKinds(d))) == WantedKinds(d)
             <==> hid.EffectiveKeyboardLeds() && EndpointLimit(hid.budget, udc).Some?
                  && hid.RequiredEndpoints(msdEnabled) == EndpointLimit(hid.budget, udc).value + 1)
  {
    var d := Desired(hid, udc, msdEnabled);
    BudgetAgainstCost(hid, udc, msdEnabled);
    AllAddedIff(d.maxEndpoints, WantedKinds(d));
  }
}
