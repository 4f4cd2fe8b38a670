/** The USB functions of a gadget before it is set up (src/otg/manager.rs, src/otg/hid.rs and
    src/otg/msd.rs), without the file system. */
module OtgManager {
  import opened Prelude
  import opened OtgEndpoint

  datatype Kind = Keyboard(leds: bool) | MouseRelative | MouseAbsolute | ConsumerControl | MassStorage

  /** A function; its instance number is the n of hid.usb<n> or mass_storage.usb<n>. */
  datatype GadgetFunction = GadgetFunction(kind: Kind, instance: Byte)

  datatype Name = HidUsb(n: Byte) | MassStorageUsb(n: Byte)

  /** /dev/hidg<n> */
  datatype Path = HidG(n: Byte)

  datatype FunctionMeta = FunctionMeta(name: Name, endpoints: Byte)

  function EndpointsRequired(kind: Kind): Byte {
    if kind.MassStorage? then 2 else 1
  }

  function NameOf(f: GadgetFunction): Name {
    if f.kind.MassStorage? then MassStorageUsb(f.instance) else HidUsb(f.instance)
  }

  /** Endpoints that a list of kinds needs. */
  function Cost(kinds: seq<Kind>): nat {
    if kinds == [] then 0 else Cost(kinds[..|kinds| - 1]) + EndpointsRequired(kinds[|kinds| - 1])
  }

  /** How many of them are, or are not, mass storage. */
  function Count(kinds: seq<Kind>, storage: bool): nat {
    if kinds == [] then 0
    else Count(kinds[..|kinds| - 1], storage) + if kinds[|kinds| - 1].MassStorage? == storage then 1 else 0
  }

  lemma {:induction false} CountWithinCost(kinds: seq<Kind>)
    ensures Count(kinds, false) + 2 * Count(kinds, true) == Cost(kinds)
    decreases |kinds|
  {
    if kinds != [] {
      CountWithinCost(kinds[..|kinds| - 1]);
    }
  }

  lemma Snoc(kinds: seq<Kind>, kind: Kind)
    ensures Cost(kinds + [kind]) == Cost(kinds) + EndpointsRequired(kind)
    ensures Count(kinds + [kind], kind.MassStorage?) == Count(kinds, kind.MassStorage?) + 1
    ensures Count(kinds + [kind], !kind.MassStorage?) == Count(kinds, !kind.MassStorage?)
  {
    assert (kinds + [kind])[..|kinds|] == kinds;
  }

  function Kinds(functions: seq<GadgetFunction>): seq<Kind> {
    seq(|functions|, i requires 0 <= i < |functions| => functions[i].kind)
  }

  lemma KindsSnoc(functions: seq<GadgetFunction>, f: GadgetFunction)
    ensures Kinds(functions + [f]) == Kinds(functions) + [f.kind]
  {
  }

  /** HID functions and mass storage functions are each numbered from 0 in order. */
  ghost predicate Numbered(functions: seq<GadgetFunction>) {
    forall i :: 0 <= i < |functions| ==>
      functions[i].instance == Count(Kinds(functions[..i]), functions[i].kind.MassStorage?)
  }

  ghost predicate DistinctNames(functions: seq<GadgetFunction>) {
    forall i, j :: 0 <= i < j < |functions| ==> NameOf(functions[i]) != NameOf(functions[j])
  }

  lemma {:induction false} CountGrows(functions: seq<GadgetFunction>, i: nat, j: nat, storage: bool)
    requires i < j <= |functions| && functions[i].kind.MassStorage? == storage
    ensures Count(Kinds(functions[..i]), storage) < Count(Kinds(functions[..j]), storage)
  {
    var f := functions[j - 1];
    assert functions[..j] == functions[..j - 1] + [f];
    KindsSnoc(functions[..j - 1], f);
    Snoc(Kinds(functions[..j - 1]), f.kind);
    if i < j - 1 {
      CountGrows(functions, i, j - 1, storage);
    }
  }

  lemma NumberedAreDistinct(functions: seq<GadgetFunction>)
    requires Numbered(functions)
    ensures DistinctNames(functions)
  {
    forall i, j | 0 <= i < j < |functions| ensures NameOf(functions[i]) != NameOf(functions[j]) {
      CountGrows(functions, i, j, functions[i].kind.MassStorage?);
    }
  }

  /** The metadata by name: an entry for each function and no other. */
  ghost predicate Described(functions: seq<GadgetFunction>, meta: map<Name, FunctionMeta>) {
    && (forall i :: 0 <= i < |functions| ==>
          && NameOf(functions[i]) in meta
          && meta[NameOf(functions[i])] == FunctionMeta(NameOf(functions[i]), EndpointsRequired(functions[i].kind)))
    && (forall name <- meta :: exists i :: 0 <= i < |functions| && NameOf(functions[i]) == name)
  }

  /** With an entry for hid.usb<n>. */
  function WithHid(meta: map<Name, FunctionMeta>, n: Byte): map<Name, FunctionMeta> {
    meta[HidUsb(n) := FunctionMeta(HidUsb(n), 1)]
  }

  class OtgGadgetManager {
    const allocator: EndpointAllocator
    var hidInstance: Byte
    var msdInstance: Byte
    var functions: seq<GadgetFunction>
    var meta: map<Name, FunctionMeta>

    /** Without the two counters, which an add raises last. */
    ghost predicate Registered()
      reads this, allocator
    {
      && allocator.usedEndpoints == Cost(Kinds(functions)) <= allocator.maxEndpoints
      && Numbered(functions) && DistinctNames(functions) && Described(functions, meta)
    }

    /** Used endpoints are the sum over the functions and within the limit; names are distinct. */
    ghost predicate Valid()
      reads this, allocator
    {
      && Registered()
      && hidInstance == Count(Kinds(functions), false) && msdInstance == Count(Kinds(functions), true)
    }

    constructor (maxEndpoints: Byte)
      ensures Valid() && fresh(allocator)
      ensures allocator.maxEndpoints == maxEndpoints && functions == []
    {
      allocator := new EndpointAllocator(maxEndpoints);
      hidInstance, msdInstance, functions, meta := 0, 0, [], map[];
    }

    /** Adds a function if its endpoints fit; otherwise nothing changes. */
    method AddFunction(f: GadgetFunction) returns (ok: bool)
      requires Registered()
      requires f.instance == Count(Kinds(functions), f.kind.MassStorage?)
      modifies this`functions, this`meta, allocator
      ensures Registered()
      ensures ok <==> Cost(Kinds(old(functions))) + EndpointsRequired(f.kind) <= allocator.maxEndpoints
      ensures functions == if ok then old(functions) + [f] else old(functions)
      ensures meta == if ok then old(meta)[NameOf(f) := FunctionMeta(NameOf(f), EndpointsRequired(f.kind))] else old(meta)
    {
      hide Numbered, DistinctNames, Described, Count;
      var endpoints := EndpointsRequired(f.kind);
      if !allocator.CanAllocate(endpoints) {
        return false;
      }
      GrantsWhatFitsIff(allocator.maxEndpoints, allocator.usedEndpoints, endpoints);
      ok := allocator.Allocate(endpoints);
      assert ok;
      AddedStaysRegistered(functions, meta, f);
      meta := meta[NameOf(f) := FunctionMeta(NameOf(f), endpoints)];
      functions := functions + [f];
    }

    method AddKeyboard(leds: bool) returns (path: Option<Path>)
      requires Valid()
      modifies this, allocator
      ensures Valid() && AddedHid(old(functions), Keyboard(leds), path)
      ensures meta == if path.Some? then WithHid(old(meta), path.value.n) else old(meta)
    {
      path := AddHid(Keyboard(leds));
    }

    method AddMouseRelative() returns (path: Option<Path>)
      requires Valid()
      modifies this, allocator
      ensures Valid() && AddedHid(old(functions), MouseRelative, path)
      ensures meta == if path.Some? then WithHid(old(meta), path.value.n) else old(meta)
    {
      path := AddHid(MouseRelative);
    }

    method AddMouseAbsolute() returns (path: Option<Path>)
      requires Valid()
      modifies this, allocator
      ensures Valid() && AddedHid(old(functions), MouseAbsolute, path)
      ensures meta == if path.Some? then WithHid(old(meta), path.value.n) else old(meta)
    {
      path := AddHid(MouseAbsolute);
    }

    method AddConsumerControl() returns (path: Option<Path>)
      requires Valid()
      modifies this, allocator
      ensures Valid() && AddedHid(old(functions), ConsumerControl, path)
      ensures meta == if path.Some? then WithHid(old(meta), path.value.n) else old(meta)
    {
      path := AddHid(ConsumerControl);
    }

    /** The function is there if its endpoint fits, numbered after those before it, and its device
        path carries that number; otherwise there is no path and nothing changed. */
    ghost predicate AddedHid(before: seq<GadgetFunction>, kind: Kind, path: Option<Path>)
      reads this
    {
      && (path.Some? <==> Cost(Kinds(before)) + 1 <= allocator.maxEndpoints)
      && match path
         case None => functions == before
         case Some(HidG(n)) =>
           n == Count(Kinds(before), false) && functions == before + [GadgetFunction(kind, n)]
    }

    /** What the four methods above share. */
    method AddHid(kind: Kind) returns (path: Option<Path>)
      requires Valid() && !kind.MassStorage?
      modifies this, allocator
      ensures Valid() && AddedHid(old(functions), kind, path)
      ensures meta == if path.Some? then WithHid(old(meta), path.value.n) else old(meta)
    {
      hide Numbered, DistinctNames, Described;
      var f := GadgetFunction(kind, hidInstance);
      var ok := AddFunction(f);
      if !ok {
        return None;
      }
      KindsSnoc(old(functions), f);
      Snoc(Kinds(old(functions)), kind);
      CountWithinCost(Kinds(functions));
      hidInstance := hidInstance + 1;
      path := Some(HidG(f.instance));
    }

    method AddMsd() returns (msd: Option<GadgetFunction>)
      requires Valid()
      modifies this, allocator
      ensures Valid()
      ensures msd.Some? <==> Cost(Kinds(old(functions))) + 2 <= allocator.maxEndpoints
      ensures msd.None? ==> functions == old(functions) && meta == old(meta)
      ensures msd.Some? ==>
                meta == old(meta)[MassStorageUsb(old(msdInstance)) := FunctionMeta(MassStorageUsb(old(msdInstance)), 2)]
      ensures msd.Some? ==> msd.value.instance == Count(Kinds(old(functions)), true)
      ensures msd.Some? ==> msd.value == GadgetFunction(MassStorage, old(msdInstance))
                            && functions == old(functions) + [msd.value]
    {
      hide Numbered, DistinctNames, Described;
      var f := GadgetFunction(MassStorage, msdInstance);
      var ok := AddFunction(f);
      if !ok {
        return None;
      }
      KindsSnoc(old(functions), f);
      Snoc(Kinds(old(functions)), MassStorage);
      CountWithinCost(Kinds(functions));
      msdInstance := msdInstance + 1;
      msd := Some(f);
    }
  }

  lemma AddedStaysRegistered(functions: seq<GadgetFunction>, meta: map<Name, FunctionMeta>, f: GadgetFunction)
    requires Numbered(functions) && Described(functions, meta)
    requires f.instance == Count(Kinds(functions), f.kind.MassStorage?)
    ensures Numbered(functions + [f]) && DistinctNames(functions + [f])
    ensures Described(functions + [f], meta[NameOf(f) := FunctionMeta(NameOf(f), EndpointsRequired(f.kind))])
    ensures Cost(Kinds(functions + [f])) == Cost(Kinds(functions)) + EndpointsRequired(f.kind)
  {
    KindsSnoc(functions, f);
    Snoc(Kinds(functions), f.kind);
    NumberedSnoc(functions, f);
    DescribedMore(functions, meta, f);
  }

  lemma DescribedMore(functions: seq<GadgetFunction>, meta: map<Name, FunctionMeta>, f: GadgetFunction)
    requires Described(functions, meta) && DistinctNames(functions + [f])
    ensures Described(functions + [f], meta[NameOf(f) := FunctionMeta(NameOf(f), EndpointsRequired(f.kind))])
  {
    var more, meta' := functions + [f], meta[NameOf(f) := FunctionMeta(NameOf(f), EndpointsRequired(f.kind))];
    forall i | 0 <= i < |functions| ensures NameOf(functions[i]) != NameOf(f) {
      assert more[i] == functions[i] && more[|functions|] == f;
    }
    forall name | name in meta' ensures exists i :: 0 <= i < |more| && NameOf(more[i]) == name {
      if name == NameOf(f) {
        assert NameOf(more[|functions|]) == name;
      } else {
        var i :| 0 <= i < |functions| && NameOf(functions[i]) == name;
        assert NameOf(more[i]) == name;
      }
    }
  }

  /* ---- Sequences of adds ---- */

  /** The functions after adding kinds one by one, as far as they fit. */
  function AddAll(max: Byte, kinds: seq<Kind>): seq<GadgetFunction> {
    if kinds == [] then []
    else
      var before, kind := AddAll(max, kinds[..|kinds| - 1]), kinds[|kinds| - 1];
      if Cost(Kinds(before)) + EndpointsRequired(kind) <= max
      then
        CountWithinCost(Kinds(before));
        before + [GadgetFunction(kind, Count(Kinds(before), kind.MassStorage?))]
      else before
  }

  method RunAdds(max: Byte, kinds: seq<Kind>) returns (manager: OtgGadgetManager)
    ensures fresh(manager) && manager.Valid() && manager.functions == AddAll(max, kinds)
  {
    hide Numbered, DistinctNames, Described, Count, Cost, Kinds;
    manager := new OtgGadgetManager(max);
    for i := 0 to |kinds|
      invariant fresh(manager) && fresh(manager.allocator)
      invariant manager.Valid() && manager.allocator.maxEndpoints == max
      invariant manager.functions == AddAll(max, kinds[..i])
    {
      assert kinds[..i + 1][..i] == kinds[..i];
      match kinds[i] {
        case Keyboard(leds) => var _ := manager.AddKeyboard(leds);
        case MouseRelative => var _ := manager.AddMouseRelative();
        case MouseAbsolute => var _ := manager.AddMouseAbsolute();
        case ConsumerControl => var _ := manager.AddConsumerControl();
        case MassStorage => var _ := manager.AddMsd();
      }
    }
    assert kinds[..|kinds|] == kinds;
  }

  lemma {:induction false} CostMonotone(kinds: seq<Kind>, n: nat)
    requires n <= |kinds|
    ensures Cost(kinds[..n]) <= Cost(kinds)
    ensures n < |kinds| ==> Cost(kinds[..n]) + EndpointsRequired(kinds[n]) <= Cost(kinds)
    decreases |kinds|
  {
    if n == |kinds| {
      assert kinds[..n] == kinds;
    } else {
      var shorter := kinds[..|kinds| - 1];
      assert shorter[..n] == kinds[..n];
      CostMonotone(shorter, n);
    }
  }

  /** All kinds are registered, in order, if and only if their sum fits; and never is more allotted
      than the limit, nor a name given twice. */
  lemma {:induction false} AllAddedIff(max: Byte, kinds: seq<Kind>)
    ensures Kinds(AddAll(max, kinds)) == kinds <==> Cost(kinds) <= max
    ensures Cost(Kinds(AddAll(max, kinds))) <= max
    ensures Numbered(AddAll(max, kinds)) && DistinctNames(AddAll(max, kinds))
    ensures |AddAll(max, kinds)| <= |kinds|
    decreases |kinds|
  {
    if kinds != [] {
      hide Numbered, DistinctNames, Count;
      var last := |kinds| - 1;
      var before, kind := AddAll(max, kinds[..last]), kinds[last];
      AllAddedIff(max, kinds[..last]);
      assert kinds == kinds[..last] + [kind];
      if Cost(Kinds(before)) + EndpointsRequired(kind) <= max {
        CountWithinCost(Kinds(before));
        var f := GadgetFunction(kind, Count(Kinds(before), kind.MassStorage?));
        NumberedSnoc(before, f);
        KindsSnoc(before, f);
        Snoc(Kinds(before), kind);
        assert Kinds(before) + [kind] == kinds <==> Kinds(before) == kinds[..last];
      } else {
        assert |Kinds(before)| < |kinds|;
      }
    } else {
      assert Numbered([]);
    }
  }

  lemma NumberedSnoc(functions: seq<GadgetFunction>, f: GadgetFunction)
    requires Numbered(functions) && f.instance == Count(Kinds(functions), f.kind.MassStorage?)
    ensures Numbered(functions + [f]) && DistinctNames(functions + [f])
  {
    var more := functions + [f];
    forall i | 0 <= i < |more| ensures more[i].instance == Count(Kinds(more[..i]), more[i].kind.MassStorage?) {
      assert more[..i] == functions[..i];
      assert functions[..|functions|] == functions;
    }
    NumberedAreDistinct(more);
  }
}
