/** The six-key keyboard report (src/hid/types.rs) and the state that the CH9329 backend keeps in one
    (src/hid/ch9329.rs): what the report shows against what is held. */
module Keyboard {
  import opened Prelude

  const SLOTS := 6

  /* ---- The key slots ---- */

  /** Empty slots come last. */
  predicate Compact(keys: seq<Byte>) {
    forall i, j :: 0 <= i < j < |keys| && keys[j] != 0 ==> keys[i] != 0
  }

  predicate Descending(keys: seq<Byte>) {
    forall i, j :: 0 <= i < j < |keys| ==> keys[i] >= keys[j]
  }

  function Insert(sorted: seq<Byte>, key: Byte): (r: seq<Byte>)
    ensures |r| == |sorted| + 1
  {
    if sorted == [] then [key]
    else if key >= sorted[0] then [key] + sorted
    else [sorted[0]] + Insert(sorted[1..], key)
  }

  /** The keys in descending order. */
  function Sorted(keys: seq<Byte>): (r: seq<Byte>)
    ensures |r| == |keys|
  {
    if keys == [] then [] else Insert(Sorted(keys[1..]), keys[0])
  }

  lemma {:induction false} InsertKeeps(sorted: seq<Byte>, key: Byte)
    ensures multiset(Insert(sorted, key)) == multiset(sorted) + multiset{key}
  {
    if sorted != [] {
      assert sorted == [sorted[0]] + sorted[1..];
      if key < sorted[0] {
        InsertKeeps(sorted[1..], key);
      }
    }
  }

  lemma {:induction false} InsertSorts(sorted: seq<Byte>, key: Byte)
    requires Descending(sorted)
    ensures Descending(Insert(sorted, key))
    ensures sorted != [] && key < sorted[0] ==> Insert(sorted, key)[0] == sorted[0]
  {
    if sorted != [] && key < sorted[0] {
      var rest := Insert(sorted[1..], key);
      InsertSorts(sorted[1..], key);
      HeadFirst(sorted[0], rest);
    }
  }

  lemma HeadFirst(head: Byte, rest: seq<Byte>)
    requires Descending(rest) && (rest != [] ==> head >= rest[0])
    ensures Descending([head] + rest)
  {
    var all := [head] + rest;
    forall i, j | 0 <= i < j < |all| ensures all[i] >= all[j] {
      assert all[j] == rest[j - 1];
      assert rest[0] >= rest[j - 1];
    }
  }

  lemma {:induction false} SortedIsSorted(keys: seq<Byte>)
    ensures Descending(Sorted(keys)) && multiset(Sorted(keys)) == multiset(keys)
  {
    if keys != [] {
      hide Insert, Descending;
      SortedIsSorted(keys[1..]);
      InsertKeeps(Sorted(keys[1..]), keys[0]);
      InsertSorts(Sorted(keys[1..]), keys[0]);
      assert keys == [keys[0]] + keys[1..];
    }
  }

  /** As many zeros as leave n keys. */
  function Empty(n: nat): multiset<Byte>
    requires n <= SLOTS
  {
    multiset{}[0 := SLOTS - n]
  }

  /** The slots show exactly these keys. */
  ghost predicate Shows(keys: seq<Byte>, shown: multiset<Byte>) {
    && |keys| == SLOTS && Compact(keys)
    && 0 !in shown && |shown| <= SLOTS
    && multiset(keys) == shown + Empty(|shown|)
  }

  class KeyboardReport {
    var modifiers: Byte
    var reserved: Byte
    const keys: array<Byte>

    ghost predicate Valid()
      reads this
    {
      keys.Length == SLOTS
    }

    constructor ()
      ensures Valid() && fresh(keys) && modifiers == reserved == 0
      ensures Shows(keys[..], multiset{})
    {
      modifiers, reserved := 0, 0;
      keys := new Byte[SLOTS](_ => 0);
      new;
      NoKeys(keys[..]);
    }

    method ToBytes() returns (bytes: seq<Byte>)
      requires Valid()
      ensures bytes == [modifiers, reserved] + keys[..]
    {
      bytes := [modifiers, reserved, keys[0], keys[1], keys[2], keys[3], keys[4], keys[5]];
    }

    /** The key goes to the first empty slot; a full report refuses it. */
    method AddKey(key: Byte) returns (added: bool)
      requires Valid()
      modifies keys
      ensures added <==> 0 in old(keys[..])
      ensures !added ==> keys[..] == old(keys[..])
      ensures added ==> exists i :: 0 <= i < SLOTS && old(keys[i]) == 0
                                    && (forall k :: 0 <= k < i ==> old(keys[k]) != 0)
                                    && keys[..] == old(keys[..])[i := key]
    {
      for i := 0 to keys.Length
        invariant keys[..] == old(keys[..])
        invariant forall k :: 0 <= k < i ==> keys[k] != 0
      {
        if keys[i] == 0 {
          keys[i] := key;
          assert old(keys[i]) == 0 && keys[..] == old(keys[..])[i := key];
          return true;
        }
      }
      added := false;
    }

    /** Every occurrence of the key is emptied; the others are kept, each as often as before, in
        descending order. */
    method RemoveKey(key: Byte)
      requires Valid()
      modifies keys
      ensures Descending(keys[..])
      ensures forall x :: x != key && x != 0 ==> multiset(keys[..])[x] == multiset(old(keys[..]))[x]
      ensures key != 0 ==> multiset(keys[..])[key] == 0
    {
      ghost var before := keys[..];
      for i := 0 to keys.Length
        invariant forall k :: 0 <= k < i ==> keys[k] == if before[k] == key then 0 else before[k]
        invariant forall k :: i <= k < keys.Length ==> keys[k] == before[k]
      {
        if keys[i] == key {
          keys[i] := 0;
        }
      }
      ghost var emptied := keys[..];
      EmptiedCounts(before, emptied, key);
      var sorted := Sorted(keys[..]);
      SortedIsSorted(keys[..]);
      for i := 0 to keys.Length
        invariant keys[..i] == sorted[..i]
      {
        keys[i] := sorted[i];
      }
      assert keys[..] == sorted;
    }

    method Clear()
      requires Valid()
      modifies this, keys
      ensures modifiers == 0 && reserved == old(reserved)
      ensures Shows(keys[..], multiset{})
    {
      modifiers := 0;
      for i := 0 to keys.Length
        invariant modifiers == 0 && reserved == old(reserved)
        invariant forall k :: 0 <= k < i ==> keys[k] == 0
      {
        keys[i] := 0;
      }
      NoKeys(keys[..]);
    }
  }

  lemma {:induction false} ZerosCount(keys: seq<Byte>)
    requires forall k :: 0 <= k < |keys| ==> keys[k] == 0
    ensures multiset(keys) == multiset{}[0 := |keys|]
  {
    if keys != [] {
      ZerosCount(keys[1..]);
      assert keys == [keys[0]] + keys[1..];
    }
  }

  lemma NoKeys(keys: seq<Byte>)
    requires |keys| == SLOTS && forall k :: 0 <= k < SLOTS ==> keys[k] == 0
    ensures Shows(keys, multiset{})
  {
    ZerosCount(keys);
  }

  lemma {:induction false} EmptiedCounts(before: seq<Byte>, after: seq<Byte>, key: Byte)
    requires |before| == |after|
    requires forall k :: 0 <= k < |before| ==> after[k] == if before[k] == key then 0 else before[k]
    ensures forall x :: x != key && x != 0 ==> multiset(after)[x] == multiset(before)[x]
    ensures key != 0 ==> multiset(after)[key] == 0
  {
    if before != [] {
      EmptiedCounts(before[1..], after[1..], key);
      assert before == [before[0]] + before[1..] && after == [after[0]] + after[1..];
    }
  }

  /** Two multisets of the same size that agree on all keys but 0 agree on 0 too. */
  lemma AgreeOnZero(a: multiset<Byte>, b: multiset<Byte>)
    requires |a| == |b| && forall x :: x != 0 ==> a[x] == b[x]
    ensures a == b
  {
    var a', b' := a[0 := 0], b[0 := 0];
    assert a' == b';
    assert a == a' + multiset{}[0 := a[0]] && b == b' + multiset{}[0 := b[0]];
  }

  lemma ShowsByCount(keys: seq<Byte>, shown: multiset<Byte>)
    requires |keys| == SLOTS && Compact(keys) && 0 !in shown && |shown| <= SLOTS
    requires forall x :: x != 0 ==> multiset(keys)[x] == shown[x]
    ensures Shows(keys, shown)
  {
    AgreeOnZero(multiset(keys), shown + Empty(|shown|));
  }

  /** A key that was added is shown once more, unless the report was full. */
  lemma Added(before: seq<Byte>, after: seq<Byte>, shown: multiset<Byte>, i: nat, key: Byte)
    requires Shows(before, shown) && key != 0
    requires i < SLOTS && before[i] == 0 && after == before[i := key]
    requires forall k :: 0 <= k < i ==> before[k] != 0
    ensures |shown| < SLOTS && Shows(after, shown + multiset{key})
  {
    assert multiset(after) == multiset(before) - multiset{0} + multiset{key};
    assert before[i] in multiset(before);
    assert Compact(after) by {
      forall a, b | 0 <= a < b < |after| && after[b] != 0 ensures after[a] != 0 {
        if b != i {
          assert before[b] != 0;
        }
      }
    }
    ShowsByCount(after, shown + multiset{key});
  }

  lemma FullIffSix(keys: seq<Byte>, shown: multiset<Byte>)
    requires Shows(keys, shown)
    ensures 0 in keys <==> |shown| < SLOTS
  {
    assert 0 in keys <==> 0 in multiset(keys);
  }

  lemma Removed(before: seq<Byte>, after: seq<Byte>, shown: multiset<Byte>, key: Byte)
    requires Shows(before, shown) && |after| == SLOTS && Descending(after)
    requires forall x :: x != key && x != 0 ==> multiset(after)[x] == multiset(before)[x]
    requires key != 0 ==> multiset(after)[key] == 0
    ensures Shows(after, shown[key := 0])
  {
    assert shown == shown[key := 0] + multiset{}[key := shown[key]];
    ShowsByCount(after, shown[key := 0]);
  }

  /* ---- Modifier bits ---- */

  predicate HasBit(m: nat, i: nat) {
    if i == 0 then m % 2 == 1 else HasBit(m / 2, i - 1)
  }

  /** The number with one bit set or cleared. */
  function PutBit(m: nat, i: nat, on: bool): nat {
    if i == 0 then m / 2 * 2 + (if on then 1 else 0) else PutBit(m / 2, i - 1, on) * 2 + m % 2
  }

  lemma {:induction false} PutBitPuts(m: nat, i: nat, on: bool, j: nat)
    ensures HasBit(PutBit(m, i, on), j) == if i == j then on else HasBit(m, j)
  {
    if i > 0 && j > 0 {
      PutBitPuts(m / 2, i - 1, on, j - 1);
    }
  }

  lemma {:induction false} ZeroHasNoBits(i: nat)
    ensures !HasBit(0, i)
  {
    if i > 0 {
      ZeroHasNoBits(i - 1);
    }
  }

  function PowerOfTwo(n: nat): nat {
    if n == 0 then 1 else 2 * PowerOfTwo(n - 1)
  }

  lemma {:induction false} PutBitFits(m: nat, i: nat, on: bool, n: nat)
    requires i < n && m < PowerOfTwo(n)
    ensures PutBit(m, i, on) < PowerOfTwo(n)
  {
    var half := PowerOfTwo(n - 1);
    assert m / 2 < half;
    if i > 0 {
      hide PowerOfTwo;
      PutBitFits(m / 2, i - 1, on, n - 1);
    }
  }

  function PutModifier(m: Byte, i: nat, on: bool): Byte
    requires i < 8
  {
    assert PowerOfTwo(8) == 256;
    PutBitFits(m, i, on, 8);
    PutBit(m, i, on)
  }

  type Flags = f: seq<bool> | |f| == 8 witness [false, false, false, false, false, false, false, false]

  function Upper(m: nat, i: nat): nat {
    if i == 0 then m else Upper(m, i - 1) / 2
  }

  lemma {:induction false} HasBitUpper(m: nat, i: nat)
    ensures HasBit(m, i) == (Upper(m, i) % 2 == 1)
  {
    if i > 0 {
      HasBitUpper(m / 2, i - 1);
      UpperFirst(m, i - 1);
    }
  }

  lemma {:induction false} UpperFirst(m: nat, i: nat)
    ensures Upper(m, i + 1) == Upper(m / 2, i)
  {
    if i > 0 {
      UpperFirst(m, i - 1);
    }
  }

  /** Bit i has weight 2^i, from 0x01 for the left control key to 0x80 for the right meta key. */
  lemma BitWeights(m: Byte)
    ensures HasBit(m, 0) == (m % 2 == 1) && HasBit(m, 1) == (m / 0x02 % 2 == 1)
    ensures HasBit(m, 2) == (m / 0x04 % 2 == 1) && HasBit(m, 3) == (m / 0x08 % 2 == 1)
    ensures HasBit(m, 4) == (m / 0x10 % 2 == 1) && HasBit(m, 5) == (m / 0x20 % 2 == 1)
    ensures HasBit(m, 6) == (m / 0x40 % 2 == 1) && HasBit(m, 7) == (m / 0x80 % 2 == 1)
  {
    forall i: nat | i < 8 ensures HasBit(m, i) == (Upper(m, i) % 2 == 1) {
      HasBitUpper(m, i);
    }
    UppersAre(m);
    hide Upper, HasBit;
  }

  lemma UppersAre(m: Byte)
    ensures Upper(m, 0) == m && Upper(m, 1) == m / 0x02 && Upper(m, 2) == m / 0x04 && Upper(m, 3) == m / 0x08
    ensures Upper(m, 4) == m / 0x10 && Upper(m, 5) == m / 0x20 && Upper(m, 6) == m / 0x40 && Upper(m, 7) == m / 0x80
  {
    assert Upper(m, 2) == Upper(m, 1) / 2 && Upper(m, 3) == Upper(m, 2) / 2 && Upper(m, 4) == Upper(m, 3) / 2;
    assert Upper(m, 5) == Upper(m, 4) / 2 && Upper(m, 6) == Upper(m, 5) / 2 && Upper(m, 7) == Upper(m, 6) / 2;
  }

  /** The byte after the first n flags have put their bits. */
  function FlagBits(flags: Flags, n: nat): Byte
    requires n <= 8
  {
    if n == 0 then 0
    else if flags[n - 1] then PutModifier(FlagBits(flags, n - 1), n - 1, true)
    else FlagBits(flags, n - 1)
  }

  function ToHidByte(flags: Flags): Byte {
    FlagBits(flags, 8)
  }

  lemma {:induction false} FlagBitsPut(flags: Flags, n: nat, i: nat)
    requires n <= 8 && i < 8
    ensures HasBit(FlagBits(flags, n), i) == (i < n && flags[i])
  {
    if n == 0 {
      ZeroHasNoBits(i);
    } else {
      hide HasBit, PutBit;
      FlagBitsPut(flags, n - 1, i);
      PutBitPuts(FlagBits(flags, n - 1), n - 1, true, i);
    }
  }

  /* ---- The backend ---- */

  datatype Key = Modifier(bit: nat) | Usage(code: Byte)

  datatype Action = Down | Up

  datatype Event = Keyboard(key: Key, action: Action, modifiers: Flags) | Reset

  /** The event presses, or releases, an ordinary key. */
  predicate Presses(event: Event, key: Byte) {
    event.Keyboard? && event.key == Usage(key) && event.action == Down && key != 0
  }

  predicate Releases(event: Event, key: Byte) {
    event == Reset || (event.Keyboard? && event.key == Usage(key) && event.action == Up)
  }

  predicate IsUsage(event: Event) {
    event.Keyboard? && event.key.Usage?
  }

  /** The keys held after a run: each as often as it was pressed since its last release. */
  function Held(run: seq<Event>): multiset<Byte> {
    if run == [] then multiset{}
    else
      var held, event := Held(run[..|run| - 1]), run[|run| - 1];
      if event == Reset then multiset{}
      else if !IsUsage(event) || event.key.code == 0 then held
      else if event.action == Down then held + multiset{event.key.code}
      else held[event.key.code := 0]
  }

  /** Those of them that the report shows: a press that finds six keys there is not added. */
  function Shown(run: seq<Event>): multiset<Byte> {
    if run == [] then multiset{}
    else
      var shown, event := Shown(run[..|run| - 1]), run[|run| - 1];
      if event == Reset then multiset{}
      else if !IsUsage(event) || event.key.code == 0 then shown
      else if event.action == Down then if |shown| < SLOTS then shown + multiset{event.key.code} else shown
      else shown[event.key.code := 0]
  }

  /** Presses that found no slot and have not been released since. */
  function Lost(run: seq<Event>): multiset<Byte> {
    if run == [] then multiset{}
    else
      var lost, event := Lost(run[..|run| - 1]), run[|run| - 1];
      if event == Reset then multiset{}
      else if !IsUsage(event) || event.key.code == 0 then lost
      else if event.action == Down then
        if |Shown(run[..|run| - 1])| < SLOTS then lost else lost + multiset{event.key.code}
      else lost[event.key.code := 0]
  }

  /** The last event that speaks of a modifier decides whether it is on. */
  predicate ModifierOn(run: seq<Event>, i: nat)
    requires i < 8
  {
    if run == [] then false
    else
      var event := run[|run| - 1];
      if event == Reset then false
      else if event.key.Usage? then event.modifiers[i]
      else if event.key.bit == i then event.action == Down
      else ModifierOn(run[..|run| - 1], i)
  }

  ghost predicate ModifiersAre(run: seq<Event>, m: Byte) {
    forall i :: 0 <= i < 8 ==> HasBit(m, i) == ModifierOn(run, i)
  }

  class Ch9329Keyboard {
    const report: KeyboardReport
    ghost var run: seq<Event>

    ghost predicate Valid()
      reads this, report, report.keys
    {
      && report.Valid() && report.reserved == 0
      && Shows(report.keys[..], Shown(run))
      && ModifiersAre(run, report.modifiers)
    }

    constructor ()
      ensures Valid() && fresh(report) && fresh(report.keys) && run == []
    {
      report := new KeyboardReport();
      run := [];
      new;
      ModifiersCleared([]);
    }

    /** Takes one event of the keyboard and returns the bytes of the report it sends. */
    method SendKeyboard(key: Key, action: Action, modifiers: Flags) returns (bytes: seq<Byte>)
      requires Valid() && (key.Modifier? ==> key.bit < 8)
      modifies this, report, report.keys
      ensures Valid() && run == old(run) + [Keyboard(key, action, modifiers)]
      ensures bytes == [report.modifiers, 0] + report.keys[..]
    {
      hide Shows, Shown, ModifiersAre, Descending;
      ghost var event := Keyboard(key, action, modifiers);
      ghost var keys, modifiersBefore := report.keys[..], report.modifiers;
      match key {
        case Modifier(bit) =>
          report.modifiers := PutModifier(report.modifiers, bit, action.Down?);
          ModifierPut(run, event, modifiersBefore);
        case Usage(code) =>
          report.modifiers := ToHidByte(modifiers);
          ModifiersGiven(run, event);
          match action {
            case Down =>
              var added := report.AddKey(code);
              KeyDown(run, event, keys, report.keys[..], added);
            case Up =>
              report.RemoveKey(code);
              KeyUp(run, event, keys, report.keys[..]);
          }
      }
      run := run + [event];
      bytes := report.ToBytes();
    }

    method Reset() returns (bytes: seq<Byte>)
      requires Valid()
      modifies this, report, report.keys
      ensures Valid() && run == old(run) + [Event.Reset]
      ensures bytes == [0, 0, 0, 0, 0, 0, 0, 0]
    {
      report.Clear();
      run := run + [Event.Reset];
      ModifiersCleared(run);
      bytes := report.ToBytes();
      forall k | 0 <= k < SLOTS ensures report.keys[k] == 0 {
        assert report.keys[..][k] in multiset(report.keys[..]);
      }
    }
  }

  lemma ModifierPut(run: seq<Event>, event: Event, m: Byte)
    requires ModifiersAre(run, m) && event.Keyboard? && event.key.Modifier? && event.key.bit < 8
    ensures ModifiersAre(run + [event], PutModifier(m, event.key.bit, event.action.Down?))
    ensures Shown(run + [event]) == Shown(run)
  {
    hide HasBit, PutBit;
    assert (run + [event])[..|run|] == run;
    forall i | 0 <= i < 8
      ensures HasBit(PutModifier(m, event.key.bit, event.action.Down?), i) == ModifierOn(run + [event], i) {
      PutBitPuts(m, event.key.bit, event.action.Down?, i);
    }
  }

  lemma ModifiersCleared(run: seq<Event>)
    requires run == [] || run[|run| - 1] == Reset
    ensures ModifiersAre(run, 0)
  {
    forall i | 0 <= i < 8 ensures !HasBit(0, i) {
      ZeroHasNoBits(i);
    }
  }

  lemma ModifiersGiven(run: seq<Event>, event: Event)
    requires IsUsage(event)
    ensures ModifiersAre(run + [event], ToHidByte(event.modifiers))
  {
    hide HasBit, FlagBits;
    forall i | 0 <= i < 8 ensures HasBit(ToHidByte(event.modifiers), i) == event.modifiers[i] {
      FlagBitsPut(event.modifiers, 8, i);
    }
  }

  lemma KeyDown(run: seq<Event>, event: Event, before: seq<Byte>, after: seq<Byte>, added: bool)
    requires Shows(before, Shown(run)) && IsUsage(event) && event.action == Down
    requires (added <==> 0 in before) && (!added ==> after == before)
    requires added ==> exists i :: 0 <= i < SLOTS && before[i] == 0
                                   && (forall k :: 0 <= k < i ==> before[k] != 0)
                                   && after == before[i := event.key.code]
    ensures Shows(after, Shown(run + [event]))
  {
    assert (run + [event])[..|run|] == run;
    var key, shown := event.key.code, Shown(run);
    FullIffSix(before, shown);
    if added {
      var i :| 0 <= i < SLOTS && before[i] == 0
               && (forall k :: 0 <= k < i ==> before[k] != 0) && after == before[i := key];
      hide Shows;
      if key != 0 {
        Added(before, after, shown, i, key);
      } else {
        assert after == before;
      }
    }
  }

  lemma KeyUp(run: seq<Event>, event: Event, before: seq<Byte>, after: seq<Byte>)
    requires Shows(before, Shown(run)) && IsUsage(event) && event.action == Up
    requires |after| == SLOTS && Descending(after)
    requires forall x :: x != event.key.code && x != 0 ==> multiset(after)[x] == multiset(before)[x]
    requires event.key.code != 0 ==> multiset(after)[event.key.code] == 0
    ensures Shows(after, Shown(run + [event]))
  {
    assert (run + [event])[..|run|] == run;
    Removed(before, after, Shown(run), event.key.code);
    assert event.key.code == 0 ==> Shown(run)[0 := 0] == Shown(run);
  }

  /* ---- What the report is worth ---- */

  /** Every key held is either shown or was refused by a full report and not released since. */
  lemma {:induction false} HeldIsShownOrLost(run: seq<Event>)
    ensures Held(run) == Shown(run) + Lost(run)
    ensures 0 !in Held(run) && |Shown(run)| <= SLOTS
    decreases |run|
  {
    if run != [] {
      HeldIsShownOrLost(run[..|run| - 1]);
      KeysStep(run);
    }
  }

  lemma KeysStep(run: seq<Event>)
    requires run != []
    requires var earlier := run[..|run| - 1];
             Held(earlier) == Shown(earlier) + Lost(earlier) && 0 !in Held(earlier) && |Shown(earlier)| <= SLOTS
    ensures Held(run) == Shown(run) + Lost(run) && 0 !in Held(run) && |Shown(run)| <= SLOTS
  {
    var earlier, event := run[..|run| - 1], run[|run| - 1];
    var held, shown, lost := Held(earlier), Shown(earlier), Lost(earlier);
    if IsUsage(event) && event.action == Up {
      ReleaseSplits(held, shown, lost, event.key.code);
    }
  }

  lemma ReleaseSplits(held: multiset<Byte>, shown: multiset<Byte>, lost: multiset<Byte>, key: Byte)
    requires held == shown + lost
    ensures held[key := 0] == shown[key := 0] + lost[key := 0]
    ensures |shown[key := 0]| <= |shown|
  {
    assert shown == shown[key := 0] + multiset{}[key := shown[key]];
  }

  /** The report shows exactly the keys held, throughout a run, if and only if at no point of it more
      than six are held, repeated presses counted. */
  lemma ReportIsExactIff(run: seq<Event>)
    ensures (forall n :: 0 <= n <= |run| ==> Shown(run[..n]) == Held(run[..n]))
            <==> (forall n :: 0 <= n <= |run| ==> |Held(run[..n])| <= SLOTS)
  {
    forall n | 0 <= n <= |run| ensures |Shown(run[..n])| <= SLOTS {
      HeldIsShownOrLost(run[..n]);
    }
    if forall n :: 0 <= n <= |run| ==> |Held(run[..n])| <= SLOTS {
      forall n | 0 <= n <= |run| ensures Shown(run[..n]) == Held(run[..n]) {
        NothingLost(run, n);
      }
    }
  }

  lemma {:induction false} NothingLost(run: seq<Event>, n: nat)
    requires n <= |run| && forall k :: 0 <= k <= |run| ==> |Held(run[..k])| <= SLOTS
    ensures Shown(run[..n]) == Held(run[..n])
  {
    if n > 0 {
      NothingLost(run, n - 1);
      assert run[..n][..n - 1] == run[..n - 1];
      StaysExact(run[..n]);
    }
  }

  lemma StaysExact(run: seq<Event>)
    requires run != [] && |Held(run)| <= SLOTS && Shown(run[..|run| - 1]) == Held(run[..|run| - 1])
    ensures Shown(run) == Held(run)
  {
    var held := Held(run[..|run| - 1]);
    if |held| >= SLOTS && IsUsage(run[|run| - 1]) {
      assert |held + multiset{run[|run| - 1].key.code}| == |held| + 1;
    }
  }

  /** Event i presses the key and nothing later releases it. */
  ghost predicate StillDown(run: seq<Event>, key: Byte, i: nat) {
    && i < |run| && Presses(run[i], key)
    && forall j :: i < j < |run| ==> !Releases(run[j], key)
  }

  ghost function PressesStillDown(run: seq<Event>, key: Byte): set<nat> {
    set i: nat | i < |run| && StillDown(run, key, i)
  }

  lemma StillDownStep(run: seq<Event>, key: Byte, i: nat)
    requires i < |run| - 1
    ensures StillDown(run, key, i) <==> StillDown(run[..|run| - 1], key, i) && !Releases(run[|run| - 1], key)
  {
    assert forall j :: i < j < |run| - 1 ==> run[..|run| - 1][j] == run[j];
  }

  lemma HeldStep(run: seq<Event>, key: Byte)
    requires run != []
    ensures var event, held := run[|run| - 1], Held(run[..|run| - 1])[key];
            Held(run)[key] == if key == 0 || Releases(event, key) then 0 else if Presses(event, key) then held + 1 else held
  {
    HeldIsShownOrLost(run);
  }

  /** How often a key is held is the number of presses of it that nothing has released. */
  lemma {:induction false} HeldCounts(run: seq<Event>, key: Byte)
    ensures Held(run)[key] == |PressesStillDown(run, key)|
    decreases |run|
  {
    hide Held, PressesStillDown;
    if run == [] || key == 0 {
      HeldIsShownOrLost(run);
      NothingDown(run, key);
    } else {
      HeldCounts(run[..|run| - 1], key);
      HeldStep(run, key);
      DownStep(run, key);
    }
  }

  lemma NothingDown(run: seq<Event>, key: Byte)
    requires run == [] || key == 0
    ensures PressesStillDown(run, key) == {} && (run == [] ==> Held(run)[key] == 0)
  {
  }

  /** A press joins those still down, and a release leaves none. */
  lemma DownStep(run: seq<Event>, key: Byte)
    requires run != [] && key != 0
    ensures var last, former := |run| - 1, PressesStillDown(run[..|run| - 1], key);
            PressesStillDown(run, key) ==
            (if Releases(run[last], key) then {} else if Presses(run[last], key) then former + {last} else former)
            && last !in former
  {
    var last := |run| - 1;
    assert StillDown(run, key, last) <==> Presses(run[last], key);
    hide StillDown;
    forall i: nat | i < last
      ensures StillDown(run, key, i) <==> StillDown(run[..last], key, i) && !Releases(run[last], key) {
      StillDownStep(run, key, i);
    }
    hide Releases, Presses;
    PressIsNoRelease(run[last], key);
  }

  lemma PressIsNoRelease(event: Event, key: Byte)
    ensures !(Presses(event, key) && Releases(event, key))
  {
  }

  /** No stuck keys: every key in the report has a press that no release or reset followed. */
  lemma NoStuckKeys(run: seq<Event>, keys: seq<Byte>, s: nat)
    requires Shows(keys, Shown(run)) && s < SLOTS && keys[s] != 0
    ensures exists i :: StillDown(run, keys[s], i)
  {
    HeldIsShownOrLost(run);
    HeldCounts(run, keys[s]);
    assert keys[s] in multiset(keys);
    assert PressesStillDown(run, keys[s]) != {};
    var i :| i in PressesStillDown(run, keys[s]);
    assert StillDown(run, keys[s], i);
  }

  /** A release clears every trace of its key, shown or lost; a reset clears all keys. */
  lemma ReleaseClears(run: seq<Event>, event: Event, key: Byte)
    requires Releases(event, key)
    ensures Held(run + [event])[key] == 0 && Shown(run + [event])[key] == 0 && Lost(run + [event])[key] == 0
  {
    assert (run + [event])[..|run|] == run;
    HeldIsShownOrLost(run + [event]);
  }
}
