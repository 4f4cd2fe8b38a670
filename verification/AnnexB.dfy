/** Splitting an Annex B byte stream of ITU-T H.264 into NAL units (src/rtsp/service.rs). */
module AnnexB {
  import opened Prelude

  type Bytes = seq<Byte>

  predicate Code3At(d: Bytes, i: nat) {
    i + 3 <= |d| && d[i] == 0 && d[i + 1] == 0 && d[i + 2] == 1
  }

  predicate Code4At(d: Bytes, i: nat) {
    i + 4 <= |d| && d[i] == 0 && d[i + 1] == 0 && d[i + 2] == 0 && d[i + 3] == 1
  }

  predicate CodeAt(d: Bytes, i: nat) {
    Code4At(d, i) || Code3At(d, i)
  }

  /** The first start code at or after i, and its length. */
  function FindFrom(d: Bytes, i: nat): (r: Option<(nat, nat)>)
    decreases |d| - i
  {
    if i + 3 > |d| then None
    else if Code4At(d, i) then Some((i, 4))
    else if Code3At(d, i) then Some((i, 3))
    else FindFrom(d, i + 1)
  }

  method FindAnnexBStartCode(d: Bytes, from: nat) returns (r: Option<(nat, nat)>)
    ensures r == FindFrom(d, from)
  {
    if from >= |d| {
      return None;
    }
    var i := from;
    while i + 3 <= |d|
      invariant from <= i && FindFrom(d, i) == FindFrom(d, from)
    {
      if i + 4 <= |d| && d[i] == 0 && d[i + 1] == 0 && d[i + 2] == 0 && d[i + 3] == 1 {
        return Some((i, 4));
      }
      if d[i] == 0 && d[i + 1] == 0 && d[i + 2] == 1 {
        return Some((i, 3));
      }
      i := i + 1;
    }
    return None;
  }

  /** What the search means: it stops at the first place where a code starts. */
  lemma {:induction false} FindFirst(d: Bytes, i: nat)
    ensures match FindFrom(d, i)
            case None => forall t :: i <= t ==> !CodeAt(d, t)
            case Some((s, len)) =>
              && i <= s && CodeAt(d, s) && len == (if Code4At(d, s) then 4 else 3) && s + len <= |d|
              && forall t :: i <= t < s ==> !CodeAt(d, t)
    decreases |d| - i
  {
    if i + 3 <= |d| && !CodeAt(d, i) {
      FindFirst(d, i + 1);
    }
  }

  lemma FindIs(d: Bytes, i: nat, s: nat)
    requires i <= s && CodeAt(d, s) && forall t :: i <= t < s ==> !CodeAt(d, t)
    ensures FindFrom(d, i) == Some((s, if Code4At(d, s) then 4 else 3))
  {
    FindFirst(d, i);
  }

  /* ---- The splitter ---- */

  /** A slice of the stream. */
  datatype Slice = Slice(start: nat, end: nat)

  function TrimZeros(d: Bytes, start: nat, end: nat): (e: nat)
    requires start <= end <= |d|
    ensures start <= e <= end
    ensures forall p :: e <= p < end ==> d[p] == 0
    ensures e > start ==> d[e - 1] != 0
  {
    if end > start && d[end - 1] == 0 then TrimZeros(d, start, end - 1) else end
  }

  function NextStart(d: Bytes, nalStart: nat): (next: nat)
    requires nalStart <= |d|
    ensures nalStart <= next <= |d|
    ensures forall t :: nalStart <= t < next ==> !CodeAt(d, t)
    ensures next < |d| ==> FindFrom(d, nalStart).Some? && CodeAt(d, next)
    ensures FindFrom(d, nalStart).Some? ==> next == FindFrom(d, nalStart).value.0
  {
    FindFirst(d, nalStart);
    match FindFrom(d, nalStart)
    case Some((idx, _)) => idx
    case None => |d|
  }

  function SplitFrom(d: Bytes, cursor: nat): seq<Slice>
    decreases |d| - cursor
  {
    FindFirst(d, cursor);
    match FindFrom(d, cursor)
    case None => []
    case Some((s, len)) =>
      var nalStart := s + len;
      if nalStart >= |d| then []
      else
        var next := NextStart(d, nalStart);
        var nalEnd := TrimZeros(d, nalStart, next);
        (if nalEnd > nalStart then [Slice(nalStart, nalEnd)] else []) + SplitFrom(d, next)
  }

  lemma SplitUnfolds(d: Bytes, cursor: nat)
    ensures match FindFrom(d, cursor)
            case None => SplitFrom(d, cursor) == []
            case Some((s, len)) =>
              && cursor < s + len <= |d|
              && if s + len == |d| then SplitFrom(d, cursor) == []
                 else
                   var next := NextStart(d, s + len);
                   var nalEnd := TrimZeros(d, s + len, next);
                   SplitFrom(d, cursor) ==
                   (if nalEnd > s + len then [Slice(s + len, nalEnd)] else []) + SplitFrom(d, next)
  {
    FindFirst(d, cursor);
  }

  method SplitAnnexBNalUnits(d: Bytes) returns (units: seq<Slice>)
    ensures units == SplitFrom(d, 0)
  {
    hide SplitFrom, FindFrom;
    units := [];
    var cursor := 0;
    while true
      invariant units + SplitFrom(d, cursor) == SplitFrom(d, 0)
      decreases |d| - cursor
    {
      SplitUnfolds(d, cursor);
      var code := FindAnnexBStartCode(d, cursor);
      if code.None? { break; }
      var (start, len) := code.value;
      var nalStart := start + len;
      if nalStart >= |d| { break; }
      var following := FindAnnexBStartCode(d, nalStart);
      var next := if following.Some? then following.value.0 else |d|;
      assert next == NextStart(d, nalStart);
      var nalEnd := next;
      while nalEnd > nalStart && d[nalEnd - 1] == 0
        invariant nalStart <= nalEnd <= next
        invariant TrimZeros(d, nalStart, nalEnd) == TrimZeros(d, nalStart, next)
      {
        nalEnd := nalEnd - 1;
      }
      if nalEnd > nalStart {
        units := units + [Slice(nalStart, nalEnd)];
      }
      cursor := next;
    }
  }

  /* ---- Any input ---- */

  /** A slice that is a NAL unit: not empty, free of start codes, not ending in a zero. */
  predicate CleanUnit(d: Bytes, u: Slice) {
    && u.start < u.end <= |d| && d[u.end - 1] != 0
    && forall t :: u.start <= t && t + 3 <= u.end ==> !Code3At(d, t)
  }

  /** The slices lie one after the other from a position on. */
  predicate InOrder(units: seq<Slice>, from: nat) {
    forall i :: 0 <= i < |units| ==>
      && from <= units[i].start
      && forall j :: i < j < |units| ==> units[i].end <= units[j].start
  }

  predicate AllClean(d: Bytes, units: seq<Slice>) {
    forall i :: 0 <= i < |units| ==> CleanUnit(d, units[i])
  }

  lemma {:induction false} SplitIsClean(d: Bytes, cursor: nat)
    ensures InOrder(SplitFrom(d, cursor), cursor) && AllClean(d, SplitFrom(d, cursor))
    decreases |d| - cursor
  {
    hide SplitFrom, FindFrom;
    SplitUnfolds(d, cursor);
    FindFirst(d, cursor);
    if FindFrom(d, cursor).Some? {
      var (s, len) := FindFrom(d, cursor).value;
      if s + len < |d| {
        var next := NextStart(d, s + len);
        SplitIsClean(d, next);
        UnitIsClean(d, s + len, next);
        UnitsCons(d, SplitFrom(d, next), cursor, s + len, next);
      }
    }
  }

  function FirstUnit(d: Bytes, nalStart: nat, next: nat): seq<Slice>
    requires nalStart <= next <= |d|
  {
    var nalEnd := TrimZeros(d, nalStart, next);
    if nalEnd > nalStart then [Slice(nalStart, nalEnd)] else []
  }

  lemma UnitIsClean(d: Bytes, nalStart: nat, next: nat)
    requires nalStart <= next <= |d| && forall t :: nalStart <= t < next ==> !CodeAt(d, t)
    ensures AllClean(d, FirstUnit(d, nalStart, next))
  {
    forall t | nalStart <= t < next ensures !Code3At(d, t) { assert !CodeAt(d, t); }
  }

  lemma UnitsCons(d: Bytes, later: seq<Slice>, from: nat, nalStart: nat, next: nat)
    requires from <= nalStart <= next <= |d|
    requires InOrder(later, next) && AllClean(d, later) && AllClean(d, FirstUnit(d, nalStart, next))
    ensures InOrder(FirstUnit(d, nalStart, next) + later, from) && AllClean(d, FirstUnit(d, nalStart, next) + later)
  {
    hide CleanUnit;
    assert forall i :: 0 <= i < |later| ==> next <= later[i].start;
  }

  predicate InSlices(units: seq<Slice>, p: nat) {
    exists i :: 0 <= i < |units| && units[i].start <= p < units[i].end
  }

  /** The closing byte of a start code. */
  predicate ClosesCode(d: Bytes, p: nat) {
    p >= 2 && Code3At(d, p - 2)
  }

  /** From the first start code on, the splitter leaves out nothing but zeros and start codes. */
  lemma {:induction false} SplitLeavesOutNothing(d: Bytes, cursor: nat, p: nat)
    requires FindFrom(d, cursor).Some? && FindFrom(d, cursor).value.0 <= p < |d|
    ensures InSlices(SplitFrom(d, cursor), p) || d[p] == 0 || ClosesCode(d, p)
    decreases |d| - cursor
  {
    hide SplitFrom, FindFrom;
    SplitUnfolds(d, cursor);
    FindFirst(d, cursor);
    var (s, len) := FindFrom(d, cursor).value;
    var nalStart := s + len;
    if p >= nalStart {
      var next := NextStart(d, nalStart);
      var nalEnd := TrimZeros(d, nalStart, next);
      var units, later := SplitFrom(d, cursor), SplitFrom(d, next);
      if p < nalEnd {
        assert units[0] == Slice(nalStart, nalEnd);
      } else if p >= next {
        FindFirst(d, next);
        SplitLeavesOutNothing(d, next, p);
        if InSlices(later, p) {
          var i :| 0 <= i < |later| && later[i].start <= p < later[i].end;
          assert units[i + |units| - |later|] == later[i];
        }
      }
    }
  }

  /** Before the first start code nothing is returned. */
  lemma SplitStartsAfterCode(d: Bytes, cursor: nat)
    ensures match FindFrom(d, cursor)
            case None => SplitFrom(d, cursor) == []
            case Some((s, len)) => InOrder(SplitFrom(d, cursor), s + len)
  {
    hide SplitFrom, FindFrom;
    SplitUnfolds(d, cursor);
    FindFirst(d, cursor);
    if FindFrom(d, cursor).Some? {
      var (s, len) := FindFrom(d, cursor).value;
      if s + len < |d| {
        var next := NextStart(d, s + len);
        SplitIsClean(d, next);
        UnitIsClean(d, s + len, next);
        UnitsCons(d, SplitFrom(d, next), s + len, s + len, next);
      }
    }
  }

  /* ---- Joining ---- */

  /** A NAL unit as the standard allows it, and how many zeros stand before it: two of them and a one
      make a start code, a third makes the four-byte form, more are padding. */
  datatype Unit = Unit(zeros: nat, nal: Bytes)

  predicate GoodUnit(u: Unit) {
    && u.zeros >= 2 && u.nal != [] && u.nal[|u.nal| - 1] != 0
    && forall t :: 0 <= t < |u.nal| ==> !Code3At(u.nal, t)
  }

  ghost predicate GoodUnits(units: seq<Unit>) {
    forall i :: 0 <= i < |units| ==> GoodUnit(units[i])
  }

  function Zeros(n: nat): Bytes {
    seq(n, _ => 0)
  }

  /** The stream of some units, with zeros after the last. */
  function Join(units: seq<Unit>, trailing: nat): Bytes {
    if units == [] then Zeros(trailing)
    else Zeros(units[0].zeros) + [1] + units[0].nal + Join(units[1..], trailing)
  }

  /** The bytes a slice stands for. */
  predicate HoldsNal(d: Bytes, u: Slice, nal: Bytes) {
    u.start <= u.end <= |d| && d[u.start..u.end] == nal
  }

  function SatSub3(k: nat): nat {
    if k >= 3 then k - 3 else 0
  }

  /** Where the pieces of a joined stream stand. */
  lemma Layout(d: Bytes, c: nat, k: nat, nal: Bytes, later: Bytes)
    requires c <= |d| && d[c..] == Zeros(k) + [1] + nal + later
    ensures |d| == c + k + 1 + |nal| + |later|
    ensures forall p :: c <= p < c + k ==> d[p] == 0
    ensures d[c + k] == 1
    ensures d[c + k + 1..c + k + 1 + |nal|] == nal
    ensures d[c + k + 1 + |nal|..] == later
  {
    var tail := d[c..];
    assert forall i :: 0 <= i < |tail| ==> d[c + i] == tail[i];
    assert tail[k + 1..k + 1 + |nal|] == nal && tail[k + 1 + |nal|..] == later;
    forall p | c <= p < c + k ensures d[p] == 0 { assert d[p] == tail[p - c]; }
  }

  /** The search in terms of the first three-byte code: a zero before it makes it a four-byte one. */
  lemma FindVia3(d: Bytes, i: nat, q: nat)
    requires i <= q && Code3At(d, q) && forall t :: i <= t < q ==> !Code3At(d, t)
    ensures FindFrom(d, i) == if q > i && d[q - 1] == 0 then Some((q - 1, 4)) else Some((q, 3))
  {
    var s := if q > i && d[q - 1] == 0 then q - 1 else q;
    forall t | i <= t < s ensures !CodeAt(d, t) {
      assert !Code3At(d, t) && (Code4At(d, t) ==> Code3At(d, t + 1));
    }
    FindIs(d, i, s);
  }

  /** No code starts in a NAL unit or in zeros after it. */
  lemma NoCodeInUnit(d: Bytes, n: nat, nal: Bytes, zeros: nat)
    requires GoodUnit(Unit(2, nal)) && n + |nal| + zeros <= |d| && d[n..n + |nal|] == nal
    requires forall p :: n + |nal| <= p < n + |nal| + zeros ==> d[p] == 0
    ensures forall t :: n <= t && t + 2 < n + |nal| + zeros ==> !Code3At(d, t)
  {
    forall t | n <= t && t + 2 < n + |nal| + zeros ensures !Code3At(d, t) {
      assert forall i :: 0 <= i < |nal| ==> d[n + i] == nal[i];
      if Code3At(d, t) && t + 2 < n + |nal| {
        assert Code3At(nal, t - n);
      }
    }
  }

  lemma {:induction false} FindNone(d: Bytes, i: nat)
    requires forall t :: i <= t && t + 2 < |d| ==> !Code3At(d, t)
    ensures FindFrom(d, i) == None
    decreases |d| - i
  {
    if i + 3 <= |d| {
      assert !Code3At(d, i) && (Code4At(d, i) ==> Code3At(d, i + 1));
      FindNone(d, i + 1);
    }
  }

  lemma TrimIs(d: Bytes, n: nat, end: nat, next: nat)
    requires n < end <= next <= |d| && d[end - 1] != 0 && forall p :: end <= p < next ==> d[p] == 0
    ensures TrimZeros(d, n, next) == end
  {
    var e := TrimZeros(d, n, next);
  }

  /** Zeros, a one and a NAL unit stand at position c. */
  predicate UnitAt(d: Bytes, c: nat, unit: Unit) {
    && c + unit.zeros + 1 + |unit.nal| <= |d|
    && (forall p :: c <= p < c + unit.zeros ==> d[p] == 0)
    && d[c + unit.zeros] == 1
    && d[c + unit.zeros + 1..c + unit.zeros + 1 + |unit.nal|] == unit.nal
  }

  function NalStart(c: nat, unit: Unit): nat {
    c + unit.zeros + 1
  }

  function NalEnd(c: nat, unit: Unit): nat {
    NalStart(c, unit) + |unit.nal|
  }

  /** The search finds the last three zeros before the one, or both if there are but two. */
  lemma FindUnit(d: Bytes, from: nat, c: nat, unit: Unit)
    requires UnitAt(d, c, unit) && unit.zeros >= 2 && from <= c
    requires from == c || d[c - 1] != 0
    requires forall t :: from <= t < c + unit.zeros - 2 ==> !Code3At(d, t)
    ensures FindFrom(d, from) == Some((c + SatSub3(unit.zeros), if unit.zeros >= 3 then 4 else 3))
  {
    FindVia3(d, from, c + unit.zeros - 2);
  }

  /** One turn of the splitter at a unit, with the next stop known. */
  lemma SplitAtUnit(d: Bytes, c: nat, unit: Unit, next: nat)
    requires UnitAt(d, c, unit) && GoodUnit(unit)
    requires NalEnd(c, unit) <= next <= |d| && next == NextStart(d, NalStart(c, unit))
    requires forall p :: NalEnd(c, unit) <= p < next ==> d[p] == 0
    ensures SplitFrom(d, c) == [Slice(NalStart(c, unit), NalEnd(c, unit))] + SplitFrom(d, next)
  {
    hide SplitFrom, FindFrom, TrimZeros, NextStart;
    forall t | c <= t < c + unit.zeros - 2 ensures !Code3At(d, t) { assert d[t + 2] == 0; }
    FindUnit(d, c, c, unit);
    LastOfNal(d, c, unit);
    TrimIs(d, NalStart(c, unit), NalEnd(c, unit), next);
    SplitUnfolds(d, c);
  }

  lemma LastOfNal(d: Bytes, c: nat, unit: Unit)
    requires UnitAt(d, c, unit) && GoodUnit(unit)
    ensures d[NalEnd(c, unit) - 1] != 0
  {
    assert d[NalEnd(c, unit) - 1] == d[NalStart(c, unit)..NalEnd(c, unit)][|unit.nal| - 1];
  }

  /** The last unit of the stream. */
  lemma SplitLast(d: Bytes, c: nat, unit: Unit)
    requires UnitAt(d, c, unit) && GoodUnit(unit)
    requires forall p :: NalEnd(c, unit) <= p < |d| ==> d[p] == 0
    ensures SplitFrom(d, c) == [Slice(NalStart(c, unit), NalEnd(c, unit))]
  {
    var n := NalStart(c, unit);
    NoCodeInUnit(d, n, unit.nal, |d| - NalEnd(c, unit));
    FindNone(d, n);
    FindNone(d, |d|);
    SplitAtUnit(d, c, unit, |d|);
    SplitUnfolds(d, |d|);
  }

  /** A unit with another one right after it: the split goes on at that one's code, with at most
      three of its zeros left before it. */
  lemma SplitNotLast(d: Bytes, c: nat, unit: Unit, unit': Unit)
    requires UnitAt(d, c, unit) && GoodUnit(unit)
    requires UnitAt(d, NalEnd(c, unit), unit') && GoodUnit(unit')
    ensures SplitFrom(d, c) ==
            [Slice(NalStart(c, unit), NalEnd(c, unit))] + SplitFrom(d, NalEnd(c, unit) + SatSub3(unit'.zeros))
  {
    hide SplitFrom, FindFrom;
    var n, end := NalStart(c, unit), NalEnd(c, unit);
    NoCodeInUnit(d, n, unit.nal, unit'.zeros);
    LastOfNal(d, c, unit);
    FindUnit(d, n, end, unit');
    SplitAtUnit(d, c, unit, end + SatSub3(unit'.zeros));
  }

  /** The units of a stream, one after the other from position c, and zeros after the last. */
  predicate UnitsAt(d: Bytes, c: nat, units: seq<Unit>)
    decreases |units|
  {
    if units == [] then c <= |d| && forall p :: c <= p < |d| ==> d[p] == 0
    else UnitAt(d, c, units[0]) && UnitsAt(d, NalEnd(c, units[0]), units[1..])
  }

  lemma {:induction false} JoinedUnits(d: Bytes, c: nat, units: seq<Unit>, trailing: nat)
    requires c <= |d| && d[c..] == Join(units, trailing)
    ensures UnitsAt(d, c, units)
    decreases |units|
  {
    if units == [] {
      forall p | c <= p < |d| ensures d[p] == 0 { assert d[p] == d[c..][p - c]; }
    } else {
      Layout(d, c, units[0].zeros, units[0].nal, Join(units[1..], trailing));
      JoinedUnits(d, NalEnd(c, units[0]), units[1..], trailing);
    }
  }

  /** Slice by slice, the split from position c holds the units' NALs. */
  predicate HoldsNals(d: Bytes, slices: seq<Slice>, units: seq<Unit>) {
    |slices| == |units| && forall i :: 0 <= i < |units| ==> HoldsNal(d, slices[i], units[i].nal)
  }

  /** The same units with at most three zeros before the first. */
  function Shorter(units: seq<Unit>): seq<Unit>
    requires units != []
  {
    [units[0].(zeros := units[0].zeros - SatSub3(units[0].zeros))] + units[1..]
  }

  lemma ShorterAt(d: Bytes, c: nat, units: seq<Unit>)
    requires units != [] && UnitsAt(d, c, units) && GoodUnits(units)
    ensures UnitsAt(d, c + SatSub3(units[0].zeros), Shorter(units)) && GoodUnits(Shorter(units))
  {
    assert Shorter(units)[1..] == units[1..];
    forall i | 0 <= i < |units| ensures GoodUnit(Shorter(units)[i]) { assert GoodUnit(units[i]); }
  }

  lemma {:induction false} SplitAtMostOne(d: Bytes, c: nat, units: seq<Unit>)
    requires UnitsAt(d, c, units) && GoodUnits(units) && |units| <= 1
    ensures HoldsNals(d, SplitFrom(d, c), units)
  {
    hide SplitFrom, FindFrom;
    if units == [] {
      FindNone(d, c);
      SplitUnfolds(d, c);
    } else {
      SplitLast(d, c, units[0]);
    }
  }

  lemma {:induction false} SplitUnits(d: Bytes, c: nat, units: seq<Unit>)
    requires UnitsAt(d, c, units) && GoodUnits(units)
    ensures HoldsNals(d, SplitFrom(d, c), units)
    decreases |units|
  {
    hide SplitFrom, FindFrom, GoodUnit, HoldsNal;
    if |units| <= 1 {
      SplitAtMostOne(d, c, units);
    } else {
      var next := NalEnd(c, units[0]) + SatSub3(units[1].zeros);
      SplitNotLast(d, c, units[0], units[1]);
      ShorterAt(d, NalEnd(c, units[0]), units[1..]);
      SplitUnits(d, next, Shorter(units[1..]));
      HoldsNalsCons(d, Slice(NalStart(c, units[0]), NalEnd(c, units[0])), SplitFrom(d, next), units);
    }
  }

  lemma HoldsNalsCons(d: Bytes, first: Slice, later: seq<Slice>, units: seq<Unit>)
    requires |units| > 1 && HoldsNal(d, first, units[0].nal) && HoldsNals(d, later, Shorter(units[1..]))
    ensures HoldsNals(d, [first] + later, units)
  {
    forall i | 0 < i < |units| ensures HoldsNal(d, later[i - 1], units[i].nal) {
      assert Shorter(units[1..])[i - 1].nal == units[i].nal;
    }
  }

  /** Splitting undoes joining: the NAL units come back, whatever mix of start codes and padding
      zeros stood between them. */
  lemma SplitUndoesJoin(units: seq<Unit>, trailing: nat)
    requires GoodUnits(units)
    ensures var d := Join(units, trailing); HoldsNals(d, SplitFrom(d, 0), units)
  {
    var d := Join(units, trailing);
    assert d[0..] == d;
    JoinedUnits(d, 0, units, trailing);
    SplitUnits(d, 0, units);
  }
}
