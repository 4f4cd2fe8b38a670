/** The HID event queue (src/hid/mod.rs): many producers, a bounded channel, one slot for the latest
    mouse move that found the channel full, a flag that says the slot may be filled, and one worker.
    Each step below is one atomic action of the program; a run is any interleaving of steps. The
    last fields of a state record what has happened and steer nothing. */
module HidQueue {
  import opened Prelude

  const CAPACITY := 64

  /** An event; its id is its place in the order of submission. */
  datatype Event = Event(id: nat, isMove: bool)

  /** Where a producer stands in `enqueue_mouse_move` or `enqueue_event`. */
  datatype Producer =
    | Idle
    | Sending(ev: Event)      // before try_send
    | Refused(ev: Event)      // a move, after a full channel and before the write to the slot
    | Storing                 // after the write to the slot and before the store to the flag
    | Waiting(ev: Event)      // not a move, in the timed send

  /** Where the worker stands in its loop. */
  datatype Worker =
    | Receiving
    | Processing(ev: Event)   // an event from the channel
    | Swapping                // before the swap of the flag
    | Taking                  // after a swap that found it set, before the take from the slot
    | Flushing(ev: Event)     // the move from the slot

  datatype Done = FromQueue(ev: Event) | FromSlot(ev: Event)

  datatype Fate = Pending | Taken | Superseded

  /** A write to the slot and what has become of it. */
  datatype Write = Write(ev: Event, fate: Fate)

  datatype State = State(
    queue: seq<Event>, slot: Option<Event>, flag: bool, producers: seq<Producer>, worker: Worker,
    submitted: seq<Event>, accepted: seq<Event>, done: seq<Done>, writes: seq<Write>, dropped: seq<Event>)

  function Init(n: nat): State {
    State([], None, false, seq(n, _ => Idle), Receiving, [], [], [], [], [])
  }

  datatype Step =
    | Submit(p: nat, isMove: bool) | TrySend(p: nat) | Refuse(p: nat)
    | WriteSlot(p: nat) | StoreFlag(p: nat)
    | SendWaiting(p: nat) | TimeOut(p: nat)
    | Receive | Finish | Swap | Take | FinishFlush

  predicate At(s: State, p: nat) {
    p < |s.producers|
  }

  /** The channel turns a try_send away: it is full, or a freed place is kept for a waiting sender. */
  predicate Turned(s: State) {
    |s.queue| == CAPACITY || exists q :: 0 <= q < |s.producers| && s.producers[q].Waiting?
  }

  predicate Enabled(s: State, step: Step) {
    match step
    case Submit(p, _) => At(s, p) && s.producers[p].Idle?
    case TrySend(p) => At(s, p) && s.producers[p].Sending? && |s.queue| < CAPACITY
    case Refuse(p) => At(s, p) && s.producers[p].Sending? && Turned(s)
    case WriteSlot(p) => At(s, p) && s.producers[p].Refused?
    case StoreFlag(p) => At(s, p) && s.producers[p].Storing?
    case SendWaiting(p) => At(s, p) && s.producers[p].Waiting? && |s.queue| < CAPACITY
    case TimeOut(p) => At(s, p) && s.producers[p].Waiting?
    case Receive => s.worker.Receiving? && s.queue != []
    case Finish => s.worker.Processing?
    case Swap => s.worker.Swapping?
    case Take => s.worker.Taking?
    case FinishFlush => s.worker.Flushing?
  }

  /** The fate of the write that was pending, if the last one was. */
  function Settle(writes: seq<Write>, fate: Fate): seq<Write> {
    if writes != [] && writes[|writes| - 1].fate == Pending
    then writes[..|writes| - 1] + [writes[|writes| - 1].(fate := fate)]
    else writes
  }

  function Next(s: State, step: Step): State
    requires Enabled(s, step)
  {
    match step
    case Submit(p, isMove) =>
      var ev := Event(|s.submitted|, isMove);
      s.(producers := s.producers[p := Sending(ev)], submitted := s.submitted + [ev])
    case TrySend(p) =>
      var ev := s.producers[p].ev;
      s.(producers := s.producers[p := Idle], queue := s.queue + [ev], accepted := s.accepted + [ev])
    case Refuse(p) =>
      var ev := s.producers[p].ev;
      s.(producers := s.producers[p := if ev.isMove then Refused(ev) else Waiting(ev)])
    case WriteSlot(p) =>
      var ev := s.producers[p].ev;
      s.(producers := s.producers[p := Storing], slot := Some(ev),
         writes := Settle(s.writes, Superseded) + [Write(ev, Pending)])
    case StoreFlag(p) => s.(producers := s.producers[p := Idle], flag := true)
    case SendWaiting(p) =>
      var ev := s.producers[p].ev;
      s.(producers := s.producers[p := Idle], queue := s.queue + [ev], accepted := s.accepted + [ev])
    case TimeOut(p) =>
      s.(producers := s.producers[p := Idle], dropped := s.dropped + [s.producers[p].ev])
    case Receive => s.(queue := s.queue[1..], worker := Processing(s.queue[0]))
    case Finish => s.(worker := Swapping, done := s.done + [FromQueue(s.worker.ev)])
    case Swap => s.(flag := false, worker := if s.flag then Taking else Receiving)
    case Take =>
      s.(slot := None, writes := Settle(s.writes, Taken),
         worker := if s.slot.Some? then Flushing(s.slot.value) else Receiving)
    case FinishFlush => s.(worker := Receiving, done := s.done + [FromSlot(s.worker.ev)])
  }

  /** The state a sequence of steps leads to, if each of them can be taken. */
  function Exec(s: State, steps: seq<Step>): Option<State>
    decreases |steps|
  {
    if steps == [] then Some(s)
    else if Enabled(s, steps[0]) then Exec(Next(s, steps[0]), steps[1..])
    else None
  }

  ghost predicate Reachable(s: State) {
    exists n: nat, steps: seq<Step> :: Exec(Init(n), steps) == Some(s)
  }

  /* ---- Order ---- */

  function QueueEvents(done: seq<Done>): seq<Event> {
    if done == [] then []
    else QueueEvents(done[..|done| - 1]) + match done[|done| - 1] case FromQueue(ev) => [ev] case FromSlot(_) => []
  }

  function SlotEvents(done: seq<Done>): seq<Event> {
    if done == [] then []
    else SlotEvents(done[..|done| - 1]) + match done[|done| - 1] case FromSlot(ev) => [ev] case FromQueue(_) => []
  }

  function NonMoves(done: seq<Done>): seq<Event> {
    if done == [] then []
    else NonMoves(done[..|done| - 1]) + if done[|done| - 1].ev.isMove then [] else [done[|done| - 1].ev]
  }

  function OnlyNonMoves(events: seq<Event>): seq<Event> {
    if events == [] then []
    else OnlyNonMoves(events[..|events| - 1]) + if events[|events| - 1].isMove then [] else [events[|events| - 1]]
  }

  function Received(w: Worker): seq<Event> {
    if w.Processing? then [w.ev] else []
  }

  /** What came out of the channel, what the worker has of it and what is still in it: together, what
      went in, in that order. */
  ghost predicate InOrder(s: State) {
    && |s.queue| <= CAPACITY
    && s.accepted == QueueEvents(s.done) + Received(s.worker) + s.queue
  }

  lemma DoneSnoc(done: seq<Done>, d: Done)
    ensures QueueEvents(done + [d]) == QueueEvents(done) + (if d.FromQueue? then [d.ev] else [])
    ensures SlotEvents(done + [d]) == SlotEvents(done) + (if d.FromSlot? then [d.ev] else [])
    ensures NonMoves(done + [d]) == NonMoves(done) + (if d.ev.isMove then [] else [d.ev])
  {
    assert (done + [d])[..|done|] == done;
  }

  lemma OrderKept(s: State, step: Step)
    requires InOrder(s) && Enabled(s, step)
    ensures InOrder(Next(s, step))
  {
    hide QueueEvents, Settle, Turned;
    var before, w := QueueEvents(s.done), Received(s.worker);
    if step.Finish? {
      DoneSnoc(s.done, FromQueue(s.worker.ev));
      assert w == [s.worker.ev];
    } else if step.FinishFlush? {
      DoneSnoc(s.done, FromSlot(s.worker.ev));
      assert before + [] == before;
    } else if step.Receive? {
      assert before + [] + s.queue == before + [s.queue[0]] + s.queue[1..];
    } else if step.TrySend? || step.SendWaiting? {
      var ev := s.producers[step.p].ev;
      assert before + w + s.queue + [ev] == before + w + (s.queue + [ev]);
    }
  }

  /* ---- The slot ---- */

  function TakenWrites(writes: seq<Write>): seq<Event> {
    if writes == [] then []
    else TakenWrites(writes[..|writes| - 1]) + if writes[|writes| - 1].fate == Taken then [writes[|writes| - 1].ev] else []
  }

  function SupersededWrites(writes: seq<Write>): seq<Event> {
    if writes == [] then []
    else SupersededWrites(writes[..|writes| - 1])
         + if writes[|writes| - 1].fate == Superseded then [writes[|writes| - 1].ev] else []
  }

  function Flushed(w: Worker): seq<Event> {
    if w.Flushing? then [w.ev] else []
  }

  /** The slot holds the latest write while that is pending; every superseded write has a later one;
      only moves get there. */
  ghost predicate WritesFit(writes: seq<Write>, slot: Option<Event>) {
    && (forall i :: 0 <= i < |writes| ==> writes[i].ev.isMove)
    && (forall i :: 0 <= i < |writes| - 1 ==> writes[i].fate != Pending)
    && (slot == if writes != [] && writes[|writes| - 1].fate == Pending then Some(writes[|writes| - 1].ev) else None)
    && (writes != [] ==> writes[|writes| - 1].fate != Superseded)
  }

  /** Refused by the full channel, a move goes on to the slot and any other event waits. */
  ghost predicate RefusedAreMoves(ps: seq<Producer>) {
    forall p :: 0 <= p < |ps| ==> (ps[p].Refused? ==> ps[p].ev.isMove) && (ps[p].Waiting? ==> !ps[p].ev.isMove)
  }

  /** What was taken out of the slot was taken in the order of the writes. */
  ghost predicate SlotTracked(s: State) {
    && WritesFit(s.writes, s.slot) && RefusedAreMoves(s.producers)
    && TakenWrites(s.writes) == SlotEvents(s.done) + Flushed(s.worker)
  }

  lemma WritesSnoc(writes: seq<Write>, w: Write)
    ensures TakenWrites(writes + [w]) == if w.fate == Taken then TakenWrites(writes) + [w.ev] else TakenWrites(writes)
    ensures SupersededWrites(writes + [w]) ==
            if w.fate == Superseded then SupersededWrites(writes) + [w.ev] else SupersededWrites(writes)
  {
    assert (writes + [w])[..|writes|] == writes;
  }

  lemma Settled(writes: seq<Write>, fate: Fate)
    requires fate != Pending
    ensures var settled, last := Settle(writes, fate), |writes| - 1;
            if writes != [] && writes[last].fate == Pending then
              && TakenWrites(settled) == (if fate == Taken then TakenWrites(writes) + [writes[last].ev] else TakenWrites(writes))
              && SupersededWrites(settled) ==
                 (if fate == Superseded then SupersededWrites(writes) + [writes[last].ev] else SupersededWrites(writes))
            else settled == writes
  {
    if writes != [] && writes[|writes| - 1].fate == Pending {
      WritesSnoc(writes[..|writes| - 1], writes[|writes| - 1].(fate := fate));
    }
  }

  lemma SlotKept(s: State, step: Step)
    requires SlotTracked(s) && Enabled(s, step)
    ensures SlotTracked(Next(s, step))
  {
    hide SlotTracked, Next;
    if step.WriteSlot? {
      SlotWritten(s, step.p);
    } else if step.Take? {
      SlotTaken(s);
    } else if step.Receive? || step.Finish? || step.Swap? || step.FinishFlush? {
      SlotPassedBy(s, step);
    } else {
      SlotNotTouched(s, step);
    }
  }

  lemma SlotPassedBy(s: State, step: Step)
    requires SlotTracked(s) && Enabled(s, step)
    requires step.Receive? || step.Finish? || step.Swap? || step.FinishFlush?
    ensures SlotTracked(Next(s, step))
  {
    hide WritesFit, RefusedAreMoves, TakenWrites, SlotEvents, Turned, Settle;
    if step.Finish? {
      DoneSnoc(s.done, FromQueue(s.worker.ev));
    } else if step.FinishFlush? {
      DoneSnoc(s.done, FromSlot(s.worker.ev));
    }
  }

  lemma SlotNotTouched(s: State, step: Step)
    requires SlotTracked(s) && Enabled(s, step)
    requires step.Submit? || step.TrySend? || step.Refuse? || step.StoreFlag? || step.SendWaiting? || step.TimeOut?
    ensures SlotTracked(Next(s, step))
  {
    hide WritesFit, TakenWrites, SlotEvents, Turned, Settle;
  }

  lemma SlotWritten(s: State, p: nat)
    requires SlotTracked(s) && Enabled(s, WriteSlot(p))
    ensures SlotTracked(Next(s, WriteSlot(p)))
  {
    hide WritesFit, TakenWrites, SlotEvents, Turned, Settle;
    var w := Write(s.producers[p].ev, Pending);
    WriteFits(s.writes, s.slot, w);
    WriteTakesNone(s.writes, w);
  }

  /** The writes after a new one: the one before it is settled if it was pending. */
  lemma WriteFits(writes: seq<Write>, slot: Option<Event>, w: Write)
    requires WritesFit(writes, slot) && w.fate == Pending && w.ev.isMove
    ensures WritesFit(Settle(writes, Superseded) + [w], Some(w.ev))
  {
  }

  lemma WriteTakesNone(writes: seq<Write>, w: Write)
    requires w.fate == Pending
    ensures TakenWrites(Settle(writes, Superseded) + [w]) == TakenWrites(writes)
  {
    Settled(writes, Superseded);
    hide TakenWrites, SupersededWrites, Settle;
    WritesSnoc(Settle(writes, Superseded), w);
  }

  lemma SlotTaken(s: State)
    requires SlotTracked(s) && Enabled(s, Take)
    ensures SlotTracked(Next(s, Take))
  {
    hide WritesFit, RefusedAreMoves, TakenWrites, SlotEvents, Turned, Settle;
    TakeFits(s.writes, s.slot);
  }

  lemma TakeFits(writes: seq<Write>, slot: Option<Event>)
    requires WritesFit(writes, slot)
    ensures WritesFit(Settle(writes, Taken), None)
    ensures TakenWrites(Settle(writes, Taken)) == if slot.Some? then TakenWrites(writes) + [slot.value] else TakenWrites(writes)
  {
    hide TakenWrites, SupersededWrites;
    Settled(writes, Taken);
  }

  /* ---- The flag ---- */

  /** A filled slot is announced: the flag is set, or the producer that filled it is about to set it,
      or the worker has seen it set and is about to empty the slot. */
  ghost predicate Announced(s: State) {
    s.slot.Some? ==> s.flag || s.worker.Taking? || exists p :: 0 <= p < |s.producers| && s.producers[p].Storing?
  }

  lemma AnnouncedKept(s: State, step: Step)
    requires Announced(s) && Enabled(s, step)
    ensures Announced(Next(s, step))
  {
    var s' := Next(s, step);
    if step.WriteSlot? {
      assert s'.producers[step.p].Storing?;
    } else if s'.slot.Some? && !s'.flag && !s'.worker.Taking? {
      var p :| 0 <= p < |s.producers| && s.producers[p].Storing?;
      assert s'.producers[p].Storing?;
    }
  }

  /* ---- Conservation ---- */

  function One(here: bool): nat {
    if here then 1 else 0
  }

  function Occurs(events: seq<Event>, e: Event): nat {
    if events == [] then 0 else Occurs(events[..|events| - 1], e) + One(events[|events| - 1] == e)
  }

  predicate Holds(p: Producer, e: Event) {
    (p.Sending? || p.Refused? || p.Waiting?) && p.ev == e
  }

  function Held(ps: seq<Producer>, e: Event): nat {
    if ps == [] then 0 else Held(ps[..|ps| - 1], e) + One(Holds(ps[|ps| - 1], e))
  }

  predicate InFlight(w: Worker, e: Event) {
    (w.Processing? || w.Flushing?) && w.ev == e
  }

  function Handled(done: seq<Done>, e: Event): nat {
    if done == [] then 0 else Handled(done[..|done| - 1], e) + One(done[|done| - 1].ev == e)
  }

  /** How often an event is somewhere: with its producer, in the channel, with the worker, in the
      slot, superseded there, processed, dropped. */
  function Places(s: State, e: Event): nat {
    Held(s.producers, e) + Occurs(s.queue, e) + One(InFlight(s.worker, e)) + One(s.slot == Some(e))
    + Occurs(SupersededWrites(s.writes), e) + Handled(s.done, e) + Occurs(s.dropped, e)
  }

  ghost predicate Conserved(s: State) {
    && (forall e :: Places(s, e) == Occurs(s.submitted, e))
    && (forall i :: 0 <= i < |s.submitted| ==> s.submitted[i].id == i)
  }

  lemma OccursSnoc(events: seq<Event>, x: Event, e: Event)
    ensures Occurs(events + [x], e) == Occurs(events, e) + One(x == e)
  {
    assert (events + [x])[..|events|] == events;
  }

  lemma {:induction false} OccursCons(events: seq<Event>, e: Event)
    requires events != []
    ensures Occurs(events, e) == One(events[0] == e) + Occurs(events[1..], e)
    decreases |events|
  {
    var last := |events| - 1;
    if last == 0 {
      assert events[..0] == [] && events[1..] == [];
    } else {
      OccursCons(events[..last], e);
      assert events[..last][1..] == events[1..][..last - 1];
    }
  }

  lemma {:induction false} HeldUpdate(ps: seq<Producer>, p: nat, x: Producer, e: Event)
    requires p < |ps|
    ensures Held(ps[p := x], e) + One(Holds(ps[p], e)) == Held(ps, e) + One(Holds(x, e))
  {
    var last := |ps| - 1;
    if p == last {
      assert ps[p := x][..last] == ps[..last];
    } else {
      assert ps[p := x][..last] == ps[..last][p := x];
      HeldUpdate(ps[..last], p, x, e);
    }
  }

  lemma HandledSnoc(done: seq<Done>, d: Done, e: Event)
    ensures Handled(done + [d], e) == Handled(done, e) + One(d.ev == e)
  {
    assert (done + [d])[..|done|] == done;
  }

  /** A step moves an event from place to place and makes none but the one submitted. */
  lemma StepConserves(s: State, step: Step, e: Event)
    requires SlotTracked(s) && Enabled(s, step)
    ensures Places(Next(s, step), e) - Places(s, e)
         == Occurs(Next(s, step).submitted, e) - Occurs(s.submitted, e)
  {
    if step.Receive? || step.Finish? || step.Swap? || step.Take? || step.FinishFlush? {
      WorkerConserves(s, step, e);
    } else {
      ProducerConserves(s, step, e);
    }
  }

  lemma WorkerConserves(s: State, step: Step, e: Event)
    requires SlotTracked(s) && Enabled(s, step)
    requires step.Receive? || step.Finish? || step.Swap? || step.Take? || step.FinishFlush?
    ensures Places(Next(s, step), e) == Places(s, e) && Next(s, step).submitted == s.submitted
  {
    hide Held, Handled, Occurs, SupersededWrites, TakenWrites, SlotEvents;
    if step.Receive? {
      OccursCons(s.queue, e);
    } else if step.Finish? {
      HandledSnoc(s.done, FromQueue(s.worker.ev), e);
    } else if step.Take? {
      Settled(s.writes, Taken);
    } else if step.FinishFlush? {
      HandledSnoc(s.done, FromSlot(s.worker.ev), e);
    }
  }

  lemma ProducerConserves(s: State, step: Step, e: Event)
    requires SlotTracked(s) && Enabled(s, step)
    requires step.Submit? || step.TrySend? || step.Refuse? || step.WriteSlot? || step.StoreFlag?
          || step.SendWaiting? || step.TimeOut?
    ensures Places(Next(s, step), e) - Places(s, e)
         == Occurs(Next(s, step).submitted, e) - Occurs(s.submitted, e)
  {
    hide Held, Handled, Occurs, SupersededWrites, TakenWrites, SlotEvents, Turned, SlotTracked, Settle;
    var p := step.p;
    if step.TrySend? || step.SendWaiting? {
      SendConserves(s, p, e);
    } else if step.WriteSlot? {
      WriteConserves(s, p, e);
    } else {
      HeldUpdate(s.producers, p, Next(s, step).producers[p], e);
      if step.Submit? {
        OccursSnoc(s.submitted, Event(|s.submitted|, step.isMove), e);
      } else if step.TimeOut? {
        OccursSnoc(s.dropped, s.producers[p].ev, e);
      }
    }
  }

  lemma SendConserves(s: State, p: nat, e: Event)
    requires At(s, p) && (s.producers[p].Sending? || s.producers[p].Waiting?)
    ensures Held(s.producers[p := Idle], e) + Occurs(s.queue + [s.producers[p].ev], e)
         == Held(s.producers, e) + Occurs(s.queue, e)
  {
    HeldUpdate(s.producers, p, Idle, e);
    OccursSnoc(s.queue, s.producers[p].ev, e);
  }

  lemma WriteConserves(s: State, p: nat, e: Event)
    requires SlotTracked(s) && Enabled(s, WriteSlot(p))
    ensures var s' := Next(s, WriteSlot(p));
            (Held(s'.producers, e) + One(s'.slot == Some(e)) + Occurs(SupersededWrites(s'.writes), e)
             == Held(s.producers, e) + One(s.slot == Some(e)) + Occurs(SupersededWrites(s.writes), e))
  {
    hide Held, Occurs, SupersededWrites, TakenWrites, SlotEvents, Settle;
    HeldUpdate(s.producers, p, Storing, e);
    WriteCounts(s.writes, Write(s.producers[p].ev, Pending), e);
  }

  /** A new write supersedes the one that was pending, and no other. */
  lemma WriteCounts(writes: seq<Write>, w: Write, e: Event)
    requires w.fate == Pending
    ensures Occurs(SupersededWrites(Settle(writes, Superseded) + [w]), e) == Occurs(SupersededWrites(writes), e)
            + One(writes != [] && writes[|writes| - 1].fate == Pending && writes[|writes| - 1].ev == e)
  {
    Settled(writes, Superseded);
    hide Occurs, SupersededWrites, TakenWrites, Settle;
    WritesSnoc(Settle(writes, Superseded), w);
    if writes != [] {
      OccursSnoc(SupersededWrites(writes), writes[|writes| - 1].ev, e);
    }
  }

  lemma ConservedKept(s: State, step: Step)
    requires Conserved(s) && SlotTracked(s) && Enabled(s, step)
    ensures Conserved(Next(s, step))
  {
    hide Places, Occurs, SlotTracked;
    forall e ensures Places(Next(s, step), e) == Occurs(Next(s, step).submitted, e) {
      StepConserves(s, step, e);
    }
  }

  /* ---- Every run ---- */

  ghost predicate Invariant(s: State) {
    InOrder(s) && SlotTracked(s) && Announced(s) && Conserved(s)
  }

  lemma {:induction false} HeldNothing(n: nat, e: Event)
    ensures Held(seq(n, _ => Idle), e) == 0
  {
    if n > 0 {
      assert seq(n, _ => Idle)[..n - 1] == seq(n - 1, _ => Idle);
      HeldNothing(n - 1, e);
    }
  }

  lemma InitInvariant(n: nat)
    ensures Invariant(Init(n))
  {
    forall e ensures Places(Init(n), e) == 0 {
      HeldNothing(n, e);
    }
  }

  lemma {:induction false} ExecInvariant(s: State, steps: seq<Step>)
    requires Invariant(s) && Exec(s, steps).Some?
    ensures Invariant(Exec(s, steps).value)
    decreases |steps|
  {
    if steps != [] {
      hide Invariant;
      StepInvariant(s, steps[0]);
      ExecInvariant(Next(s, steps[0]), steps[1..]);
    }
  }

  lemma StepInvariant(s: State, step: Step)
    requires Invariant(s) && Enabled(s, step)
    ensures Invariant(Next(s, step))
  {
    hide InOrder, SlotTracked, Announced, Conserved, Next;
    OrderKept(s, step);
    SlotKept(s, step);
    AnnouncedKept(s, step);
    ConservedKept(s, step);
  }

  lemma ReachableInvariant(s: State)
    requires Reachable(s)
    ensures Invariant(s)
  {
    hide Invariant;
    var n: nat, steps: seq<Step> :| Exec(Init(n), steps) == Some(s);
    InitInvariant(n);
    ExecInvariant(Init(n), steps);
  }

  lemma {:induction false} NonMovesAppend(a: seq<Event>, b: seq<Event>)
    ensures OnlyNonMoves(a + b) == OnlyNonMoves(a) + OnlyNonMoves(b)
    decreases |b|
  {
    if b == [] {
      assert a + b == a;
    } else {
      assert (a + b)[..|a + b| - 1] == a + b[..|b| - 1];
      NonMovesAppend(a, b[..|b| - 1]);
    }
  }

  lemma {:induction false} NonMovesFromQueue(done: seq<Done>)
    requires forall i :: 0 <= i < |done| && done[i].FromSlot? ==> done[i].ev.isMove
    ensures NonMoves(done) == OnlyNonMoves(QueueEvents(done))
    decreases |done|
  {
    if done != [] {
      var last := |done| - 1;
      NonMovesFromQueue(done[..last]);
      var q := QueueEvents(done[..last]);
      if done[last].FromQueue? {
        NonMovesAppend(q, [done[last].ev]);
        assert [done[last].ev][..0] == [];
      } else {
        assert q + [] == q;
      }
    }
  }

  lemma {:induction false} SlotEventsIn(done: seq<Done>, i: nat)
    requires i < |done| && done[i].FromSlot?
    ensures done[i].ev in SlotEvents(done)
    decreases |done|
  {
    if i < |done| - 1 {
      SlotEventsIn(done[..|done| - 1], i);
    }
  }

  lemma {:induction false} TakenAreWrites(writes: seq<Write>, e: Event)
    requires e in TakenWrites(writes)
    ensures exists i :: 0 <= i < |writes| && writes[i].ev == e && writes[i].fate == Taken
    decreases |writes|
  {
    var last := |writes| - 1;
    if e in TakenWrites(writes[..last]) {
      TakenAreWrites(writes[..last], e);
      var i :| 0 <= i < last && writes[..last][i].ev == e && writes[..last][i].fate == Taken;
      assert writes[i].ev == e;
    } else {
      assert writes[last].ev == e;
    }
  }

  /** Every event that is not a move is processed in its turn: those processed are, in order, the
      first that the channel accepted, and the rest are with the worker or still in the channel,
      which never holds more than 64 events. */
  lemma NonMovesInAcceptanceOrder(s: State)
    requires Reachable(s)
    ensures |s.queue| <= 64
    ensures OnlyNonMoves(s.accepted) == NonMoves(s.done) + OnlyNonMoves(Received(s.worker) + s.queue)
  {
    hide Reachable, OnlyNonMoves, NonMoves, InOrder, SlotTracked, Announced, Conserved;
    ReachableInvariant(s);
    NonMovesFollow(s);
  }

  lemma NonMovesFollow(s: State)
    requires InOrder(s) && SlotTracked(s)
    ensures |s.queue| <= CAPACITY
    ensures OnlyNonMoves(s.accepted) == NonMoves(s.done) + OnlyNonMoves(Received(s.worker) + s.queue)
  {
    hide QueueEvents, OnlyNonMoves, NonMoves, SlotTracked, Received;
    forall i | 0 <= i < |s.done| && s.done[i].FromSlot? ensures s.done[i].ev.isMove {
      FromSlotIsMove(s, i);
    }
    NonMovesFromQueue(s.done);
    var before, after := QueueEvents(s.done), Received(s.worker) + s.queue;
    assert s.accepted == before + after;
    NonMovesAppend(before, after);
  }

  lemma FromSlotIsMove(s: State, i: nat)
    requires SlotTracked(s) && i < |s.done| && s.done[i].FromSlot?
    ensures s.done[i].ev.isMove
  {
    hide SlotEvents, TakenWrites;
    SlotEventsIn(s.done, i);
    assert s.done[i].ev in SlotEvents(s.done) + Flushed(s.worker);
    TakenAreWrites(s.writes, s.done[i].ev);
  }

  lemma {:induction false} SubmittedOnce(events: seq<Event>, e: Event)
    requires forall k :: 0 <= k < |events| ==> events[k].id == k
    ensures Occurs(events, e) == One(e in events)
    decreases |events|
  {
    if events != [] {
      var last := |events| - 1;
      SubmittedOnce(events[..last], e);
      assert events == events[..last] + [events[last]];
      if e in events[..last] {
        assert e.id < last;
      }
    }
  }

  /** Nothing is lost or doubled: every event submitted is in exactly one place, once: still with its
      producer, in the channel, with the worker, in the slot, superseded in the slot by a later move,
      processed or, if it is not a move, dropped by a timed-out send. Nothing else is anywhere. */
  lemma EachEventInOnePlace(s: State, e: Event)
    requires Reachable(s)
    ensures Places(s, e) == if e in s.submitted then 1 else 0
  {
    ReachableInvariant(s);
    SubmittedOnce(s.submitted, e);
  }

  /** A filled slot is never forgotten: whoever must act on it next is determined. */
  lemma FilledSlotIsAnnounced(s: State)
    requires Reachable(s) && s.slot.Some?
    ensures s.flag || s.worker.Taking? || exists p :: 0 <= p < |s.producers| && s.producers[p].Storing?
  {
    ReachableInvariant(s);
  }

  /** The moves that went through the slot are processed in the order they were written there; those
      passed over were each overwritten by the next write, and at most the latest is still there. */
  lemma SlotMovesInWriteOrder(s: State)
    requires Reachable(s)
    ensures SlotEvents(s.done) + Flushed(s.worker) == TakenWrites(s.writes)
    ensures forall i :: 0 <= i < |s.writes| ==>
      && s.writes[i].ev.isMove
      && (s.writes[i].fate == Superseded ==> i + 1 < |s.writes|)
      && (s.writes[i].fate == Pending ==> i + 1 == |s.writes| && s.slot == Some(s.writes[i].ev))
  {
    ReachableInvariant(s);
  }

  /* ---- When moves keep their order ---- */

  /** A later move processed before an earlier one. */
  ghost predicate MovesSwapped(s: State) {
    Swapped(Evs(s.done))
  }

  ghost predicate Swapped(events: seq<Event>) {
    exists i, j :: 0 <= i < j < |events| && Overtakes(events[i], events[j])
  }

  /** Two moves of which the one submitted later stands first. */
  predicate Overtakes(first: Event, second: Event) {
    first.isMove && second.isMove && second.id < first.id
  }

  function Evs(done: seq<Done>): seq<Event> {
    seq(|done|, i requires 0 <= i < |done| => done[i].ev)
  }

  function InHand(w: Worker): seq<Event> {
    if w.Processing? || w.Flushing? then [w.ev] else []
  }

  /** What has been processed, what the worker has and what is in the channel, in that order. */
  function Schedule(s: State): seq<Event> {
    Evs(s.done) + InHand(s.worker) + s.queue
  }

  /** The move from the slot passes an older move in the channel. */
  ghost predicate PassesQueued(s: State, a: Event) {
    exists i :: 0 <= i < |s.queue| && Overtakes(a, s.queue[i])
  }

  /** A newer move than that from the slot has been processed from the channel. */
  ghost predicate Passed(s: State, a: Event) {
    exists i :: 0 <= i < |s.done| && s.done[i].FromQueue? && Overtakes(s.done[i].ev, a)
  }

  /** The step takes a move from the slot out of its order. */
  ghost predicate TakesOutOfOrder(s: State, step: Step) {
    step.Take? && s.slot.Some? && s.slot.value.isMove && (PassesQueued(s, s.slot.value) || Passed(s, s.slot.value))
  }

  ghost predicate OutOfOrderAt(n: nat, steps: seq<Step>, k: nat) {
    && k < |steps| && Exec(Init(n), steps[..k]).Some?
    && TakesOutOfOrder(Exec(Init(n), steps[..k]).value, steps[k])
  }

  ghost predicate SomeOutOfOrder(n: nat, steps: seq<Step>) {
    exists k: nat :: OutOfOrderAt(n, steps, k)
  }

  /** One producer has at most one event in hand, the latest: all that it has sent or put in the slot is
      older. What it sent and what it put in the slot are each in the order of submission. */
  ghost predicate OneAtATime(s: State) {
    && |s.producers| == 1
    && Ascending(s.accepted) && Ascending(WrittenEvents(s.writes))
    && Below(s.accepted, NextId(s)) && Below(WrittenEvents(s.writes), NextId(s))
    && (if s.producers[0].Idle? || s.producers[0].Storing? then NextId(s) == |s.submitted| else NextId(s) < |s.submitted|)
  }

  /** The id of the event in hand or, without one, of the next to come. */
  function NextId(s: State): nat
    requires |s.producers| == 1
  {
    match s.producers[0]
    case Sending(ev) => ev.id
    case Refused(ev) => ev.id
    case Waiting(ev) => ev.id
    case Idle => |s.submitted|
    case Storing => |s.submitted|
  }

  predicate Ascending(events: seq<Event>) {
    forall i, j :: 0 <= i < j < |events| ==> events[i].id < events[j].id
  }

  predicate Below(events: seq<Event>, id: nat) {
    forall i :: 0 <= i < |events| ==> events[i].id < id
  }

  function WrittenEvents(writes: seq<Write>): seq<Event> {
    seq(|writes|, i requires 0 <= i < |writes| => writes[i].ev)
  }

  lemma SettledEvents(writes: seq<Write>, fate: Fate)
    ensures WrittenEvents(Settle(writes, fate)) == WrittenEvents(writes)
  {
  }

  lemma OneAtATimeKept(s: State, step: Step)
    requires OneAtATime(s) && Enabled(s, step)
    ensures OneAtATime(Next(s, step))
  {
    hide Settle, Turned;
    if step.WriteSlot? {
      SettledEvents(s.writes, Superseded);
      assert WrittenEvents(Next(s, step).writes) == WrittenEvents(s.writes) + [s.producers[0].ev];
    } else if step.Take? {
      SettledEvents(s.writes, Taken);
    }
  }

  lemma SwappedSnoc(events: seq<Event>, e: Event)
    ensures Swapped(events + [e]) <==> Swapped(events) || exists i :: 0 <= i < |events| && Overtakes(events[i], e)
  {
    var more := events + [e];
    if i, j :| 0 <= i < j < |events| && Overtakes(events[i], events[j]) {
      assert Overtakes(more[i], more[j]);
    }
    if i :| 0 <= i < |events| && Overtakes(events[i], e) {
      assert Overtakes(more[i], more[|events|]);
    }
    if i, j :| 0 <= i < j < |more| && Overtakes(more[i], more[j]) {
      assert j < |events| ==> Overtakes(events[i], events[j]);
    }
  }

  lemma SwappedInsert(a: seq<Event>, e: Event, b: seq<Event>)
    ensures Swapped(a + [e] + b) <==>
            || Swapped(a + b)
            || (exists i :: 0 <= i < |a| && Overtakes(a[i], e))
            || (exists i :: 0 <= i < |b| && Overtakes(e, b[i]))
  {
    var more, fewer, n := a + [e] + b, a + b, |a|;
    if i, j :| 0 <= i < j < |fewer| && Overtakes(fewer[i], fewer[j]) {
      assert Overtakes(more[if i < n then i else i + 1], more[if j < n then j else j + 1]);
    }
    if i :| 0 <= i < n && Overtakes(a[i], e) {
      assert Overtakes(more[i], more[n]);
    }
    if i :| 0 <= i < |b| && Overtakes(e, b[i]) {
      assert Overtakes(more[n], more[n + 1 + i]);
    }
    if i, j :| 0 <= i < j < |more| && Overtakes(more[i], more[j]) {
      if i == n {
        assert Overtakes(e, b[j - n - 1]);
      } else if j == n {
        assert Overtakes(a[i], e);
      } else {
        assert Overtakes(fewer[if i < n then i else i - 1], fewer[if j < n then j else j - 1]);
      }
    }
  }

  /** Everything scheduled is older than what the producer has in hand. */
  lemma ScheduledBelow(s: State)
    requires OneAtATime(s) && InOrder(s) && SlotTracked(s)
    ensures Below(Schedule(s), NextId(s))
  {
    hide TakenWrites, SlotEvents, QueueEvents;
    var id := NextId(s);
    forall i | 0 <= i < |s.done| ensures s.done[i].ev.id < id {
      if s.done[i].FromSlot? {
        SlotEventsIn(s.done, i);
        assert s.done[i].ev in SlotEvents(s.done) + Flushed(s.worker);
        WrittenBelow(s, s.done[i].ev);
      } else {
        QueueEventsIn(s.done, i);
        assert s.done[i].ev in s.accepted;
      }
    }
    if s.worker.Flushing? {
      assert s.worker.ev in SlotEvents(s.done) + Flushed(s.worker);
      WrittenBelow(s, s.worker.ev);
    } else if s.worker.Processing? {
      assert s.worker.ev in Received(s.worker) && s.worker.ev in s.accepted;
    }
    forall i | 0 <= i < |s.queue| ensures s.queue[i].id < id {
      assert s.queue[i] in s.accepted;
    }
  }

  lemma WrittenBelow(s: State, e: Event)
    requires OneAtATime(s) && e in TakenWrites(s.writes)
    ensures e.id < NextId(s)
  {
    TakenAreWrites(s.writes, e);
    var i :| 0 <= i < |s.writes| && s.writes[i].ev == e;
    assert WrittenEvents(s.writes)[i] == e;
  }

  lemma {:induction false} QueueEventsIn(done: seq<Done>, i: nat)
    requires i < |done| && done[i].FromQueue?
    ensures done[i].ev in QueueEvents(done)
    decreases |done|
  {
    if i < |done| - 1 {
      QueueEventsIn(done[..|done| - 1], i);
    }
  }

  /** What came out of the slot before is older than what is in it. */
  lemma SlotIsNewest(s: State, i: nat)
    requires OneAtATime(s) && SlotTracked(s) && s.slot.Some? && i < |s.done| && s.done[i].FromSlot?
    ensures s.done[i].ev.id < s.slot.value.id
  {
    hide TakenWrites, SlotEvents;
    SlotEventsIn(s.done, i);
    assert s.done[i].ev in SlotEvents(s.done) + Flushed(s.worker);
    TakenAreWrites(s.writes, s.done[i].ev);
    var k :| 0 <= k < |s.writes| && s.writes[k].ev == s.done[i].ev && s.writes[k].fate == Taken;
    var last := |s.writes| - 1;
    assert WrittenEvents(s.writes)[k].id < WrittenEvents(s.writes)[last].id;
  }

  /** One step adds a swap to the schedule exactly if it takes a move out of order. */
  lemma StepSwaps(s: State, step: Step)
    requires OneAtATime(s) && InOrder(s) && SlotTracked(s) && Enabled(s, step)
    ensures Swapped(Schedule(Next(s, step))) <==> Swapped(Schedule(s)) || TakesOutOfOrder(s, step)
  {
    hide OneAtATime, InOrder, SlotTracked, Swapped, Settle, Turned;
    if step.Take? && s.slot.Some? {
      TakeSwaps(s);
    } else {
      ScheduleUnchanged(s, step);
      if step.TrySend? || step.SendWaiting? {
        ScheduledBelow(s);
        OneHand(s, step.p);
        SwappedSnoc(Schedule(s), s.producers[step.p].ev);
      }
    }
  }

  lemma OneHand(s: State, p: nat)
    requires OneAtATime(s) && At(s, p) && (s.producers[p].Sending? || s.producers[p].Waiting?)
    ensures s.producers[p].ev.id == NextId(s)
  {
  }

  lemma ScheduleUnchanged(s: State, step: Step)
    requires Enabled(s, step) && !(step.Take? && s.slot.Some?)
    ensures Schedule(Next(s, step)) ==
            if step.TrySend? || step.SendWaiting? then Schedule(s) + [s.producers[step.p].ev] else Schedule(s)
  {
    hide Settle, Turned;
    if step.Finish? {
      assert Evs(Next(s, step).done) == Evs(s.done) + [s.worker.ev];
    } else if step.FinishFlush? {
      assert Evs(Next(s, step).done) == Evs(s.done) + [s.worker.ev];
    }
  }

  lemma TakeSwaps(s: State)
    requires OneAtATime(s) && SlotTracked(s) && Enabled(s, Take) && s.slot.Some?
    ensures Swapped(Schedule(Next(s, Take))) <==> Swapped(Schedule(s)) || TakesOutOfOrder(s, Take)
  {
    var a, before := s.slot.value, Evs(s.done);
    assert a.isMove;
    assert Schedule(s) == before + s.queue;
    assert Schedule(Next(s, Take)) == before + [a] + s.queue;
    SwappedInsert(before, a, s.queue);
    PassedIff(s);
  }

  lemma PassedIff(s: State)
    requires OneAtATime(s) && SlotTracked(s) && s.slot.Some?
    ensures Passed(s, s.slot.value) <==> exists i :: 0 <= i < |Evs(s.done)| && Overtakes(Evs(s.done)[i], s.slot.value)
  {
    hide OneAtATime, SlotTracked;
    var a := s.slot.value;
    if Passed(s, a) {
      var i :| 0 <= i < |s.done| && s.done[i].FromQueue? && Overtakes(s.done[i].ev, a);
      assert Overtakes(Evs(s.done)[i], a);
    } else if i :| 0 <= i < |Evs(s.done)| && Overtakes(Evs(s.done)[i], a) {
      if s.done[i].FromSlot? {
        SlotIsNewest(s, i);
      }
    }
  }

  /** Over a run of one producer the schedule is out of order if and only if some step made it so. */
  lemma {:induction false} ScheduleSwappedIff(steps: seq<Step>)
    requires Exec(Init(1), steps).Some?
    ensures var s := Exec(Init(1), steps).value;
            && OneAtATime(s) && Invariant(s)
            && (Swapped(Schedule(s)) <==> SomeOutOfOrder(1, steps))
    decreases |steps|
  {
    if steps == [] {
      InitInvariant(1);
    } else {
      var last := |steps| - 1;
      var before, step := steps[..last], steps[last];
      LastStep(Init(1), steps);
      ScheduleSwappedIff(before);
      var s := Exec(Init(1), before).value;
      hide Invariant, OneAtATime, Swapped, Exec, Next, Init, TakesOutOfOrder, Schedule;
      StepKeeps(s, step);
      EarlierOutOfOrder(1, steps);
    }
  }

  lemma StepKeeps(s: State, step: Step)
    requires OneAtATime(s) && Invariant(s) && Enabled(s, step)
    ensures OneAtATime(Next(s, step)) && Invariant(Next(s, step))
    ensures Swapped(Schedule(Next(s, step))) <==> Swapped(Schedule(s)) || TakesOutOfOrder(s, step)
  {
    hide OneAtATime, Conserved, InOrder, SlotTracked, Swapped, Next, Enabled, TakesOutOfOrder, Schedule;
    StepInvariant(s, step);
    OneAtATimeKept(s, step);
    StepSwaps(s, step);
  }

  lemma EarlierOutOfOrder(n: nat, steps: seq<Step>)
    requires steps != []
    ensures SomeOutOfOrder(n, steps) <==>
            OutOfOrderAt(n, steps, |steps| - 1) || SomeOutOfOrder(n, steps[..|steps| - 1])
  {
    hide Exec, Init, TakesOutOfOrder;
    var before := steps[..|steps| - 1];
    forall k: nat | k < |before| ensures OutOfOrderAt(n, steps, k) <==> OutOfOrderAt(n, before, k) {
      assert before[..k] == steps[..k] && before[k] == steps[k];
    }
    if k: nat :| OutOfOrderAt(n, before, k) {
      assert OutOfOrderAt(n, steps, k);
    }
  }

  lemma {:induction false} ExecAppend(s: State, a: seq<Step>, b: seq<Step>)
    ensures Exec(s, a + b) == if Exec(s, a).Some? then Exec(Exec(s, a).value, b) else None
    decreases |a|
  {
    if a == [] {
      assert a + b == b;
    } else {
      hide Next, Enabled;
      assert (a + b)[1..] == a[1..] + b && (a + b)[0] == a[0];
      if Enabled(s, a[0]) {
        ExecAppend(Next(s, a[0]), a[1..], b);
      }
    }
  }

  lemma LastStep(s: State, steps: seq<Step>)
    requires steps != [] && Exec(s, steps).Some?
    ensures var before, step := steps[..|steps| - 1], steps[|steps| - 1];
            && Exec(s, before).Some? && Enabled(Exec(s, before).value, step)
            && Exec(s, steps) == Some(Next(Exec(s, before).value, step))
  {
    var before, step := steps[..|steps| - 1], steps[|steps| - 1];
    assert steps == before + [step];
    ExecAppend(s, before, [step]);
    hide Next, Enabled;
    assert [step][1..] == [];
  }

  /** The worker has nothing to do and nothing to come. */
  predicate Drained(s: State) {
    s.queue == [] && !s.worker.Processing? && !s.worker.Flushing?
  }

  /** In a run of one producer that ends drained, moves have been processed out of their order if and
      only if some take from the slot found an older move in the channel or came after a newer move
      had been processed from it. */
  lemma MovesSwappedIff(steps: seq<Step>, s: State)
    requires Exec(Init(1), steps) == Some(s) && Drained(s)
    ensures MovesSwapped(s) <==> SomeOutOfOrder(1, steps)
  {
    ScheduleSwappedIff(steps);
    hide Exec, Init, Swapped, Invariant, OneAtATime, SomeOutOfOrder;
    assert Schedule(s) == Evs(s.done);
  }

  /** As long as the slot has not been used, the moves of one producer keep their order. */
  lemma UnusedSlotKeepsOrder(steps: seq<Step>, s: State)
    requires Exec(Init(1), steps) == Some(s) && s.writes == []
    ensures !MovesSwapped(s)
  {
    ScheduleSwappedIff(steps);
    hide Exec, Init;
    assert SlotEvents(s.done) + Flushed(s.worker) == [];
    forall i | 0 <= i < |s.done| ensures s.done[i].FromQueue? {
      if s.done[i].FromSlot? {
        SlotEventsIn(s.done, i);
      }
    }
    AllFromQueue(s.done);
    assert forall i :: 0 <= i < |s.done| ==> s.accepted[i] == Evs(s.done)[i];
  }

  lemma {:induction false} AllFromQueue(done: seq<Done>)
    requires forall i :: 0 <= i < |done| ==> done[i].FromQueue?
    ensures QueueEvents(done) == Evs(done)
    decreases |done|
  {
    if done != [] {
      AllFromQueue(done[..|done| - 1]);
    }
  }

  /* ---- What the full channel does ---- */

  /** At step k the timed send of an event runs out. */
  ghost predicate TimesOutAt(n: nat, steps: seq<Step>, k: nat, e: Event) {
    && k < |steps| && steps[k].TimeOut? && Exec(Init(n), steps[..k]).Some?
    && var s := Exec(Init(n), steps[..k]).value;
       At(s, steps[k].p) && s.producers[steps[k].p] == Waiting(e)
  }

  ghost predicate TimesOut(n: nat, steps: seq<Step>, e: Event) {
    exists k: nat :: TimesOutAt(n, steps, k, e)
  }

  lemma TimesOutBefore(n: nat, steps: seq<Step>, e: Event)
    requires steps != []
    ensures TimesOut(n, steps, e) <==>
            TimesOutAt(n, steps, |steps| - 1, e) || TimesOut(n, steps[..|steps| - 1], e)
  {
    hide Exec, Init;
    var before := steps[..|steps| - 1];
    forall k: nat | k < |before| ensures TimesOutAt(n, steps, k, e) <==> TimesOutAt(n, before, k, e) {
      assert before[..k] == steps[..k] && before[k] == steps[k];
    }
    if k: nat :| TimesOutAt(n, before, k, e) {
      assert TimesOutAt(n, steps, k, e);
    }
  }

  /** An event is dropped if and only if it waited for a place in the channel until its time ran out. */
  lemma {:induction false} DroppedIff(n: nat, steps: seq<Step>, e: Event)
    requires Exec(Init(n), steps).Some?
    ensures e in Exec(Init(n), steps).value.dropped <==> TimesOut(n, steps, e)
    decreases |steps|
  {
    if steps != [] {
      var before := steps[..|steps| - 1];
      LastStep(Init(n), steps);
      DroppedIff(n, before, e);
      TimesOutBefore(n, steps, e);
      var s := Exec(Init(n), before).value;
      hide Exec, Init, TimesOut;
      DropStep(s, steps[|steps| - 1], e);
    }
  }

  lemma DropStep(s: State, step: Step, e: Event)
    requires Enabled(s, step)
    ensures e in Next(s, step).dropped <==>
            e in s.dropped || (step.TimeOut? && s.producers[step.p] == Waiting(e))
  {
    hide Settle, Turned;
  }

  /** Only what is no move waits, so no move is ever dropped. */
  lemma WaitingIsNoMove(s: State, p: nat)
    requires Reachable(s) && At(s, p) && s.producers[p].Waiting?
    ensures !s.producers[p].ev.isMove
  {
    hide Reachable, InOrder, Announced, Conserved;
    ReachableInvariant(s);
  }

  /** The worker gets back to the channel by itself. */
  lemma BackToChannel(s: State) returns (steps: seq<Step>, s': State)
    ensures Exec(s, steps) == Some(s') && s'.worker.Receiving?
    ensures s'.queue == s.queue && s'.producers == s.producers && s'.accepted == s.accepted
    decreases match s.worker case Processing(_) => 4 case Swapping => 3 case Taking => 2 case Flushing(_) => 1 case Receiving => 0
  {
    if s.worker.Receiving? {
      steps, s' := [], s;
    } else {
      var step := match s.worker case Processing(_) => Finish case Swapping => Swap case Taking => Take case _ => FinishFlush;
      var later;
      later, s' := BackToChannel(Next(s, step));
      steps := [step] + later;
      hide Next;
      ExecCons(s, step, later);
    }
  }

  /** A waiting event can still be accepted: the worker takes one event from the channel, if that is
      full, and the next place is for the one that waits. */
  lemma WaitingCanBeAccepted(s: State, p: nat) returns (steps: seq<Step>, s': State)
    requires Reachable(s) && At(s, p) && s.producers[p].Waiting?
    ensures Exec(s, steps) == Some(s') && s'.accepted == s.accepted + [s.producers[p].ev]
  {
    ReachableInvariant(s);
    hide Reachable, SlotTracked, Announced, Conserved;
    var back, s1 := BackToChannel(s);
    var s2, send := s1, [SendWaiting(p)];
    if |s1.queue| == CAPACITY {
      s2, send := Next(s1, Receive), [Receive, SendWaiting(p)];
    }
    s' := Next(s2, SendWaiting(p));
    assert Exec(s', []) == Some(s');
    hide Next, Enabled;
    ExecCons(s2, SendWaiting(p), []);
    if s2 != s1 {
      ExecCons(s1, Receive, [SendWaiting(p)]);
    }
    steps := back + send;
    ExecAppend(s, back, send);
  }

  /** How often the flag was set, and how often the slot was looked into. */
  function Stores(steps: seq<Step>): nat {
    if steps == [] then 0 else Stores(steps[..|steps| - 1]) + One(steps[|steps| - 1].StoreFlag?)
  }

  function Takes(steps: seq<Step>): nat {
    if steps == [] then 0 else Takes(steps[..|steps| - 1]) + One(steps[|steps| - 1].Take?)
  }

  /** The worker looks into the slot at most once for each time the flag was set. */
  lemma {:induction false} TakesWithinStores(n: nat, steps: seq<Step>)
    requires Exec(Init(n), steps).Some?
    ensures var s := Exec(Init(n), steps).value;
            Takes(steps) + One(s.flag) + One(s.worker.Taking?) <= Stores(steps)
    decreases |steps|
  {
    if steps != [] {
      LastStep(Init(n), steps);
      TakesWithinStores(n, steps[..|steps| - 1]);
      hide Exec, Init;
    }
  }

  lemma {:induction false} AscendingLength(events: seq<Event>, id: nat)
    requires Ascending(events) && Below(events, id)
    ensures |events| <= id
    decreases |events|
  {
    if events != [] {
      var last := |events| - 1;
      assert Below(events[..last], events[last].id);
      AscendingLength(events[..last], events[last].id);
    }
  }

  /** The channel turns nothing away before it is full: the first 64 events of one producer are all
      accepted at once, and the slot and the timed send are not used. */
  lemma {:induction false} FirstEventsAccepted(steps: seq<Step>)
    requires Exec(Init(1), steps).Some?
    ensures var s := Exec(Init(1), steps).value;
            |s.producers| == 1
            && (|s.submitted| <= 64 ==>
                  s.writes == [] && s.dropped == [] && (s.producers[0].Idle? || s.producers[0].Sending?))
    decreases |steps|
  {
    if steps != [] {
      var before, step := steps[..|steps| - 1], steps[|steps| - 1];
      LastStep(Init(1), steps);
      FirstEventsAccepted(before);
      ScheduleSwappedIff(before);
      var s := Exec(Init(1), before).value;
      hide Exec, Init, Invariant, OneAtATime, Swapped;
      NotTurnedEarly(s, step);
    }
  }

  lemma NotTurnedEarly(s: State, step: Step)
    requires OneAtATime(s) && Invariant(s) && Enabled(s, step)
    ensures |s.submitted| <= |Next(s, step).submitted| && |Next(s, step).producers| == 1
    ensures |s.submitted| <= 64 && s.writes == [] && s.dropped == [] && (s.producers[0].Idle? || s.producers[0].Sending?) ==>
            var s' := Next(s, step);
            s'.writes == [] && s'.dropped == [] && (s'.producers[0].Idle? || s'.producers[0].Sending?)
  {
    hide SlotTracked, Announced, Conserved, QueueEvents;
    AscendingLength(s.accepted, NextId(s));
    assert |s.queue| <= |s.accepted|;
  }

  /* ---- Moves out of order ---- */

  function Keys(k: nat): seq<Event> {
    seq(k, (i: nat) => Event(i, false))
  }

  /** One producer has sent k events that are not moves and is still at the full channel with a move,
      while the worker has processed d of them. */
  function Draining(k: nat, d: nat): State
    requires d <= k
  {
    State(Keys(k)[d..], None, false, [Refused(Event(k, true))], Receiving, Keys(k) + [Event(k, true)], Keys(k),
          seq(d, (i: nat) => FromQueue(Event(i, false))), [], [])
  }

  function Filled(k: nat): State {
    State(Keys(k), None, false, [Idle], Receiving, Keys(k), Keys(k), [], [], [])
  }

  lemma {:induction false} FillChannel(k: nat) returns (steps: seq<Step>)
    requires k <= CAPACITY
    ensures Exec(Init(1), steps) == Some(Filled(k))
  {
    if k == 0 {
      steps := [];
      assert Init(1) == Filled(0);
    } else {
      var before := FillChannel(k - 1);
      var ev := Event(k - 1, false);
      var send := [Submit(0, false), TrySend(0)];
      steps := before + send;
      ExecAppend(Init(1), before, send);
      assert Keys(k - 1) + [ev] == Keys(k);
      assert send[1..] == [TrySend(0)];
      assert Next(Next(Filled(k - 1), Submit(0, false)), TrySend(0)) == Filled(k);
    }
  }

  /** What the worker makes of the channel when no move is in the slot. */
  function Emptied(s: State): State {
    s.(queue := [], done := s.done + seq(|s.queue|, i requires 0 <= i < |s.queue| => FromQueue(s.queue[i])))
  }

  lemma {:induction false} DrainChannel(s: State) returns (steps: seq<Step>)
    requires s.worker.Receiving? && !s.flag
    ensures Exec(s, steps) == Some(Emptied(s))
    decreases |s.queue|
  {
    if s.queue == [] {
      steps := [];
      assert Emptied(s) == s;
    } else {
      var turn := [Receive, Finish, Swap];
      var s1 := Next(s, Receive);
      var s2 := Next(s1, Finish);
      var s3 := Next(s2, Swap);
      assert s3 == s.(queue := s.queue[1..], done := s.done + [FromQueue(s.queue[0])]);
      assert Emptied(s3).done == Emptied(s).done;
      assert Emptied(s3) == Emptied(s);
      var later := DrainChannel(s3);
      steps := turn + later;
      assert Exec(s2, []) == Some(s2) && Exec(s3, []) == Some(s3);
      hide Next, Enabled, Emptied;
      ExecCons(s2, Swap, []);
      ExecCons(s1, Finish, [Swap]);
      ExecCons(s, Receive, [Finish, Swap]);
      ExecAppend(s, turn, later);
    }
  }

  /** With no race at all: keys and one move have filled the channel, the next move goes to the slot
      and is taken from it after the first key, ahead of the move in the channel. */
  lemma MovesCanSwap() returns (steps: seq<Step>, s: State)
    ensures Exec(Init(1), steps) == Some(s) && Drained(s) && MovesSwapped(s)
  {
    var k := CAPACITY - 1;
    var fill := FillChannel(k);
    var send := [Submit(0, true), TrySend(0), Submit(0, true), Refuse(0), WriteSlot(0), StoreFlag(0)];
    var flush := [Receive, Finish, Swap, Take, FinishFlush];
    SlotBehindFull(k, send);
    NewestFirst(k, flush);
    var drain := DrainChannel(Overtaking(k));
    s := Emptied(Overtaking(k));
    steps := fill + send + flush + drain;
    OldestLast(k);
    hide Exec, Filled, Blocked, Overtaking, Emptied, Init;
    ExecAppend(Init(1), fill, send);
    ExecAppend(Init(1), fill + send, flush);
    ExecAppend(Init(1), fill + send + flush, drain);
  }

  /** The channel is full, with a move as its last event, and a newer move is in the slot. */
  function Blocked(k: nat): State {
    var a, b := Event(k, true), Event(k + 1, true);
    State(Keys(k) + [a], Some(b), true, [Idle], Receiving, Keys(k) + [a] + [b], Keys(k) + [a], [], [Write(b, Pending)], [])
  }

  /** One key and the move from the slot have been processed. */
  function Overtaking(k: nat): State
    requires k > 0
  {
    var a, b := Event(k, true), Event(k + 1, true);
    State((Keys(k) + [a])[1..], None, false, [Idle], Receiving, Keys(k) + [a] + [b], Keys(k) + [a],
          [FromQueue(Event(0, false)), FromSlot(b)], [Write(b, Taken)], [])
  }

  lemma SlotBehindFull(k: nat, steps: seq<Step>)
    requires k == CAPACITY - 1
    requires steps == [Submit(0, true), TrySend(0), Submit(0, true), Refuse(0), WriteSlot(0), StoreFlag(0)]
    ensures Exec(Filled(k), steps) == Some(Blocked(k))
  {
    var s0 := Filled(k);
    var s1 := Next(s0, Submit(0, true));
    var s2 := Next(s1, TrySend(0));
    var s3 := Next(s2, Submit(0, true));
    assert |s3.queue| == CAPACITY;
    var s4 := Next(s3, Refuse(0));
    var s5 := Next(s4, WriteSlot(0));
    assert s5.writes == [Write(Event(k + 1, true), Pending)];
    assert Next(s5, StoreFlag(0)) == Blocked(k);
    hide Next, Enabled, Filled, Blocked;
    ExecCons(s5, StoreFlag(0), []);
    ExecCons(s4, WriteSlot(0), [StoreFlag(0)]);
    ExecCons(s3, Refuse(0), [WriteSlot(0), StoreFlag(0)]);
    ExecCons(s2, Submit(0, true), [Refuse(0), WriteSlot(0), StoreFlag(0)]);
    ExecCons(s1, TrySend(0), [Submit(0, true), Refuse(0), WriteSlot(0), StoreFlag(0)]);
    ExecCons(s0, Submit(0, true), [TrySend(0), Submit(0, true), Refuse(0), WriteSlot(0), StoreFlag(0)]);
  }

  lemma NewestFirst(k: nat, steps: seq<Step>)
    requires k > 0 && steps == [Receive, Finish, Swap, Take, FinishFlush]
    ensures Exec(Blocked(k), steps) == Some(Overtaking(k))
  {
    var s0 := Blocked(k);
    assert s0.queue[0] == Event(0, false);
    var s1 := Next(s0, Receive);
    var s2 := Next(s1, Finish);
    var s3 := Next(s2, Swap);
    var s4 := Next(s3, Take);
    assert s4.writes == [Write(Event(k + 1, true), Taken)];
    assert Next(s4, FinishFlush) == Overtaking(k);
    hide Next, Enabled, Blocked, Overtaking;
    ExecCons(s4, FinishFlush, []);
    ExecCons(s3, Take, [FinishFlush]);
    ExecCons(s2, Swap, [Take, FinishFlush]);
    ExecCons(s1, Finish, [Swap, Take, FinishFlush]);
    ExecCons(s0, Receive, [Finish, Swap, Take, FinishFlush]);
  }

  lemma OldestLast(k: nat)
    requires k > 0
    ensures Drained(Emptied(Overtaking(k))) && MovesSwapped(Emptied(Overtaking(k)))
  {
    var s := Emptied(Overtaking(k));
    var events := Evs(s.done);
    assert events[1] == Event(k + 1, true);
    assert |events| == k + 2 && events[k + 1] == Event(k, true);
    assert Overtakes(events[1], events[k + 1]);
  }

  /** And the other way round, with a race: a move refused by the full channel gets to the slot after
      the worker has emptied the channel, and the next move overtakes it through the channel. */
  lemma RefusedMoveIsPassed() returns (steps: seq<Step>, s: State)
    ensures Exec(Init(1), steps) == Some(s) && Drained(s) && MovesSwapped(s)
  {
    hide Exec, Filled, Draining, Init, MovesSwapped;
    var k := CAPACITY;
    var fill := FillChannel(k);
    DrainedAll(k);
    var drain := DrainChannel(Draining(k, 0));
    var refuse := [Submit(0, true), Refuse(0)];
    var finish := [WriteSlot(0), StoreFlag(0), Submit(0, true), TrySend(0), Receive, Finish, Swap, Take, FinishFlush];
    RefusedMove(k, refuse);
    s := Overtaken(k, finish);
    steps := fill + refuse + drain + finish;
    ExecAppend(Init(1), fill, refuse);
    ExecAppend(Init(1), fill + refuse, drain);
    ExecAppend(Init(1), fill + refuse + drain, finish);
  }

  lemma DrainedAll(k: nat)
    ensures Draining(k, 0).worker.Receiving? && !Draining(k, 0).flag && Emptied(Draining(k, 0)) == Draining(k, k)
  {
  }

  lemma RefusedMove(k: nat, steps: seq<Step>)
    requires k == CAPACITY && steps == [Submit(0, true), Refuse(0)]
    ensures Exec(Filled(k), steps) == Some(Draining(k, 0))
  {
    var s1 := Next(Filled(k), Submit(0, true));
    assert steps[1..] == [Refuse(0)];
    assert Keys(k)[0..] == Keys(k);
    assert Next(s1, Refuse(0)) == Draining(k, 0);
    assert Exec(s1, [Refuse(0)]) == Some(Draining(k, 0));
  }

  /** The refused move is in the slot, the next one in the channel. */
  function Crossing(k: nat): State {
    var a, b := Event(k, true), Event(k + 1, true);
    State([b], Some(a), true, [Idle], Receiving, Keys(k) + [a] + [b], Keys(k) + [b],
          seq(k, (i: nat) => FromQueue(Event(i, false))), [Write(a, Pending)], [])
  }

  function Crossed(k: nat): State {
    var a, b := Event(k, true), Event(k + 1, true);
    State([], None, false, [Idle], Receiving, Keys(k) + [a] + [b], Keys(k) + [b],
          seq(k, (i: nat) => FromQueue(Event(i, false))) + [FromQueue(b)] + [FromSlot(a)], [Write(a, Taken)], [])
  }

  lemma Overtaken(k: nat, steps: seq<Step>) returns (s: State)
    requires steps == [WriteSlot(0), StoreFlag(0), Submit(0, true), TrySend(0), Receive, Finish, Swap, Take, FinishFlush]
    ensures Exec(Draining(k, k), steps) == Some(s) && Drained(s) && MovesSwapped(s)
  {
    s := Crossed(k);
    var events := Evs(s.done);
    assert events[k] == Event(k + 1, true) && events[k + 1] == Event(k, true);
    assert Overtakes(events[k], events[k + 1]);
    hide Exec, Crossing, Crossed, Draining;
    var cross, work := [WriteSlot(0), StoreFlag(0), Submit(0, true), TrySend(0)], [Receive, Finish, Swap, Take, FinishFlush];
    MovesCross(k, cross);
    SlotAfterChannel(k, work);
    assert steps == cross + work;
    ExecAppend(Draining(k, k), cross, work);
  }

  lemma MovesCross(k: nat, steps: seq<Step>)
    requires steps == [WriteSlot(0), StoreFlag(0), Submit(0, true), TrySend(0)]
    ensures Exec(Draining(k, k), steps) == Some(Crossing(k))
  {
    var s0 := Draining(k, k);
    var s1 := Next(s0, WriteSlot(0));
    var s2 := Next(s1, StoreFlag(0));
    var s3 := Next(s2, Submit(0, true));
    assert s0.queue == [];
    assert s1.writes == [Write(Event(k, true), Pending)];
    assert |s3.submitted| == k + 2 && s3.producers == [Sending(Event(k + 1, true))];
    assert Next(s3, TrySend(0)) == Crossing(k);
    hide Next, Enabled, Draining, Crossing;
    ExecCons(s3, TrySend(0), []);
    ExecCons(s2, Submit(0, true), [TrySend(0)]);
    ExecCons(s1, StoreFlag(0), [Submit(0, true), TrySend(0)]);
    ExecCons(s0, WriteSlot(0), [StoreFlag(0), Submit(0, true), TrySend(0)]);
  }

  lemma SlotAfterChannel(k: nat, steps: seq<Step>)
    requires steps == [Receive, Finish, Swap, Take, FinishFlush]
    ensures Exec(Crossing(k), steps) == Some(Crossed(k))
  {
    var s0 := Crossing(k);
    var s1 := Next(s0, Receive);
    var s2 := Next(s1, Finish);
    var s3 := Next(s2, Swap);
    var s4 := Next(s3, Take);
    assert s1.queue == [];
    assert s4.writes == [Write(Event(k, true), Taken)];
    assert Next(s4, FinishFlush) == Crossed(k);
    hide Next, Enabled, Crossing, Crossed;
    ExecCons(s4, FinishFlush, []);
    ExecCons(s3, Take, [FinishFlush]);
    ExecCons(s2, Swap, [Take, FinishFlush]);
    ExecCons(s1, Finish, [Swap, Take, FinishFlush]);
    ExecCons(s0, Receive, [Finish, Swap, Take, FinishFlush]);
  }

  lemma ExecCons(s: State, step: Step, later: seq<Step>)
    requires Enabled(s, step)
    ensures Exec(s, [step] + later) == Exec(Next(s, step), later)
  {
    assert ([step] + later)[1..] == later;
  }
}
