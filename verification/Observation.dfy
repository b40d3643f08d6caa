/**
 * The long-poll observation protocol: edits and their announcements, the subscription's one-place
 * queue, the pump that closes and replaces a broadcast channel, the calls that wait on it, and the
 * host that starts and closes all of this. One step of the machine is one step of one goroutine;
 * a section under a mutex is one step, except starting the source, which other goroutines can see
 * begin and end.
 */
module Observation {
  import opened Bytes

  const SLOTS := 32

  /** An edit has landed and is not yet announced; an announcement holds its copy of the registry; or a native event is due. */
  datatype Stage = Wrote | Copied(hit: bool) | Native
  datatype Edit = Edit(stage: Stage, ver: nat)
  /** The store: how often it was written, what it holds, and the edits not yet signalled. */
  datatype Store = Store(ver: nat, content: int, edits: map<nat, Edit>)

  /** startObservation, which holds the mutex from its first check to its end. */
  datatype Starter = NoStart | Checked | Watched | Registered
  datatype Settler = SettleNew | SettleRunning | SettleClosing | SettleGone
  datatype Pump = PumpNew | PumpSelecting | PumpGot(ok: bool) | PumpLeaving | PumpGone
  /** Host.Close: cancel, look for a source under the mutex, unsubscribe, stop it, join it, join the pump. */
  datatype Closer = NotClosing | Cancelled | Inspected | Deregistered | Stopped | Joined | Returned
  datatype Life = Life(starter: Starter, initialized: bool, failed: bool, stopSet: bool, sources: nat, registered: bool,
                       settler: Settler, pump: Pump, closer: Closer)

  /** The subscription's channel and its flag, and the broadcast channels by number, of which cur is the open one. */
  datatype Wires = Wires(closed: bool, chanClosed: bool, token: bool, cur: nat, shut: set<nat>, panicked: bool)

  /** Why an observation is not available: the source has failed, or a call that had to wait found all slots taken. */
  datatype Why = SourceFailed | NoSlot(seen: int, late: bool, taken: nat)
  /** Unchanged remembers the read it rests on: its content, and whether the wait was used up before it. */
  datatype Outcome = Snapshot(seen: int) | Unchanged(seen: int, late: bool) | Unavailable(why: Why) | Failure
  datatype Pc =
    | Top
    | Loaded(gen: nat)
    | Looked(gen: nat, ver: nat, seen: int, late: bool)
    | Blocked(gen: nat, ver: nat)
    | Leaving(outcome: Outcome)
    | Gone(outcome: Outcome)
  datatype Call = Call(cursor: int, pc: Pc, held: bool, expired: bool)
  datatype Desk = Desk(calls: map<nat, Call>, slots: nat)

  datatype State = State(store: Store, life: Life, wires: Wires, desk: Desk)

  predicate Init(s: State) {
    && s.store.edits == map[] && s.desk == Desk(map[], 0)
    && s.wires == Wires(false, false, false, 0, {}, false)
    && s.life == Life(NoStart, false, false, false, 0, false, SettleNew, PumpNew, NotClosing)
  }

  // ------------------------------------------------------------------ steps

  datatype LifeStep =
    | Begin | SourceFails | Watch | Register | FinishStart
    | Cancel | Inspect | Deregister | StopSource | JoinSettler | JoinPump
  datatype WireStep = SettleEnds | SettleLeaves | PumpTakes | PumpSeesEnd | PumpCancelled | PumpTurns | PumpLeaves
  datatype EditStep = WriteHere(content: int) | WriteElsewhere(content: int) | CopyLive | Signal | NativeSignal
  datatype CallStep = Observe(cursor: int, noWait: bool) | Load | Look | Fail | Decide | Expire | Wake | Release
  datatype Step = OfLife(life: LifeStep) | OfWires(wire: WireStep) | OfEdit(id: nat, edit: EditStep) | OfCall(id: nat, call: CallStep)

  predicate LifeEnabled(l: Life, step: LifeStep) {
    match step
    case Begin => l.starter == NoStart && l.closer == NotClosing && !l.initialized
    case SourceFails => l.starter == Checked
    case Watch => l.starter == Checked
    case Register => l.starter == Watched
    case FinishStart => l.starter == Registered
    case Cancel => l.closer == NotClosing
    case Inspect => l.closer == Cancelled && l.starter == NoStart
    case Deregister => l.closer == Inspected
    case StopSource => l.closer == Deregistered
    case JoinSettler => l.closer == Stopped && l.settler == SettleGone
    case JoinPump => l.closer == Joined && l.pump == PumpGone
  }

  function LifeAfter(l: Life, step: LifeStep): Life
    requires LifeEnabled(l, step)
  {
    match step
    case Begin => l.(starter := Checked, initialized := true)
    case SourceFails => l.(starter := NoStart, failed := true)
    case Watch => l.(starter := Watched, sources := l.sources + 1)
    case Register => l.(starter := Registered, registered := true, settler := SettleRunning)
    case FinishStart => l.(starter := NoStart, stopSet := true, pump := PumpSelecting)
    case Cancel => l.(closer := Cancelled)
    case Inspect => l.(closer := if l.stopSet then Inspected else Returned)
    case Deregister => l.(closer := Deregistered, registered := false)
    case StopSource => l.(closer := Stopped)
    case JoinSettler => l.(closer := Joined)
    case JoinPump => l.(closer := Returned)
  }

  /** The settling goroutine and the pump. */
  predicate WireEnabled(l: Life, w: Wires, step: WireStep) {
    match step
    case SettleEnds => l.settler == SettleRunning
    case SettleLeaves => l.settler == SettleClosing
    case PumpTakes => l.pump == PumpSelecting && w.token
    case PumpSeesEnd => l.pump == PumpSelecting && !w.token && w.chanClosed
    case PumpCancelled => l.pump == PumpSelecting && l.closer != NotClosing
    case PumpTurns => l.pump.PumpGot? && l.starter == NoStart
    case PumpLeaves => l.pump == PumpLeaving
  }

  function WireAfter(l: Life, w: Wires, step: WireStep): (Life, Wires)
    requires WireEnabled(l, w, step)
  {
    match step
    case SettleEnds => (l.(settler := SettleClosing), w.(closed := true, chanClosed := true, panicked := w.panicked || w.chanClosed))
    case SettleLeaves => (l.(settler := SettleGone), w)
    case PumpTakes => (l.(pump := PumpGot(true)), w.(token := false))
    case PumpSeesEnd => (l.(pump := PumpGot(false)), w)
    case PumpCancelled => (l.(pump := PumpLeaving), w)
    case PumpTurns =>
      (l.(failed := l.failed || !l.pump.ok, pump := if l.pump.ok then PumpSelecting else PumpLeaving),
       w.(shut := w.shut + {w.cur}, cur := w.cur + 1, panicked := w.panicked || w.cur in w.shut))
    case PumpLeaves => (l.(pump := PumpGone), w)
  }

  /** signal: nothing once closed, else a token if there is room for one. */
  function Signalled(w: Wires): Wires {
    if w.closed then w else if w.chanClosed then w.(panicked := true) else w.(token := true)
  }

  predicate EditEnabled(l: Life, edits: map<nat, Edit>, id: nat, step: EditStep) {
    match step
    case WriteHere(_) => id !in edits
    case WriteElsewhere(_) => id !in edits
    case CopyLive => id in edits && edits[id].stage == Wrote
    case Signal => id in edits && edits[id].stage.Copied?
    case NativeSignal => id in edits && edits[id].stage == Native && l.settler == SettleRunning
  }

  /** A write elsewhere is noticed natively once the directories are watched. */
  function StoreAfter(l: Life, m: Store, id: nat, step: EditStep): Store
    requires EditEnabled(l, m.edits, id, step)
  {
    match step
    case WriteHere(x) => Store(m.ver + 1, x, m.edits[id := Edit(Wrote, m.ver + 1)])
    case WriteElsewhere(x) => Store(m.ver + 1, x, if l.sources > 0 then m.edits[id := Edit(Native, m.ver + 1)] else m.edits)
    case CopyLive => m.(edits := m.edits[id := Edit(Copied(l.registered), m.edits[id].ver)])
    case Signal => m.(edits := m.edits - {id})
    case NativeSignal => m.(edits := m.edits - {id})
  }

  predicate Rings(edits: map<nat, Edit>, id: nat, step: EditStep) {
    step == NativeSignal || (step == Signal && id in edits && edits[id].stage == Copied(true))
  }

  function Here(s: State, id: nat): Call {
    if id in s.desk.calls then s.desk.calls[id] else Call(0, Top, false, false)
  }

  predicate CallEnabled(s: State, id: nat, step: CallStep) {
    var pc := Here(s, id).pc;
    if step.Observe? then s.life.stopSet && id !in s.desk.calls
    else
      id in s.desk.calls &&
      match step
      case Load => pc == Top && s.life.starter == NoStart
      case Look => pc.Loaded?
      case Decide => pc.Looked?
      case Expire => pc.Blocked?
      case Wake => pc.Blocked? && pc.gen in s.wires.shut
      case Release => pc.Leaving? && (s.desk.calls[id].held ==> s.desk.slots > 0)
      case _ => !pc.Leaving? && !pc.Gone?
  }

  /** After the read: another content is the answer; the same content is, once the wait is over; else take a slot and wait. */
  function Decided(c: Call, slots: nat): Call
    requires c.pc.Looked?
  {
    if c.pc.seen != c.cursor then c.(pc := Leaving(Snapshot(c.pc.seen)))
    else if c.expired then c.(pc := Leaving(Unchanged(c.pc.seen, c.pc.late)))
    else if c.held || slots < SLOTS then c.(held := true, pc := Blocked(c.pc.gen, c.pc.ver))
    else c.(pc := Leaving(Unavailable(NoSlot(c.pc.seen, c.pc.late, slots))))
  }

  function CallAfter(s: State, id: nat, step: CallStep): Call
    requires CallEnabled(s, id, step)
  {
    var c := Here(s, id);
    match step
    case Observe(cursor, noWait) => Call(cursor, Top, false, noWait)
    case Load => c.(pc := if s.life.failed then Leaving(Unavailable(SourceFailed)) else Loaded(s.wires.cur))
    case Look => c.(pc := Looked(c.pc.gen, s.store.ver, s.store.content, c.expired))
    case Fail => c.(pc := Leaving(Failure))
    case Decide => Decided(c, s.desk.slots)
    case Expire => c.(pc := Top, expired := true)
    case Wake => c.(pc := Top)
    case Release => c.(held := false, pc := Gone(c.pc.outcome))
  }

  function SlotsAfter(s: State, id: nat, step: CallStep): nat
    requires CallEnabled(s, id, step)
  {
    var was := Here(s, id).held;
    var now := CallAfter(s, id, step).held;
    if !was && now then s.desk.slots + 1 else if was && !now && step == Release then s.desk.slots - 1 else s.desk.slots
  }

  predicate Enabled(s: State, step: Step) {
    match step
    case OfLife(a) => LifeEnabled(s.life, a)
    case OfWires(a) => WireEnabled(s.life, s.wires, a)
    case OfEdit(id, a) => EditEnabled(s.life, s.store.edits, id, a)
    case OfCall(id, a) => CallEnabled(s, id, a)
  }

  function After(s: State, step: Step): State
    requires Enabled(s, step)
  {
    match step
    case OfLife(a) => s.(life := LifeAfter(s.life, a))
    case OfWires(a) => var (l, w) := WireAfter(s.life, s.wires, a); s.(life := l, wires := w)
    case OfEdit(id, a) =>
      s.(store := StoreAfter(s.life, s.store, id, a), wires := if Rings(s.store.edits, id, a) then Signalled(s.wires) else s.wires)
    case OfCall(id, a) => s.(desk := Desk(s.desk.calls[id := CallAfter(s, id, a)], SlotsAfter(s, id, a)))
  }

  ghost predicate Run(run: seq<State>, steps: seq<Step>) {
    && |run| == |steps| + 1 && Init(run[0])
    && forall i :: 0 <= i < |steps| ==> Enabled(run[i], steps[i]) && run[i + 1] == After(run[i], steps[i])
  }

  // ------------------------------------------------------------- invariants

  /** Past the look under the mutex nothing can start any more. */
  predicate Late(c: Closer) {
    c != NotClosing && c != Cancelled
  }

  /** Who has started, who may still start, and how far closing has come. */
  predicate Lifecycle(l: Life) {
    && l.sources == (if l.starter == Watched || l.starter == Registered || l.stopSet then 1 else 0)
    && (l.starter != NoStart ==> l.initialized && !l.stopSet && !l.failed)
    && (l.stopSet || l.failed ==> l.initialized) && (l.initialized && l.starter == NoStart ==> l.stopSet || l.failed)
    && (l.settler == SettleNew <==> !(l.starter == Registered || l.stopSet))
    && (l.pump == PumpNew <==> !l.stopSet)
    && (Late(l.closer) ==> l.starter == NoStart)
    && (Late(l.closer) && l.closer != Returned ==> l.stopSet)
    && (l.registered <==> (l.starter == Registered || l.stopSet) && (!Late(l.closer) || l.closer == Inspected))
    && (l.closer == Joined || (l.closer == Returned && l.stopSet) ==> l.settler == SettleGone)
    && (l.closer == Returned && l.stopSet ==> l.pump == PumpGone)
  }

  /** Channels: closed at most once, never sent on afterwards. */
  ghost predicate Channels(l: Life, w: Wires) {
    && !w.panicked
    && (w.closed <==> w.chanClosed) && (w.chanClosed <==> l.settler == SettleClosing || l.settler == SettleGone)
    && (forall g :: g in w.shut <==> 0 <= g < w.cur)
    && (l.pump == PumpGot(false) ==> w.chanClosed)
    && (l.pump == PumpLeaving || l.pump == PumpGone ==> l.closer != NotClosing || l.failed)
    && (l.failed && l.stopSet ==> w.chanClosed && (l.pump == PumpLeaving || l.pump == PumpGone))
  }

  /** The channel a call holds was open and healthy when it was taken. */
  predicate Holds(s: State, pc: Pc) {
    match pc
    case Loaded(g) => g <= s.wires.cur && (s.life.failed ==> g < s.wires.cur)
    case Looked(g, v, _, _) => g <= s.wires.cur && (s.life.failed ==> g < s.wires.cur) && v <= s.store.ver
    case Blocked(g, v) => g <= s.wires.cur && (s.life.failed ==> g < s.wires.cur) && v <= s.store.ver
    case _ => true
  }

  /** What a finished call may have answered. */
  predicate Honest(c: Call, failed: bool) {
    && (c.pc.Looked? ==> c.pc.late == c.expired) && (c.pc.Blocked? ==> !c.expired)
    && (c.pc.Leaving? || c.pc.Gone? ==>
          match c.pc.outcome
          case Snapshot(x) => x != c.cursor
          case Unchanged(x, late) => x == c.cursor && late
          case Unavailable(SourceFailed) => failed
          case Unavailable(NoSlot(x, late, taken)) => x == c.cursor && !late && taken >= SLOTS
          case Failure => true)
  }

  predicate Calls(s: State) {
    && (s.desk.calls != map[] ==> s.life.stopSet)
    && forall id :: id in s.desk.calls ==> Holds(s, s.desk.calls[id].pc) && Honest(s.desk.calls[id], s.life.failed)
  }

  function Holders(calls: map<nat, Call>): set<nat> {
    set id | id in calls && calls[id].held
  }

  /** Slots: one token for each call that holds one, and only calls on their way hold one. */
  predicate Slots(d: Desk) {
    && d.slots == |Holders(d.calls)| <= SLOTS
    && forall id :: id in d.calls ==> (d.calls[id].pc.Blocked? ==> d.calls[id].held) && (d.calls[id].pc.Gone? ==> !d.calls[id].held)
  }

  /** An edit newer than version v that is still on its way to the queue. */
  predicate OnItsWay(s: State, id: nat, v: nat) {
    && id in s.store.edits && s.store.edits[id].ver > v
    && match s.store.edits[id].stage
       case Wrote => true
       case Copied(hit) => hit
       case Native => s.life.settler == SettleRunning
  }

  /** Something is under way that ends with the open channel being closed. */
  ghost predicate Coming(s: State, v: nat) {
    s.wires.token || s.wires.chanClosed || s.life.pump.PumpGot? || exists id :: OnItsWay(s, id, v)
  }

  /** A call that has read version v waits on the channel that is still open, and the store has moved on. */
  predicate Stale(s: State, pc: Pc) {
    (pc.Looked? || pc.Blocked?) && pc.gen == s.wires.cur && pc.ver < s.store.ver
  }

  /** No lost wakeup: whoever is stale has a wakeup coming, as long as the subscription is registered. */
  ghost predicate Watchful(s: State) {
    s.life.registered ==>
      forall id :: id in s.desk.calls && Stale(s, s.desk.calls[id].pc) ==> Coming(s, s.desk.calls[id].pc.ver)
  }

  ghost predicate Inv(s: State) {
    Lifecycle(s.life) && Channels(s.life, s.wires) && Calls(s) && Slots(s.desk) && Watchful(s)
  }

  lemma InitInv(s: State)
    requires Init(s)
    ensures Inv(s)
  {
    assert Holders(s.desk.calls) == {};
  }

  // ------------------------------------------------------------ each is kept

  lemma LifecycleKept(s: State, step: Step)
    requires Lifecycle(s.life) && Channels(s.life, s.wires) && Enabled(s, step)
    ensures Lifecycle(After(s, step).life)
  {
  }

  lemma ChannelsKept(s: State, step: Step)
    requires Lifecycle(s.life) && Channels(s.life, s.wires) && Enabled(s, step)
    ensures Channels(After(s, step).life, After(s, step).wires)
  {
  }

  lemma CallsKept(s: State, step: Step)
    requires Lifecycle(s.life) && Channels(s.life, s.wires) && Calls(s) && Enabled(s, step)
    ensures Calls(After(s, step))
  {
    var t := After(s, step);
    match step {
      case OfCall(id, a) => CallKept(s, id, a);
      case _ =>
        forall id | id in t.desk.calls
          ensures Holds(t, t.desk.calls[id].pc) && Honest(t.desk.calls[id], t.life.failed)
        {
          assert Holds(s, s.desk.calls[id].pc) && Honest(s.desk.calls[id], s.life.failed);
        }
    }
  }

  lemma CallKept(s: State, id: nat, a: CallStep)
    requires Lifecycle(s.life) && Channels(s.life, s.wires) && Calls(s) && CallEnabled(s, id, a)
    ensures Calls(After(s, OfCall(id, a)))
  {
    var t := After(s, OfCall(id, a));
    assert id in s.desk.calls ==> Holds(s, s.desk.calls[id].pc) && Honest(s.desk.calls[id], s.life.failed);
    assert Holds(t, CallAfter(s, id, a).pc) && Honest(CallAfter(s, id, a), s.life.failed);
    forall k | k in t.desk.calls
      ensures Holds(t, t.desk.calls[k].pc) && Honest(t.desk.calls[k], t.life.failed)
    {
      if k != id {
        assert Holds(s, s.desk.calls[k].pc) && Honest(s.desk.calls[k], s.life.failed);
      }
    }
  }

  lemma SlotsKept(s: State, step: Step)
    requires Slots(s.desk) && Enabled(s, step)
    ensures Slots(After(s, step).desk)
  {
    hide Slots, LifeAfter, WireAfter, StoreAfter, CallAfter, SlotsAfter;
    if step.OfCall? {
      SlotsCall(s, step.id, step.call);
    }
  }

  /** A step takes a slot when it starts to hold one, if there is one, and gives back what it stops holding. */
  lemma HeldMoves(s: State, id: nat, a: CallStep)
    requires CallEnabled(s, id, a)
    ensures var was, c := Here(s, id).held, CallAfter(s, id, a);
      && SlotsAfter(s, id, a) == s.desk.slots + (if c.held && !was then 1 else 0) - (if was && !c.held then 1 else 0)
      && (c.held && !was ==> s.desk.slots < SLOTS)
      && (c.pc.Blocked? ==> c.held) && (c.pc.Gone? ==> !c.held)
  {
  }

  lemma SlotsCall(s: State, id: nat, a: CallStep)
    requires Slots(s.desk) && CallEnabled(s, id, a)
    ensures Slots(Desk(s.desk.calls[id := CallAfter(s, id, a)], SlotsAfter(s, id, a)))
  {
    hide CallEnabled, CallAfter, SlotsAfter;
    var c := CallAfter(s, id, a);
    HeldMoves(s, id, a);
    HoldersAfter(s.desk.calls, id, c);
    var h := Holders(s.desk.calls);
    assert Here(s, id).held <==> id in h;
    assert |if c.held then h + {id} else h - {id}| == |h| + (if c.held && id !in h then 1 else 0) - (if id in h && !c.held then 1 else 0) by {
      if c.held == (id in h) {
        assert (if c.held then h + {id} else h - {id}) == h;
      }
    }
  }

  lemma HoldersAfter(calls: map<nat, Call>, id: nat, c: Call)
    ensures Holders(calls[id := c]) == if c.held then Holders(calls) + {id} else Holders(calls) - {id}
  {
  }

  lemma StillComing(s: State, t: State, v: nat)
    requires Coming(s, v)
    requires s.wires.token ==> t.wires.token || t.life.pump.PumpGot?
    requires s.wires.chanClosed ==> t.wires.chanClosed
    requires s.life.pump.PumpGot? ==> t.life.pump.PumpGot?
    requires forall id :: OnItsWay(s, id, v) ==> OnItsWay(t, id, v) || t.wires.token || t.wires.chanClosed
    ensures Coming(t, v)
  {
    if !s.wires.token && !s.wires.chanClosed && !s.life.pump.PumpGot? {
      var id :| OnItsWay(s, id, v);
      assert OnItsWay(t, id, v) || t.wires.token || t.wires.chanClosed;
    }
  }

  lemma WatchfulLife(s: State, a: LifeStep)
    requires Inv(s) && LifeEnabled(s.life, a)
    ensures Watchful(After(s, OfLife(a)))
  {
    var t := After(s, OfLife(a));
    forall id | t.life.registered && id in t.desk.calls && Stale(t, t.desk.calls[id].pc)
      ensures Coming(t, t.desk.calls[id].pc.ver)
    {
      assert Stale(s, s.desk.calls[id].pc);
      StillComing(s, t, t.desk.calls[id].pc.ver);
    }
  }

  lemma WatchfulWires(s: State, a: WireStep)
    requires Inv(s) && WireEnabled(s.life, s.wires, a)
    ensures Watchful(After(s, OfWires(a)))
  {
    var t := After(s, OfWires(a));
    forall id | t.life.registered && id in t.desk.calls && Stale(t, t.desk.calls[id].pc)
      ensures Coming(t, t.desk.calls[id].pc.ver)
    {
      assert Holds(s, s.desk.calls[id].pc);
      assert a != PumpTurns && Stale(s, s.desk.calls[id].pc);
      StillComing(s, t, t.desk.calls[id].pc.ver);
    }
  }

  lemma WatchfulEdit(s: State, id: nat, a: EditStep)
    requires Inv(s) && EditEnabled(s.life, s.store.edits, id, a)
    ensures Watchful(After(s, OfEdit(id, a)))
  {
    var t := After(s, OfEdit(id, a));
    forall k | t.life.registered && k in t.desk.calls && Stale(t, t.desk.calls[k].pc)
      ensures Coming(t, t.desk.calls[k].pc.ver)
    {
      var v := t.desk.calls[k].pc.ver;
      assert Holds(s, s.desk.calls[k].pc);
      if a.WriteHere? || a.WriteElsewhere? {
        assert OnItsWay(t, id, v) || t.wires.chanClosed;
      } else {
        assert Stale(s, s.desk.calls[k].pc);
        StillComing(s, t, v);
      }
    }
  }

  lemma WatchfulCall(s: State, id: nat, a: CallStep)
    requires Inv(s) && CallEnabled(s, id, a)
    ensures Watchful(After(s, OfCall(id, a)))
  {
    var t := After(s, OfCall(id, a));
    forall k | t.life.registered && k in t.desk.calls && Stale(t, t.desk.calls[k].pc)
      ensures Coming(t, t.desk.calls[k].pc.ver)
    {
      assert k in s.desk.calls && Stale(s, s.desk.calls[k].pc);
      StillComing(s, t, t.desk.calls[k].pc.ver);
    }
  }

  lemma InvKept(s: State, step: Step)
    requires Inv(s) && Enabled(s, step)
    ensures Inv(After(s, step))
  {
    hide *;
    InvParts(s);
    LifecycleKept(s, step);
    ChannelsKept(s, step);
    CallsKept(s, step);
    SlotsKept(s, step);
    WatchfulKept(s, step);
    InvWhole(After(s, step));
  }

  lemma InvParts(s: State)
    requires Inv(s)
    ensures Lifecycle(s.life) && Channels(s.life, s.wires) && Calls(s) && Slots(s.desk)
  {
  }

  lemma InvWhole(s: State)
    requires Lifecycle(s.life) && Channels(s.life, s.wires) && Calls(s) && Slots(s.desk) && Watchful(s)
    ensures Inv(s)
  {
  }

  lemma WatchfulKept(s: State, step: Step)
    requires Inv(s) && Enabled(s, step)
    ensures Watchful(After(s, step))
  {
    hide Inv, Watchful, LifeEnabled, WireEnabled, EditEnabled, CallEnabled, After;
    match step
    case OfLife(a) => WatchfulLife(s, a);
    case OfWires(a) => WatchfulWires(s, a);
    case OfEdit(id, a) => WatchfulEdit(s, id, a);
    case OfCall(id, a) => WatchfulCall(s, id, a);
  }

  // ------------------------------------------------------------ over all runs

  /** Everything above holds in every state of every run. */
  lemma {:induction false} Always(run: seq<State>, steps: seq<Step>, i: nat)
    requires Run(run, steps) && i < |run|
    ensures Inv(run[i])
    decreases i
  {
    hide Init, Inv, Enabled, After;
    if i == 0 {
      InitInv(run[0]);
    } else {
      Always(run, steps, i - 1);
      InvKept(run[i - 1], steps[i - 1]);
    }
  }

  /**
   * No lost wakeup, on any run: until Close takes the subscription out of the registry, a call
   * blocked on a channel that is still open although the store has changed since it read has a
   * wakeup coming. StrandedIsReached shows that the promise ends exactly there.
   */
  lemma NoLostWakeup(run: seq<State>, steps: seq<Step>, i: nat, id: nat)
    requires Run(run, steps) && i < |run|
    requires run[i].life.registered && id in run[i].desk.calls && run[i].desk.calls[id].pc.Blocked?
    requires var pc := run[i].desk.calls[id].pc; pc.gen !in run[i].wires.shut && pc.ver < run[i].store.ver
    ensures Coming(run[i], run[i].desk.calls[id].pc.ver)
  {
    Always(run, steps, i);
    var s := run[i];
    assert Holds(s, s.desk.calls[id].pc) && Stale(s, s.desk.calls[id].pc);
  }

  /** How many steps of the announcer and the pump the wakeup is away. */
  ghost function Distance(s: State, v: nat): nat {
    if s.life.pump.PumpGot? then 1
    else if s.wires.token || s.wires.chanClosed then 2
    else if exists id :: OnItsWay(s, id, v) && s.store.edits[id].stage != Wrote then 3
    else 4
  }

  /** Steps of announcing, signalling and pumping; none of them is the waiting call's own. */
  predicate Helps(step: Step) {
    || (step.OfEdit? && (step.edit == CopyLive || step.edit == Signal || step.edit == NativeSignal))
    || (step.OfWires? && (step.wire == PumpTakes || step.wire == PumpSeesEnd || step.wire == PumpTurns))
  }

  /** The wakeup that is coming can always come closer: nobody it depends on is blocked. */
  lemma HelpIsAtHand(s: State, id: nat) returns (step: Step)
    requires Inv(s) && s.life.closer == NotClosing && id in s.desk.calls && Stale(s, s.desk.calls[id].pc)
    ensures Helps(step) && Enabled(s, step)
    ensures var t := After(s, step); var c := s.desk.calls[id].pc; c.gen in t.wires.shut || Distance(t, c.ver) < Distance(s, c.ver)
  {
    var v := s.desk.calls[id].pc.ver;
    assert Holds(s, s.desk.calls[id].pc);
    if s.life.pump.PumpGot? {
      step := OfWires(PumpTurns);
    } else if s.wires.token {
      step := OfWires(PumpTakes);
    } else if s.wires.chanClosed {
      step := OfWires(PumpSeesEnd);
    } else if k :| OnItsWay(s, k, v) && s.store.edits[k].stage != Wrote {
      step := OfEdit(k, if s.store.edits[k].stage == Native then NativeSignal else Signal);
    } else {
      var k :| OnItsWay(s, k, v);
      step := OfEdit(k, CopyLive);
      assert OnItsWay(After(s, step), k, v);
    }
  }

  /** Whatever else happens, it does not move further away: not a full queue, not another edit, not a failing source. */
  lemma NoSetback(s: State, step: Step, id: nat)
    requires Inv(s) && Enabled(s, step) && s.life.closer == NotClosing && id in s.desk.calls && Stale(s, s.desk.calls[id].pc)
    ensures var t := After(s, step); var c := s.desk.calls[id].pc;
      t.life.closer != NotClosing || c.gen in t.wires.shut || Distance(t, c.ver) <= Distance(s, c.ver)
  {
    hide CallAfter, SlotsAfter, Slots, Honest;
    var t, v := After(s, step), s.desk.calls[id].pc.ver;
    if k :| OnItsWay(s, k, v) && s.store.edits[k].stage != Wrote {
      assert (OnItsWay(t, k, v) && t.store.edits[k].stage != Wrote) || t.wires.token || t.wires.chanClosed || t.life.pump.PumpGot?;
    }
  }

  lemma LifeStartsOnce(l: Life, a: LifeStep)
    requires Lifecycle(l) && LifeEnabled(l, a)
    ensures var m := LifeAfter(l, a);
      l.sources <= m.sources <= 1 && (Late(l.closer) ==> m.sources == l.sources) && (l.failed ==> m.failed)
  {
  }

  lemma WireStartsNone(l: Life, w: Wires, a: WireStep)
    requires WireEnabled(l, w, a)
    ensures var m := WireAfter(l, w, a).0; m.sources == l.sources && (l.failed ==> m.failed)
  {
  }

  /**
   * One source at most, and none once Close has looked; a start that is over has left a source running
   * or a failure, and a failure is never taken back.
   */
  lemma StartsOnce(run: seq<State>, steps: seq<Step>, i: nat)
    requires Run(run, steps) && i < |steps|
    ensures run[i].life.sources <= run[i + 1].life.sources <= 1
    ensures Late(run[i].life.closer) ==> run[i + 1].life.sources == run[i].life.sources
    ensures run[i].life.failed ==> run[i + 1].life.failed
    ensures var l := run[i + 1].life; l.initialized && l.starter == NoStart ==> l.stopSet || l.failed
    ensures !run[i + 1].wires.panicked
  {
    Always(run, steps, i);
    Always(run, steps, i + 1);
    InvParts(run[i]);
    InvParts(run[i + 1]);
    AtMostOne(run[i].life);
    AtMostOne(run[i + 1].life);
    assert run[i + 1] == After(run[i], steps[i]);
    hide Inv, Lifecycle, LifeAfter, WireAfter, LifeEnabled, WireEnabled, EditEnabled, CallEnabled, StoreAfter, CallAfter, SlotsAfter, Run;
    match steps[i]
    case OfLife(a) => LifeStartsOnce(run[i].life, a);
    case OfWires(a) => WireStartsNone(run[i].life, run[i].wires, a);
    case _ =>
  }

  lemma AtMostOne(l: Life)
    requires Lifecycle(l)
    ensures l.sources <= 1 && (l.initialized && l.starter == NoStart ==> l.stopSet || l.failed)
  {
  }

  /** When Close has returned, a source that ever started is unsubscribed and stopped, and its pump is gone. */
  lemma CloseJoins(run: seq<State>, steps: seq<Step>, i: nat)
    requires Run(run, steps) && i < |run| && run[i].life.closer == Returned && run[i].life.sources > 0
    ensures var l := run[i].life; !l.registered && l.settler == SettleGone && l.pump == PumpGone && l.stopSet
  {
    Always(run, steps, i);
  }

  /** What is left to do before Close can return. */
  function Remaining(l: Life, w: Wires): nat {
    (match l.closer
     case NotClosing => 6 case Cancelled => 5 case Inspected => 4 case Deregistered => 3 case Stopped => 2 case Joined => 1 case Returned => 0)
    + (match l.starter case NoStart => 0 case Checked => 3 case Watched => 2 case Registered => 1)
    + (match l.settler case SettleNew => 3 case SettleRunning => 2 case SettleClosing => 1 case SettleGone => 0)
    + (match l.pump
       case PumpNew => 5 case PumpSelecting => 3 case PumpGot(true) => 4 case PumpGot(false) => 2 case PumpLeaving => 1 case PumpGone => 0)
    + (if w.token then 2 else 0)
  }

  /** The step that brings a start under way, or the look under the mutex, closer to its end. */
  function StartEnds(l: Life): LifeStep {
    match l.starter
    case Checked => Watch
    case Watched => Register
    case Registered => FinishStart
    case NoStart => Inspect
  }

  function PumpEnds(l: Life): Step {
    match l.pump
    case PumpSelecting => OfWires(PumpCancelled)
    case PumpGot(_) => OfWires(PumpTurns)
    case PumpLeaving => OfWires(PumpLeaves)
    case _ => OfLife(JoinPump)
  }

  function SettlerEnds(l: Life): Step {
    match l.settler
    case SettleRunning => OfWires(SettleEnds)
    case SettleClosing => OfWires(SettleLeaves)
    case _ => OfLife(JoinSettler)
  }

  /** The step that closing waits for. */
  function Closing(l: Life): Step {
    match l.closer
    case Inspected => OfLife(Deregister)
    case Deregistered => OfLife(StopSource)
    case Stopped => SettlerEnds(l)
    case Joined => PumpEnds(l)
    case _ => OfLife(StartEnds(l))
  }

  lemma LifeProceeds(l: Life, w: Wires)
    requires Lifecycle(l) && (l.closer == Cancelled || l.closer == Inspected || l.closer == Deregistered)
    ensures var a := Closing(l); a.OfLife? && LifeEnabled(l, a.life) && Remaining(LifeAfter(l, a.life), w) < Remaining(l, w)
  {
  }

  lemma SettlerProceeds(l: Life, w: Wires)
    requires Lifecycle(l) && l.closer == Stopped
    ensures var a := SettlerEnds(l);
      if a.OfWires? then WireEnabled(l, w, a.wire) && Left(WireAfter(l, w, a.wire)) < Remaining(l, w)
      else a.OfLife? && LifeEnabled(l, a.life) && Remaining(LifeAfter(l, a.life), w) < Remaining(l, w)
  {
  }

  lemma PumpProceeds(l: Life, w: Wires)
    requires Lifecycle(l) && l.closer == Joined
    ensures var a := PumpEnds(l);
      if a.OfWires? then WireEnabled(l, w, a.wire) && Left(WireAfter(l, w, a.wire)) < Remaining(l, w)
      else a.OfLife? && LifeEnabled(l, a.life) && Remaining(LifeAfter(l, a.life), w) < Remaining(l, w)
  {
  }

  function Left(after: (Life, Wires)): nat {
    Remaining(after.0, after.1)
  }

  /** No deadlock: until Close returns, the step it waits for can be taken, and it brings the end closer. */
  lemma CloseProceeds(s: State)
    requires Inv(s) && s.life.closer != NotClosing && s.life.closer != Returned
    ensures var step := Closing(s.life); Enabled(s, step) && Ahead(After(s, step)) < Ahead(s)
    ensures Closing(s.life) == OfWires(SettleEnds) ==> s.life.closer == Stopped
  {
    InvParts(s);
    hide Inv, Lifecycle, Remaining, LifeAfter, WireAfter, LifeEnabled, WireEnabled, StartEnds;
    if s.life.closer == Stopped {
      SettlerProceeds(s.life, s.wires);
    } else if s.life.closer == Joined {
      PumpProceeds(s.life, s.wires);
    } else {
      LifeProceeds(s.life, s.wires);
    }
  }

  function Ahead(s: State): nat {
    Remaining(s.life, s.wires)
  }

  lemma LifePace(l: Life, w: Wires, a: LifeStep)
    requires Lifecycle(l) && LifeEnabled(l, a) && l.closer != NotClosing
    ensures Remaining(LifeAfter(l, a), w) <= Remaining(l, w)
  {
  }

  lemma WirePace(l: Life, w: Wires, a: WireStep)
    requires WireEnabled(l, w, a)
    ensures Left(WireAfter(l, w, a)) <= Remaining(l, w)
  {
  }

  /** Nothing adds to what is left but a signal that still finds the queue open and empty. */
  lemma CloseKeepsPace(s: State, step: Step)
    requires Inv(s) && Enabled(s, step) && s.life.closer != NotClosing
    ensures var t := After(s, step);
      Ahead(t) <= Ahead(s) + if !s.wires.closed && !s.wires.token && t.wires.token then 2 else 0
  {
    InvParts(s);
    hide Inv, Lifecycle, LifeAfter, WireAfter, LifeEnabled, WireEnabled, StoreAfter, CallAfter, SlotsAfter, Rings, EditEnabled, CallEnabled;
    match step
    case OfLife(a) => LifePace(s.life, s.wires, a);
    case OfWires(a) =>
      WirePace(s.life, s.wires, a);
    case OfEdit(_, _) =>
    case OfCall(_, _) =>
  }

  /** A call on its way out always finds its own slot to give back. */
  lemma ReleaseNeverBlocks(run: seq<State>, steps: seq<Step>, i: nat, id: nat)
    requires Run(run, steps) && i < |run| && id in run[i].desk.calls && run[i].desk.calls[id].pc.Leaving?
    ensures Enabled(run[i], OfCall(id, Release)) && run[i].desk.slots == |Holders(run[i].desk.calls)| <= SLOTS
    ensures var d := After(run[i], OfCall(id, Release)).desk; !d.calls[id].held && d.slots == |Holders(d.calls)|
  {
    Always(run, steps, i);
    var s := run[i];
    if s.desk.calls[id].held {
      assert id in Holders(s.desk.calls);
    }
    SlotsKept(s, OfCall(id, Release));
  }

  /**
   * An answer is honest: a snapshot differs from the cursor; unchanged rests on a read after the wait
   * was over; unavailable means that the source has failed, or that the same content was read in time
   * and every slot was taken.
   */
  lemma AnswersAreHonest(run: seq<State>, steps: seq<Step>, i: nat, id: nat)
    requires Run(run, steps) && i < |run| && id in run[i].desk.calls && run[i].desk.calls[id].pc.Gone?
    ensures var c := run[i].desk.calls[id]; !c.held && match c.pc.outcome
      case Snapshot(x) => x != c.cursor
      case Unchanged(x, late) => x == c.cursor && late
      case Unavailable(SourceFailed) => run[i].life.failed
      case Unavailable(NoSlot(x, late, taken)) => x == c.cursor && !late && taken >= SLOTS
      case Failure => true
  {
    Always(run, steps, i);
  }

  /** What a call does after its read is forced: it answers what it has to, and waits only when nothing is to be answered. */
  lemma DecisionIsForced(run: seq<State>, steps: seq<Step>, i: nat, id: nat)
    requires Run(run, steps) && i < |steps| && steps[i] == OfCall(id, Decide)
    ensures id in run[i].desk.calls && run[i].desk.calls[id].pc.Looked? && id in run[i + 1].desk.calls
    ensures var c, d, slots := run[i].desk.calls[id], run[i + 1].desk.calls[id].pc, run[i].desk.slots; var same := c.pc.seen == c.cursor;
      && (d == Leaving(Snapshot(c.pc.seen)) <==> !same)
      && (d.Leaving? && d.outcome.Unchanged? <==> same && c.expired)
      && (d.Blocked? <==> same && !c.expired && (c.held || slots < SLOTS))
      && (d.Leaving? && d.outcome.Unavailable? <==> same && !c.expired && !c.held && slots == SLOTS)
    ensures run[i + 1].desk.calls[id].pc.Blocked? ==> run[i + 1].desk.calls[id].held
  {
    Always(run, steps, i);
    InvParts(run[i]);
    assert Enabled(run[i], steps[i]) && run[i + 1] == After(run[i], steps[i]);
    hide Inv, Lifecycle, Channels, Calls, Holders;
  }

  /** And what it does before it: nothing is read from a source that has failed. */
  lemma LoadIsForced(run: seq<State>, steps: seq<Step>, i: nat, id: nat)
    requires Run(run, steps) && i < |steps| && steps[i] == OfCall(id, Load)
    ensures id in run[i + 1].desk.calls
    ensures run[i + 1].desk.calls[id].pc == if run[i].life.failed then Leaving(Unavailable(SourceFailed)) else Loaded(run[i].wires.cur)
  {
    assert Enabled(run[i], steps[i]) && run[i + 1] == After(run[i], steps[i]);
  }

  /** A call begins with nothing read and no slot held; one that is not to wait has used its wait up already. */
  lemma BeginsFresh(run: seq<State>, steps: seq<Step>, i: nat, id: nat, cursor: int, noWait: bool)
    requires Run(run, steps) && i < |steps| && steps[i] == OfCall(id, Observe(cursor, noWait))
    ensures id !in run[i].desk.calls && id in run[i + 1].desk.calls && run[i].life.stopSet
    ensures var c := run[i + 1].desk.calls[id]; c.cursor == cursor && c.pc == Top && !c.held && (c.expired <==> noWait)
  {
    assert Enabled(run[i], steps[i]) && run[i + 1] == After(run[i], steps[i]);
  }

  /** Whatever a call is doing, short of leaving, it can be ended, and then leaves without an answer. */
  lemma CanBeEnded(s: State, id: nat)
    requires id in s.desk.calls && !s.desk.calls[id].pc.Leaving? && !s.desk.calls[id].pc.Gone?
    ensures Enabled(s, OfCall(id, Fail))
    ensures id in After(s, OfCall(id, Fail)).desk.calls && After(s, OfCall(id, Fail)).desk.calls[id].pc == Leaving(Failure)
  {
  }

  /** The content a call has read, as far as it remembers. */
  function Seen(pc: Pc): Option<int> {
    match pc
    case Looked(_, _, x, _) => Some(x)
    case Leaving(outcome) => Rests(outcome)
    case Gone(outcome) => Rests(outcome)
    case _ => None
  }

  function Rests(outcome: Outcome): Option<int> {
    match outcome
    case Snapshot(x) => Some(x)
    case Unchanged(x, _) => Some(x)
    case Unavailable(NoSlot(x, _, _)) => Some(x)
    case _ => None
  }

  /** What a step may make a call remember: what it remembered, or what the store holds. */
  lemma SeenStep(s: State, step: Step, id: nat)
    requires Enabled(s, step) && id in After(s, step).desk.calls && Seen(After(s, step).desk.calls[id].pc).Some?
    ensures id in s.desk.calls
    ensures var x := Seen(After(s, step).desk.calls[id].pc).value; x == s.store.content || Seen(s.desk.calls[id].pc) == Some(x)
  {
  }

  /** Every answer that rests on a content rests on one the store held while the call ran. */
  lemma {:induction false} SeenWasThere(run: seq<State>, steps: seq<Step>, i: nat, id: nat) returns (k: nat)
    requires Run(run, steps) && i < |run| && id in run[i].desk.calls && Seen(run[i].desk.calls[id].pc).Some?
    ensures k <= i && id in run[k].desk.calls && Some(run[k].store.content) == Seen(run[i].desk.calls[id].pc)
    decreases i
  {
    hide Enabled, After, Seen;
    NoCallsYet(run[0], id);
    if i > 0 {
      SeenStep(run[i - 1], steps[i - 1], id);
      if Some(run[i - 1].store.content) == Seen(run[i].desk.calls[id].pc) {
        k := i - 1;
      } else {
        k := SeenWasThere(run, steps, i - 1, id);
      }
    }
  }

  lemma NoCallsYet(s: State, id: nat)
    requires Init(s)
    ensures id !in s.desk.calls
  {
  }

  /** What a step does to a call whose wait is used up. */
  lemma LateStep(s: State, step: Step, id: nat)
    requires Enabled(s, step) && id in s.desk.calls && s.desk.calls[id].expired
    ensures id in After(s, step).desk.calls && After(s, step).desk.calls[id].expired
  {
  }

  /** A wait that is used up is used up for good: from then on the call never blocks again. */
  lemma {:induction false} LateNeverWaits(run: seq<State>, steps: seq<Step>, i: nat, j: nat, id: nat)
    requires Run(run, steps) && i <= j < |run| && id in run[i].desk.calls && run[i].desk.calls[id].expired
    ensures id in run[j].desk.calls && run[j].desk.calls[id].expired && !run[j].desk.calls[id].pc.Blocked?
    decreases j
  {
    hide Enabled, After, Init, Inv, Lifecycle, Channels, Slots, Watchful;
    if i < j {
      LateNeverWaits(run, steps, i, j - 1, id);
      LateStep(run[j - 1], steps[j - 1], id);
    }
    Always(run, steps, j);
    InvParts(run[j]);
    assert Honest(run[j].desk.calls[id], run[j].life.failed);
  }

  /** The time limit uses the wait up, a wakeup does not; either way the call reads again. */
  lemma WaitEnds(run: seq<State>, steps: seq<Step>, i: nat, id: nat)
    requires Run(run, steps) && i < |steps| && (steps[i] == OfCall(id, Expire) || steps[i] == OfCall(id, Wake))
    ensures id in run[i].desk.calls && id in run[i + 1].desk.calls && run[i + 1].desk.calls[id].pc == Top
    ensures run[i + 1].desk.calls[id].held == run[i].desk.calls[id].held
    ensures run[i + 1].desk.calls[id].expired <==> steps[i].call == Expire
  {
    Always(run, steps, i);
    InvParts(run[i]);
    assert Enabled(run[i], steps[i]) && run[i + 1] == After(run[i], steps[i]);
    assert Honest(run[i].desk.calls[id], run[i].life.failed);
    hide Inv, Lifecycle, Channels, Slots, Watchful;
  }

  // ---------------------------------------------------- such runs do happen

  const START := State(Store(0, 0, map[]), Life(NoStart, false, false, false, 0, false, SettleNew, PumpNew, NotClosing),
                       Wires(false, false, false, 0, {}, false), Desk(map[], 0))

  lemma Extend(run: seq<State>, steps: seq<Step>, step: Step)
    requires Run(run, steps) && Enabled(run[|steps|], step)
    ensures Run(run + [After(run[|steps|], step)], steps + [step])
  {
    hide Enabled, After, Init;
    var more, all := run + [After(run[|steps|], step)], steps + [step];
    forall i | 0 <= i < |all|
      ensures Enabled(more[i], all[i]) && more[i + 1] == After(more[i], all[i])
    {
      if i < |steps| {
        assert more[i] == run[i] && more[i + 1] == run[i + 1] && all[i] == steps[i];
      } else {
        assert more[i] == run[i] && all[i] == step;
      }
    }
  }

  /** A run of enabled steps from the start. */
  ghost predicate Reached(s: State) {
    exists run, steps :: Run(run, steps) && run[|steps|] == s
  }

  lemma StartIsReached()
    ensures Reached(START)
  {
    var run, steps: seq<Step> := [START], [];
    assert Run(run, steps) && run[|steps|] == START;
  }

  lemma Reach(s: State, step: Step)
    requires Reached(s) && Enabled(s, step)
    ensures Reached(After(s, step))
  {
    hide Enabled, After, Init;
    var run, steps :| Run(run, steps) && run[|steps|] == s;
    Extend(run, steps, step);
    RunLength(run, steps);
    var more, all := run + [After(s, step)], steps + [step];
    assert Run(more, all) && more[|all|] == After(s, step);
  }

  lemma RunLength(run: seq<State>, steps: seq<Step>)
    requires Run(run, steps)
    ensures |run| == |steps| + 1
  {
  }

  const SERVING := START.(life := Life(NoStart, true, false, true, 1, true, SettleRunning, PumpSelecting, NotClosing))

  lemma ServingIsReached()
    ensures Reached(SERVING)
  {
    hide Reached;
    StartIsReached();
    var s := START;
    Reach(s, OfLife(Begin));
    s := After(s, OfLife(Begin));
    Reach(s, OfLife(Watch));
    s := After(s, OfLife(Watch));
    Reach(s, OfLife(Register));
    s := After(s, OfLife(Register));
    Reach(s, OfLife(FinishStart));
  }

  /** A call can come to wait while the store moves on: the promise of a wakeup is not an empty one. */
  lemma WaitingIsReached() returns (s: State)
    ensures Reached(s) && s.life.closer == NotClosing && 0 in s.desk.calls && s.desk.calls[0].pc.Blocked?
    ensures Stale(s, s.desk.calls[0].pc) && s.desk.calls[0].pc.gen !in s.wires.shut
  {
    hide Reached;
    s := CallWaits();
    Reach(s, OfEdit(0, WriteHere(7)));
    s := After(s, OfEdit(0, WriteHere(7)));
  }

  const WAITING := SERVING.(desk := Desk(map[0 := Call(0, Blocked(0, 0), true, false)], 1))

  lemma CallWaits() returns (s: State)
    ensures Reached(s) && s == WAITING
  {
    hide Reached;
    ServingIsReached();
    s := SERVING;
    Reach(s, OfCall(0, Observe(0, false)));
    s := After(s, OfCall(0, Observe(0, false)));
    Reach(s, OfCall(0, Load));
    s := After(s, OfCall(0, Load));
    Reach(s, OfCall(0, Look));
    s := After(s, OfCall(0, Look));
    Reach(s, OfCall(0, Decide));
    s := After(s, OfCall(0, Decide));
    assert s == WAITING;
  }

  /** And Close does return after a source has started. */
  lemma ClosedIsReached() returns (s: State)
    ensures Reached(s) && s.life.closer == Returned && s.life.sources == 1
  {
    hide Reached;
    ServingIsReached();
    s := SERVING;
    Reach(s, OfLife(Cancel));
    s := After(s, OfLife(Cancel));
    Reach(s, OfLife(Inspect));
    s := After(s, OfLife(Inspect));
    Reach(s, OfLife(Deregister));
    s := After(s, OfLife(Deregister));
    Reach(s, OfLife(StopSource));
    s := After(s, OfLife(StopSource));
    Reach(s, OfWires(SettleEnds));
    s := After(s, OfWires(SettleEnds));
    Reach(s, OfWires(SettleLeaves));
    s := After(s, OfWires(SettleLeaves));
    Reach(s, OfLife(JoinSettler));
    s := After(s, OfLife(JoinSettler));
    Reach(s, OfWires(PumpCancelled));
    s := After(s, OfWires(PumpCancelled));
    Reach(s, OfWires(PumpLeaves));
    s := After(s, OfWires(PumpLeaves));
    Reach(s, OfLife(JoinPump));
    s := After(s, OfLife(JoinPump));
  }

  /**
   * Once Close has taken the subscription out of the registry the promise is over: an announcement
   * made then misses it, and a call waits on an open channel with nothing on its way.
   */
  lemma StrandedIsReached() returns (s: State)
    ensures Reached(s) && s.life.closer == Deregistered && !s.life.registered && 0 in s.desk.calls && s.desk.calls[0].pc.Blocked?
    ensures Stale(s, s.desk.calls[0].pc) && s.desk.calls[0].pc.gen !in s.wires.shut
    ensures !Coming(s, s.desk.calls[0].pc.ver)
  {
    hide Reached;
    s := CallWaits();
    Reach(s, OfLife(Cancel));
    s := After(s, OfLife(Cancel));
    Reach(s, OfLife(Inspect));
    s := After(s, OfLife(Inspect));
    Reach(s, OfLife(Deregister));
    s := After(s, OfLife(Deregister));
    Reach(s, OfEdit(0, WriteHere(7)));
    s := After(s, OfEdit(0, WriteHere(7)));
    Reach(s, OfEdit(0, CopyLive));
    s := After(s, OfEdit(0, CopyLive));
  }

  /** And once Close has cancelled, the pump may leave before it serves what is on its way. */
  lemma UnservedIsReached() returns (s: State)
    ensures Reached(s) && s.life.closer == Cancelled && s.life.pump == PumpGone && 0 in s.desk.calls && s.desk.calls[0].pc.Blocked?
    ensures Stale(s, s.desk.calls[0].pc) && s.desk.calls[0].pc.gen !in s.wires.shut
  {
    hide Reached;
    s := CallWaits();
    Reach(s, OfEdit(0, WriteHere(7)));
    s := After(s, OfEdit(0, WriteHere(7)));
    Reach(s, OfLife(Cancel));
    s := After(s, OfLife(Cancel));
    Reach(s, OfWires(PumpCancelled));
    s := After(s, OfWires(PumpCancelled));
    Reach(s, OfWires(PumpLeaves));
    s := After(s, OfWires(PumpLeaves));
  }
}
