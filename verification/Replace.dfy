/**
 * Conditional replacement of the stored user record, by any number of callers at once and beside
 * writers that follow no protocol. The store compares bytes: a write lands if and only if the
 * current content is the one the writer read.
 */
module Replace {
  import opened Bytes

  const ATTEMPTS := 32

  /** What the store holds: nothing, or the bytes of a record. */
  type Content = Option<Bytes>
  /** The revision of a content, if it can be read as a record at all. */
  type Revision = Content -> Option<Bytes>

  /** What took effect, in the order it did: a foreign write, or a replacement with its result. */
  datatype Op = Foreign(content: Content) | Replacement(id: nat, expected: Bytes, data: Bytes, applied: bool)

  /** The sequential specification: if the revision is the expected one, the data becomes the content. */
  function Applies(rev: Revision, content: Content, expected: Bytes): bool {
    rev(content) == Some(expected)
  }

  function Effect(content: Content, op: Op): Content {
    match op
    case Foreign(x) => x
    case Replacement(_, _, data, applied) => if applied then Some(data) else content
  }

  function Replay(content: Content, log: seq<Op>): Content {
    if |log| == 0 then content else Effect(Replay(content, log[..|log| - 1]), log[|log| - 1])
  }

  /** A log is a run of the sequential specification: every replacement did what it had to. */
  ghost predicate Sequential(rev: Revision, content: Content, log: seq<Op>) {
    forall i :: 0 <= i < |log| && log[i].Replacement? ==>
      (log[i].applied <==> Applies(rev, Replay(content, log[..i]), log[i].expected))
  }

  predicate LandedBy(op: Op, id: nat) {
    op.Foreign? || (op.applied && op.id != id)
  }

  /** How many writes of others a log holds. */
  function Landed(log: seq<Op>, id: nat): nat {
    if |log| == 0 then 0 else Landed(log[..|log| - 1], id) + if LandedBy(log[|log| - 1], id) then 1 else 0
  }

  // ------------------------------------------------------------ the machine

  datatype Outcome = Applied | Conflict(current: Content) | Exhausted | Failed
  /** A call about to read, between its read and its write, or finished; at is where in the log it took effect. */
  datatype Pc = Trying(attempt: nat) | Holding(attempt: nat, base: Content, readAt: nat) | Done(outcome: Outcome, at: nat)
  datatype Call = Call(expected: Bytes, data: Bytes, born: nat, pc: Pc)
  datatype State = State(content: Content, log: seq<Op>, calls: map<nat, Call>)

  datatype Step =
    | Start(id: nat, expected: Bytes, data: Bytes)
    | Read(id: nat)
    | Write(id: nat)
    | Fail(id: nat)
    | Intrude(content: Content)

  predicate Enabled(s: State, step: Step) {
    match step
    case Start(id, _, _) => id !in s.calls
    case Read(id) => id in s.calls && s.calls[id].pc.Trying?
    case Write(id) => id in s.calls && s.calls[id].pc.Holding?
    case Fail(id) => id in s.calls && !s.calls[id].pc.Done?
    case Intrude(_) => true
  }

  function Move(s: State, id: nat, pc: Pc): State
    requires id in s.calls
  {
    s.(calls := s.calls[id := s.calls[id].(pc := pc)])
  }

  /** The read of an attempt: unreadable content is an error, another revision is a conflict. */
  function AfterRead(rev: Revision, s: State, id: nat): State
    requires id in s.calls && s.calls[id].pc.Trying?
  {
    var c := s.calls[id];
    var r := rev(s.content);
    if r.None? then Move(s, id, Done(Failed, 0))
    else if r.value != c.expected then
      Move(s, id, Done(Conflict(s.content), |s.log|)).(log := s.log + [Replacement(id, c.expected, c.data, false)])
    else Move(s, id, Holding(c.pc.attempt, s.content, |s.log|))
  }

  /** The write of an attempt: it lands on the bytes it was read from, else the call starts over. */
  function AfterWrite(s: State, id: nat): State
    requires id in s.calls && s.calls[id].pc.Holding?
  {
    var c := s.calls[id];
    if s.content == c.pc.base then
      Move(s, id, Done(Applied, |s.log|)).(content := Some(c.data), log := s.log + [Replacement(id, c.expected, c.data, true)])
    else if c.pc.attempt + 1 < ATTEMPTS then Move(s, id, Trying(c.pc.attempt + 1))
    else Move(s, id, Done(Exhausted, 0))
  }

  function After(rev: Revision, s: State, step: Step): State
    requires Enabled(s, step)
  {
    match step
    case Start(id, expected, data) => s.(calls := s.calls[id := Call(expected, data, |s.log|, Trying(0))])
    case Read(id) => AfterRead(rev, s, id)
    case Write(id) => AfterWrite(s, id)
    case Fail(id) => Move(s, id, Done(Failed, 0))
    case Intrude(x) => s.(content := x, log := s.log + [Foreign(x)])
  }

  ghost predicate Run(rev: Revision, first: Content, run: seq<State>, steps: seq<Step>) {
    && |run| == |steps| + 1 && run[0] == State(first, [], map[])
    && forall i :: 0 <= i < |steps| ==> Enabled(run[i], steps[i]) && run[i + 1] == After(rev, run[i], steps[i])
  }

  // ------------------------------------------------------------- invariants

  ghost predicate Absent(log: seq<Op>, id: nat) {
    forall i :: 0 <= i < |log| && log[i].Replacement? ==> log[i].id != id
  }

  /** A call under way has left no trace, and has been put off at most once for each write of another. */
  ghost predicate UnderWay(rev: Revision, first: Content, log: seq<Op>, id: nat, c: Call) {
    && c.born <= |log|
    && match c.pc
       case Trying(a) => Absent(log, id) && a < ATTEMPTS && a <= Landed(log[c.born..], id)
       case Holding(a, base, at) =>
         && Absent(log, id) && a < ATTEMPTS && c.born <= at <= |log|
         && base == Replay(first, log[..at]) && Applies(rev, base, c.expected)
         && a <= Landed(log[c.born..at], id)
       case Done(outcome, at) => Finished(first, log, id, c, outcome, at)
  }

  /** A finished call took effect once, while it ran; or not at all. */
  ghost predicate Finished(first: Content, log: seq<Op>, id: nat, c: Call, outcome: Outcome, at: nat)
    requires c.born <= |log|
  {
    match outcome
    case Applied => c.born <= at < |log| && log[at] == Replacement(id, c.expected, c.data, true) && Absent(log[..at] + log[at + 1..], id)
    case Conflict(x) =>
      && c.born <= at < |log| && log[at] == Replacement(id, c.expected, c.data, false) && Absent(log[..at] + log[at + 1..], id)
      && x == Replay(first, log[..at])
    case Exhausted => Absent(log, id) && Landed(log[c.born..], id) >= ATTEMPTS
    case Failed => Absent(log, id)
  }

  ghost predicate Inv(rev: Revision, first: Content, s: State) {
    && s.content == Replay(first, s.log)
    && Sequential(rev, first, s.log)
    && (forall id :: id in s.calls ==> UnderWay(rev, first, s.log, id, s.calls[id]))
    && (forall id :: id !in s.calls ==> Absent(s.log, id))
  }

  lemma LandedSnoc(log: seq<Op>, op: Op, id: nat)
    ensures Landed(log + [op], id) == Landed(log, id) + if LandedBy(op, id) then 1 else 0
  {
    assert (log + [op])[..|log|] == log;
  }

  lemma {:induction false} LandedCat(a: seq<Op>, b: seq<Op>, id: nat)
    ensures Landed(a + b, id) == Landed(a, id) + Landed(b, id)
    decreases |b|
  {
    if |b| == 0 {
      assert a + b == a;
    } else {
      var init := b[..|b| - 1];
      assert (a + b)[..|a + b| - 1] == a + init;
      LandedCat(a, init, id);
    }
  }

  lemma ReplaySnoc(first: Content, log: seq<Op>, op: Op)
    ensures Replay(first, log + [op]) == Effect(Replay(first, log), op)
  {
    assert (log + [op])[..|log|] == log;
  }

  /** If the content has changed since a point in the log, somebody else's write landed after it. */
  lemma {:induction false} ChangeNeedsWrite(first: Content, log: seq<Op>, at: nat, id: nat)
    requires at <= |log| && Absent(log, id) && Replay(first, log) != Replay(first, log[..at])
    ensures Landed(log[at..], id) >= 1
    decreases |log|
  {
    assert log[..|log|] == log;
    assert at < |log|;
    var init, last := log[..|log| - 1], log[|log| - 1];
    assert log == init + [last];
    ReplaySnoc(first, init, last);
    assert log[at..] == init[at..] + [last];
    LandedSnoc(init[at..], last, id);
    if !LandedBy(last, id) {
      assert init[..at] == log[..at];
      ChangeNeedsWrite(first, init, at, id);
    }
  }

  lemma SequentialSnoc(rev: Revision, first: Content, log: seq<Op>, op: Op)
    requires Sequential(rev, first, log)
    requires op.Replacement? ==> (op.applied <==> Applies(rev, Replay(first, log), op.expected))
    ensures Sequential(rev, first, log + [op])
  {
    var more := log + [op];
    forall i | 0 <= i < |more| && more[i].Replacement?
      ensures more[i].applied <==> Applies(rev, Replay(first, more[..i]), more[i].expected)
    {
      assert more[..i] == if i < |log| then log[..i] else log;
      assert i < |log| ==> more[i] == log[i];
    }
  }

  /** What is known of a call stays known when somebody else's entry is logged. */
  lemma OthersLog(rev: Revision, first: Content, log: seq<Op>, op: Op, id: nat, c: Call)
    requires UnderWay(rev, first, log, id, c) && (op.Replacement? ==> op.id != id)
    ensures UnderWay(rev, first, log + [op], id, c)
  {
    hide Replay, Landed, Applies;
    var more := log + [op];
    assert more[c.born..] == log[c.born..] + [op];
    LandedSnoc(log[c.born..], op, id);
    match c.pc
    case Trying(_) =>
    case Holding(_, _, at) =>
      assert more[..at] == log[..at] && more[c.born..at] == log[c.born..at];
    case Done(outcome, at) =>
      if outcome.Applied? || outcome.Conflict? {
        assert more[..at] == log[..at] && more[..at] + more[at + 1..] == (log[..at] + log[at + 1..]) + [op];
      }
  }

  /** Everybody but the one whose entry it is. */
  lemma Rest(rev: Revision, first: Content, s: State, op: Op, id: nat)
    requires Inv(rev, first, s) && (op.Replacement? ==> op.id == id)
    ensures forall k :: k in s.calls && (op.Replacement? ==> k != id) ==> UnderWay(rev, first, s.log + [op], k, s.calls[k])
    ensures forall k :: k !in s.calls && (op.Replacement? ==> k != id) ==> Absent(s.log + [op], k)
  {
    forall k | k in s.calls && (op.Replacement? ==> k != id)
      ensures UnderWay(rev, first, s.log + [op], k, s.calls[k])
    {
      OthersLog(rev, first, s.log, op, k, s.calls[k]);
    }
  }

  /** One call logs its effect and is finished. */
  lemma Logs(rev: Revision, first: Content, s: State, op: Op, id: nat, c: Call)
    requires Inv(rev, first, s) && id in s.calls && op.Replacement? && op.id == id
    requires op.applied <==> Applies(rev, s.content, op.expected)
    requires UnderWay(rev, first, s.log + [op], id, c)
    ensures Inv(rev, first, State(Effect(s.content, op), s.log + [op], s.calls[id := c]))
  {
    hide UnderWay, Sequential, Replay, Absent, Applies;
    ReplaySnoc(first, s.log, op);
    SequentialSnoc(rev, first, s.log, op);
    Rest(rev, first, s, op, id);
  }

  /** One call moves on without a trace. */
  lemma Moves(rev: Revision, first: Content, s: State, id: nat, c: Call)
    requires Inv(rev, first, s) && id in s.calls && UnderWay(rev, first, s.log, id, c)
    ensures Inv(rev, first, s.(calls := s.calls[id := c]))
  {
    hide UnderWay, Sequential, Replay, Absent;
  }

  /** Its own entry, last in the log, is the only one it has. */
  lemma LastEntry(rev: Revision, first: Content, log: seq<Op>, id: nat, c: Call, applied: bool)
    requires Absent(log, id) && c.born <= |log|
    ensures var op := Replacement(id, c.expected, c.data, applied);
      var outcome := if applied then Applied else Conflict(Replay(first, log));
      UnderWay(rev, first, log + [op], id, c.(pc := Done(outcome, |log|)))
  {
    hide Replay, Landed;
    var op := Replacement(id, c.expected, c.data, applied);
    var more := log + [op];
    assert more[..|log|] == log && more[|log| + 1..] == [] && log + [] == log;
  }

  lemma ReadKept(rev: Revision, first: Content, s: State, id: nat)
    requires Inv(rev, first, s) && Enabled(s, Read(id))
    ensures Inv(rev, first, AfterRead(rev, s, id))
  {
    var c, r := s.calls[id], rev(s.content);
    assert UnderWay(rev, first, s.log, id, c);
    hide Landed, Sequential, Inv, Replay;
    if r.None? {
      Moves(rev, first, s, id, c.(pc := Done(Failed, 0)));
    } else if r.value != c.expected {
      ContentIs(rev, first, s);
      LastEntry(rev, first, s.log, id, c, false);
      Logs(rev, first, s, Replacement(id, c.expected, c.data, false), id, c.(pc := Done(Conflict(s.content), |s.log|)));
    } else {
      ContentIs(rev, first, s);
      assert s.log[..|s.log|] == s.log;
      Moves(rev, first, s, id, c.(pc := Holding(c.pc.attempt, s.content, |s.log|)));
    }
  }

  lemma ContentIs(rev: Revision, first: Content, s: State)
    requires Inv(rev, first, s)
    ensures s.content == Replay(first, s.log)
  {
  }

  lemma PutOff(first: Content, log: seq<Op>, id: nat, born: nat, at: nat)
    requires born <= at <= |log| && Absent(log, id) && Replay(first, log) != Replay(first, log[..at])
    ensures Landed(log[born..], id) >= Landed(log[born..at], id) + 1
  {
    hide Landed, Replay;
    ChangeNeedsWrite(first, log, at, id);
    LandedCat(log[born..at], log[at..], id);
    assert log[born..] == log[born..at] + log[at..];
  }

  lemma WriteKept(rev: Revision, first: Content, s: State, id: nat)
    requires Inv(rev, first, s) && Enabled(s, Write(id))
    ensures Inv(rev, first, AfterWrite(s, id))
  {
    var c := s.calls[id];
    assert UnderWay(rev, first, s.log, id, c);
    hide Landed, Sequential, Inv, Replay;
    ContentIs(rev, first, s);
    if s.content == c.pc.base {
      LastEntry(rev, first, s.log, id, c, true);
      Logs(rev, first, s, Replacement(id, c.expected, c.data, true), id, c.(pc := Done(Applied, |s.log|)));
    } else {
      PutOff(first, s.log, id, c.born, c.pc.readAt);
      Moves(rev, first, s, id,
        c.(pc := if c.pc.attempt + 1 < ATTEMPTS then Trying(c.pc.attempt + 1) else Done(Exhausted, 0)));
    }
  }

  lemma InvKept(rev: Revision, first: Content, s: State, step: Step)
    requires Inv(rev, first, s) && Enabled(s, step)
    ensures Inv(rev, first, After(rev, s, step))
  {
    hide Landed, Sequential, Replay;
    match step
    case Read(id) => ReadKept(rev, first, s, id);
    case Write(id) => WriteKept(rev, first, s, id);
    case Intrude(x) =>
      ReplaySnoc(first, s.log, Foreign(x));
      SequentialSnoc(rev, first, s.log, Foreign(x));
      Rest(rev, first, s, Foreign(x), 0);
    case Start(id, expected, data) =>
      EmptyLanded(s.log, id);
    case Fail(id) =>
      assert UnderWay(rev, first, s.log, id, s.calls[id]);
  }

  lemma EmptyLanded(log: seq<Op>, id: nat)
    ensures log[|log|..] == [] && Landed([], id) == 0
  {
  }

  lemma {:induction false} Always(rev: Revision, first: Content, run: seq<State>, steps: seq<Step>, i: nat)
    requires Run(rev, first, run, steps) && i < |run|
    ensures Inv(rev, first, run[i])
    decreases i
  {
    hide Inv, Enabled, After;
    if i == 0 {
      Fresh(rev, first);
    } else {
      Always(rev, first, run, steps, i - 1);
      InvKept(rev, first, run[i - 1], steps[i - 1]);
    }
  }

  lemma Fresh(rev: Revision, first: Content)
    ensures Inv(rev, first, State(first, [], map[]))
  {
  }

  /**
   * Linearizability. On every run the log is a run of the sequential specification that ends in the
   * content, and every call that was applied or met a conflict is in it exactly once, at a point
   * between its start and its end, with its result; a call that failed is nowhere in it.
   */
  lemma Linearizable(rev: Revision, first: Content, run: seq<State>, steps: seq<Step>, i: nat)
    requires Run(rev, first, run, steps) && i < |run|
    ensures Sequential(rev, first, run[i].log) && run[i].content == Replay(first, run[i].log)
    ensures forall id :: id in run[i].calls && run[i].calls[id].pc.Done? ==>
      var c := run[i].calls[id]; c.born <= |run[i].log| && Finished(first, run[i].log, id, c, c.pc.outcome, c.pc.at)
  {
    Always(rev, first, run, steps, i);
    assert forall id :: id in run[i].calls ==> UnderWay(rev, first, run[i].log, id, run[i].calls[id]);
  }

  /** No replacement ever lands on a value whose revision is not the expected one. */
  lemma NothingOverwritten(rev: Revision, first: Content, run: seq<State>, steps: seq<Step>, i: nat)
    requires Run(rev, first, run, steps) && i < |steps| && steps[i].Write? && run[i + 1].content != run[i].content
    ensures var c := run[i].calls[steps[i].id];
      Applies(rev, run[i].content, c.expected) && run[i].content == c.pc.base && run[i + 1].content == Some(c.data)
  {
    Always(rev, first, run, steps, i);
    assert UnderWay(rev, first, run[i].log, steps[i].id, run[i].calls[steps[i].id]);
  }

  /** What a call is told of its read is forced: unreadable content fails it, another revision is a conflict, the expected one is held. */
  lemma ReadIsForced(rev: Revision, first: Content, run: seq<State>, steps: seq<Step>, i: nat)
    requires Run(rev, first, run, steps) && i < |steps| && steps[i].Read?
    ensures var id := steps[i].id; id in run[i].calls && run[i].calls[id].pc.Trying? && id in run[i + 1].calls
    ensures var id := steps[i].id; var r, c, d := rev(run[i].content), run[i].calls[id], run[i + 1].calls[id];
      && (r == None <==> d.pc.Done? && d.pc.outcome == Failed)
      && (r.Some? && r.value != c.expected <==> d.pc == Done(Conflict(run[i].content), |run[i].log|))
      && (r == Some(c.expected) <==> d.pc == Holding(c.pc.attempt, run[i].content, |run[i].log|))
  {
    assert Enabled(run[i], steps[i]) && run[i + 1] == After(rev, run[i], steps[i]);
  }

  /** So is what it is told of its write: applied where the bytes it read are still there, one more try otherwise, thirty-two in all. */
  lemma WriteIsForced(rev: Revision, first: Content, run: seq<State>, steps: seq<Step>, i: nat)
    requires Run(rev, first, run, steps) && i < |steps| && steps[i].Write?
    ensures var id := steps[i].id; id in run[i].calls && run[i].calls[id].pc.Holding? && id in run[i + 1].calls
    ensures var id := steps[i].id; var c, d := run[i].calls[id], run[i + 1].calls[id];
      && (run[i].content == c.pc.base <==> d.pc == Done(Applied, |run[i].log|))
      && (run[i].content != c.pc.base && c.pc.attempt < 31 <==> d.pc == Trying(c.pc.attempt + 1))
      && (run[i].content != c.pc.base && c.pc.attempt >= 31 <==> d.pc.Done? && d.pc.outcome == Exhausted)
      && (d.pc.Done? && d.pc.outcome == Applied <==> run[i + 1].log == run[i].log + [Replacement(id, c.expected, c.data, true)])
  {
    assert Enabled(run[i], steps[i]) && run[i + 1] == After(rev, run[i], steps[i]);
  }

  /** Being put off costs others a write each: giving up means at least thirty-two of theirs landed meanwhile. */
  lemma RetriesArePaidFor(rev: Revision, first: Content, run: seq<State>, steps: seq<Step>, i: nat, id: nat)
    requires Run(rev, first, run, steps) && i < |run| && id in run[i].calls
    ensures run[i].calls[id].born <= |run[i].log|
    ensures var c, log := run[i].calls[id], run[i].log;
      match c.pc
      case Trying(a) => a <= Landed(log[c.born..], id)
      case Holding(a, _, at) => c.born <= at <= |log| && a <= Landed(log[c.born..at], id)
      case Done(outcome, _) => outcome == Exhausted ==> Landed(log[c.born..], id) >= ATTEMPTS
  {
    Always(rev, first, run, steps, i);
    assert UnderWay(rev, first, run[i].log, id, run[i].calls[id]);
  }

  // ------------------------------------------------------- real-time order

  /** A step adds to the log, leaves a finished call as it is, and starts calls only at the log's end. */
  lemma StepHistory(rev: Revision, s: State, step: Step)
    requires Enabled(s, step)
    ensures var t := After(rev, s, step);
      && |s.log| <= |t.log| && t.log[..|s.log|] == s.log
      && (forall id :: id in s.calls ==> id in t.calls && t.calls[id].born == s.calls[id].born)
      && (forall id :: id in s.calls && s.calls[id].pc.Done? ==> t.calls[id] == s.calls[id])
      && (forall id :: id in t.calls && id !in s.calls ==> t.calls[id].born == |s.log|)
  {
  }

  /** Over a stretch of a run the log only grows, and calls that come up in it are born after it began. */
  lemma {:induction false} History(rev: Revision, first: Content, run: seq<State>, steps: seq<Step>, i: nat, j: nat)
    requires Run(rev, first, run, steps) && i <= j < |run|
    ensures |run[i].log| <= |run[j].log| && run[j].log[..|run[i].log|] == run[i].log
    ensures forall id :: id in run[i].calls && run[i].calls[id].pc.Done? ==> id in run[j].calls && run[j].calls[id] == run[i].calls[id]
    ensures forall id :: id in run[j].calls && id !in run[i].calls ==> run[j].calls[id].born >= |run[i].log|
    ensures forall id :: id in run[i].calls ==> id in run[j].calls
    decreases j - i
  {
    hide Enabled, After;
    if i < j {
      History(rev, first, run, steps, i, j - 1);
      StepHistory(rev, run[j - 1], steps[j - 1]);
      assert run[j].log[..|run[j - 1].log|][..|run[i].log|] == run[j].log[..|run[i].log|];
    } else {
      assert run[j].log[..|run[i].log|] == run[i].log;
    }
  }

  predicate TookEffect(c: Call) {
    c.pc.Done? && (c.pc.outcome.Applied? || c.pc.outcome.Conflict?)
  }

  /** Real-time order: a call that was over before another began took effect before it. */
  lemma RealTimeOrder(rev: Revision, first: Content, run: seq<State>, steps: seq<Step>, i: nat, j: nat, a: nat, b: nat)
    requires Run(rev, first, run, steps) && i <= j < |run|
    requires a in run[i].calls && TookEffect(run[i].calls[a]) && b !in run[i].calls
    requires b in run[j].calls && TookEffect(run[j].calls[b])
    ensures a in run[j].calls && run[j].calls[a] == run[i].calls[a]
    ensures run[j].calls[a].pc.at < run[j].calls[b].pc.at
  {
    hide Run, Replay, Sequential, Absent, Landed;
    Linearizable(rev, first, run, steps, i);
    Linearizable(rev, first, run, steps, j);
    History(rev, first, run, steps, i, j);
    assert Finished(first, run[i].log, a, run[i].calls[a], run[i].calls[a].pc.outcome, run[i].calls[a].pc.at);
    assert Finished(first, run[j].log, b, run[j].calls[b], run[j].calls[b].pc.outcome, run[j].calls[b].pc.at);
  }
}
