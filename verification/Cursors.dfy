/** Observation cursors: how they are made, judged and compared, and the call that answers with them. */
module Cursors {
  import opened Bytes
  import opened Records
  import opened Snapshots
  import Grammar
  import Layout
  import S = Strings
  import Schemas
  import Texts
  import Utf8

  const SEP: byte := 0x3A
  const MAX_CURSOR := 512
  const MAX_OVERRIDE := 4096
  const MAX_WAIT := 30000

  // --------------------------------------------------------------- the text

  function Hex(b: Bytes): Bytes {
    if |b| == 0 then [] else [S.HexDigit(b[0] / 16), S.HexDigit(b[0] % 16)] + Hex(b[1..])
  }

  /** What hex.DecodeString accepts. */
  predicate IsHex(s: Bytes) {
    |s| % 2 == 0 && forall i :: 0 <= i < |s| ==> S.HexValue(s[i]) >= 0
  }

  lemma HexDigitReads(n: int)
    requires 0 <= n < 16
    ensures S.HexValue(S.HexDigit(n)) == n
  {
  }

  lemma {:induction false} HexIs(b: Bytes)
    ensures |Hex(b)| == 2 * |b| && IsHex(Hex(b))
  {
    if |b| > 0 {
      HexIs(b[1..]);
      HexDigitReads(b[0] / 16);
      HexDigitReads(b[0] % 16);
    }
  }

  /** Two digits for each byte, the high half first, letters in lower case. */
  lemma {:induction false} HexSpells(b: Bytes, k: nat)
    requires k < |b|
    ensures |Hex(b)| == 2 * |b|
    ensures var hi, lo := Hex(b)[2 * k], Hex(b)[2 * k + 1];
      && Grammar.Nibble(hi) == Some(b[k] / 16) && Grammar.Nibble(lo) == Some(b[k] % 16)
      && (hi <= 0x39 || 0x61 <= hi) && (lo <= 0x39 || 0x61 <= lo)
    decreases k
  {
    hide Grammar.Nibble, S.HexDigit;
    HexIs(b);
    if k == 0 {
      Layout.LowerDigits(b[0] / 16);
      Layout.LowerDigits(b[0] % 16);
    } else {
      HexSpells(b[1..], k - 1);
    }
  }

  lemma {:induction false} HexIsInjective(a: Bytes, b: Bytes)
    requires Hex(a) == Hex(b)
    ensures a == b
    decreases |a|
  {
    HexIs(a);
    HexIs(b);
    if |a| > 0 {
      var x, y := Hex(a), Hex(b);
      assert x[0] == y[0] && x[1] == y[1] && x[2..] == y[2..];
      assert x[2..] == Hex(a[1..]) && y[2..] == Hex(b[1..]);
      HexDigitReads(a[0] / 16);
      HexDigitReads(b[0] / 16);
      HexDigitReads(a[0] % 16);
      HexDigitReads(b[0] % 16);
      assert a[0] == a[0] / 16 * 16 + a[0] % 16;
      HexIsInjective(a[1..], b[1..]);
      assert a == [a[0]] + a[1..] && b == [b[0]] + b[1..];
    }
  }

  /** strings.Split at every colon. */
  function Split(s: Bytes): (r: seq<Bytes>)
    ensures |r| > 0
  {
    if |s| == 0 then [[]]
    else if s[0] == SEP then [[]] + Split(s[1..])
    else
      var r := Split(s[1..]);
      [[s[0]] + r[0]] + r[1..]
  }

  lemma {:induction false} SplitAt(a: Bytes, rest: Bytes)
    requires SEP !in a
    ensures Split(a + ([SEP] + rest)) == [a] + Split(rest)
    decreases |a|
  {
    var s := a + ([SEP] + rest);
    if |a| == 0 {
      assert s == [SEP] + rest && s[1..] == rest;
    } else {
      assert s[1..] == a[1..] + ([SEP] + rest);
      SplitAt(a[1..], rest);
      assert [a[0]] + a[1..] == a;
      assert ([a[1..]] + Split(rest))[1..] == Split(rest);
    }
  }

  lemma {:induction false} SplitNone(a: Bytes)
    requires SEP !in a
    ensures Split(a) == [a]
  {
    if |a| > 0 {
      SplitNone(a[1..]);
      assert [a[0]] + a[1..] == a;
    }
  }

  lemma HexHasNoSep(s: Bytes)
    requires IsHex(s)
    ensures SEP !in s
  {
  }

  /** A cursor's three parts, put together. */
  function Assemble(epoch: Bytes, binding: Bytes, digest: Bytes): Bytes {
    epoch + ([SEP] + (binding + ([SEP] + digest)))
  }

  lemma AssembledSplits(epoch: Bytes, binding: Bytes, digest: Bytes)
    requires IsHex(epoch) && IsHex(binding) && IsHex(digest)
    ensures Split(Assemble(epoch, binding, digest)) == [epoch, binding, digest]
  {
    HexHasNoSep(epoch);
    HexHasNoSep(binding);
    HexHasNoSep(digest);
    SplitAt(epoch, binding + ([SEP] + digest));
    SplitAt(binding, digest);
    SplitNone(digest);
  }

  // ------------------------------------------------------------ the verdict

  datatype Verdict = NoCursor | Misshapen | Foreign | Ours

  predicate Shaped(cursor: Bytes) {
    var parts := Split(cursor);
    && |parts| == 3 && |parts[0]| == 32 && |parts[1]| == 64 && |parts[2]| == 64
    && IsHex(parts[0]) && IsHex(parts[1]) && IsHex(parts[2])
  }

  function Join(parts: seq<Bytes>): Bytes
    requires |parts| > 0
  {
    if |parts| == 1 then parts[0] else parts[0] + ([SEP] + Join(parts[1..]))
  }

  lemma JoinFirst(a: Bytes, rest: seq<Bytes>)
    requires |rest| > 0
    ensures Join([a] + rest) == a + ([SEP] + Join(rest))
  {
    assert ([a] + rest)[1..] == rest;
  }

  lemma JoinAfterSep(r: seq<Bytes>)
    requires |r| > 0
    ensures Join([[]] + r) == [SEP] + Join(r)
  {
    hide Join;
    JoinFirst([], r);
    assert [] + ([SEP] + Join(r)) == [SEP] + Join(r);
  }

  lemma JoinPushed(c: byte, head: Bytes, rest: seq<Bytes>)
    ensures Join([[c] + head] + rest) == [c] + Join([head] + rest)
  {
    if |rest| == 0 {
      assert [[c] + head] + rest == [[c] + head] && [head] + rest == [head];
    } else {
      hide Join;
      JoinFirst([c] + head, rest);
      JoinFirst(head, rest);
      var tail := [SEP] + Join(rest);
      assert [c] + head + tail == [c] + (head + tail);
    }
  }

  /** Splitting loses nothing. */
  lemma {:induction false} SplitJoins(s: Bytes)
    ensures Join(Split(s)) == s
  {
    hide Join;
    if |s| == 0 {
      JoinOne([]);
    } else {
      SplitJoins(s[1..]);
      var r := Split(s[1..]);
      JoinAfterSep(r);
      JoinPushed(s[0], r[0], r[1..]);
      assert [r[0]] + r[1..] == r;
      assert [s[0]] + s[1..] == s;
    }
  }

  lemma JoinOne(s: Bytes)
    ensures Join([s]) == s
  {
  }

  /** A cursor is well shaped exactly when it is thirty-two, sixty-four and sixty-four hex digits between colons. */
  lemma ShapedIs(cursor: Bytes)
    ensures Shaped(cursor) <==>
      exists e, b, d :: |e| == 32 && |b| == 64 && |d| == 64 && IsHex(e) && IsHex(b) && IsHex(d) && cursor == Assemble(e, b, d)
  {
    hide Split, IsHex, Join;
    if Shaped(cursor) {
      var parts := Split(cursor);
      SplitJoins(cursor);
      JoinThree(parts);
      assert cursor == Assemble(parts[0], parts[1], parts[2]);
    }
    if e, b, d :| |e| == 32 && |b| == 64 && |d| == 64 && IsHex(e) && IsHex(b) && IsHex(d) && cursor == Assemble(e, b, d) {
      AssembledSplits(e, b, d);
    }
  }

  lemma JoinThree(parts: seq<Bytes>)
    requires |parts| == 3
    ensures Join(parts) == Assemble(parts[0], parts[1], parts[2])
  {
    assert Join(parts[1..]) == parts[1] + ([SEP] + Join(parts[2..]));
    assert Join(parts[2..]) == parts[2];
  }

  /** Thirty-two, sixty-four and sixty-four hexadecimal digits, with colons between. */
  ghost predicate ThreeParts(cursor: Bytes) {
    exists e, b, d :: Parted(cursor, e, b, d)
  }

  predicate Parted(cursor: Bytes, epoch: Bytes, binding: Bytes, digest: Bytes) {
    && cursor == epoch + ([0x3A] + (binding + ([0x3A] + digest)))
    && |epoch| == 32 && |binding| == 64 && |digest| == 64
    && AllHex(epoch) && AllHex(binding) && AllHex(digest)
  }

  predicate AllHex(s: Bytes) {
    forall i :: 0 <= i < |s| ==> Grammar.Nibble(s[i]).Some?
  }

  lemma HexIsAll(s: Bytes)
    ensures IsHex(s) <==> |s| % 2 == 0 && AllHex(s)
  {
    hide Grammar.Nibble, S.HexValue;
    forall i | 0 <= i < |s|
      ensures S.HexValue(s[i]) >= 0 <==> Grammar.Nibble(s[i]).Some?
    {
      Texts.DigitsAgree(s[i]);
    }
  }

  lemma PartedSplits(cursor: Bytes, e: Bytes, b: Bytes, d: Bytes)
    requires Parted(cursor, e, b, d)
    ensures Shaped(cursor) && Split(cursor) == [e, b, d]
  {
    hide Split, IsHex, AllHex;
    HexIsAll(e);
    HexIsAll(b);
    HexIsAll(d);
    AssembledSplits(e, b, d);
  }

  /**
   * The verdict on a cursor, told without the way it is reached: none for the empty one, misshapen
   * for one that is not three parts, foreign for one with another epoch or binding.
   */
  lemma JudgeIs(cursor: Bytes, epoch: Bytes, binding: Bytes)
    ensures Judge(cursor, epoch, binding) == NoCursor <==> cursor == []
    ensures Judge(cursor, epoch, binding) == Misshapen <==> cursor != [] && !ThreeParts(cursor)
    ensures Judge(cursor, epoch, binding) == Foreign <==> exists e, b, d :: Parted(cursor, e, b, d) && (e != epoch || b != binding)
    ensures Judge(cursor, epoch, binding) == Ours <==> exists d :: Parted(cursor, epoch, binding, d)
  {
    hide Split, IsHex, AllHex;
    if Shaped(cursor) {
      var parts := Split(cursor);
      SplitJoins(cursor);
      JoinThree(parts);
      HexIsAll(parts[0]);
      HexIsAll(parts[1]);
      HexIsAll(parts[2]);
      assert Parted(cursor, parts[0], parts[1], parts[2]);
    }
    forall e, b, d | Parted(cursor, e, b, d)
      ensures cursor != [] && Shaped(cursor) && Split(cursor)[0] == e && Split(cursor)[1] == b
    {
      PartedSplits(cursor, e, b, d);
    }
  }

  /** What Observe makes of the cursor it is given, before it looks at anything else. */
  function Judge(cursor: Bytes, epoch: Bytes, binding: Bytes): Verdict {
    if cursor == [] then NoCursor
    else if !Shaped(cursor) then Misshapen
    else if Split(cursor)[0] != epoch || Split(cursor)[1] != binding then Foreign
    else Ours
  }

  /** One provider instance: its random epoch, and the hash and the JSON writer it uses. */
  datatype Instance = Instance(epoch: Bytes, hash: Bytes -> Bytes, marshal: Value -> Bytes)

  ghost predicate GoodInstance(i: Instance) {
    |i.epoch| == 32 && IsHex(i.epoch) && forall x :: |i.hash(x)| == 32
  }

  /** Two inputs that the hash does not tell apart. */
  predicate Collide(i: Instance, x: Bytes, y: Bytes) {
    x != y && i.hash(x) == i.hash(y)
  }

  function Binding(i: Instance, overrides: Value): Bytes {
    Hex(i.hash(i.marshal(overrides)))
  }

  ghost function Digest(i: Instance, s: Value): Bytes
    requires IsSnapshot(s)
  {
    Hex(i.hash(Document(s)))
  }

  ghost function CursorOf(i: Instance, overrides: Value, s: Value): Bytes
    requires IsSnapshot(s)
  {
    Assemble(i.epoch, Binding(i, overrides), Digest(i, s))
  }

  lemma CursorParts(i: Instance, overrides: Value, s: Value)
    requires GoodInstance(i) && IsSnapshot(s)
    ensures var c := CursorOf(i, overrides, s); Shaped(c) && |c| == 162 && Split(c) == [i.epoch, Binding(i, overrides), Digest(i, s)]
  {
    hide Document, Typed, Known, Split, IsHex, Hex;
    HexIs(i.hash(i.marshal(overrides)));
    HexIs(i.hash(Document(s)));
    AssembledSplits(i.epoch, Binding(i, overrides), Digest(i, s));
  }

  /** An emitted cursor is never malformed; it is ours where epoch and binding are the same, and foreign anywhere else. */
  lemma EmittedIsJudged(i: Instance, overrides: Value, s: Value, epoch: Bytes, binding: Bytes)
    requires GoodInstance(i) && IsSnapshot(s)
    ensures Judge(CursorOf(i, overrides, s), epoch, binding) ==
      if i.epoch == epoch && Binding(i, overrides) == binding then Ours else Foreign
  {
    hide Document, Typed, Known, Split, Hex, CursorOf, Shaped;
    CursorParts(i, overrides, s);
  }

  /**
   * A cursor comes back under other overrides as a gap exactly when their JSON differs, unless the
   * hash collides on these two texts.
   */
  lemma OtherOverridesAreForeign(i: Instance, overrides: Value, s: Value, others: Value)
    requires GoodInstance(i) && IsSnapshot(s) && !Collide(i, i.marshal(overrides), i.marshal(others))
    ensures Judge(CursorOf(i, overrides, s), i.epoch, Binding(i, others)) ==
      if i.marshal(overrides) == i.marshal(others) then Ours else Foreign
  {
    hide Document, Typed, Known, Split, Hex, CursorOf, Judge;
    EmittedIsJudged(i, overrides, s, i.epoch, Binding(i, others));
    if Binding(i, overrides) == Binding(i, others) {
      HexIsInjective(i.hash(i.marshal(overrides)), i.hash(i.marshal(others)));
    }
  }

  /** Two cursors are equal exactly when the epoch and the two hashes behind them are. */
  lemma CursorsEqual(i: Instance, j: Instance, o: Value, p: Value, s: Value, t: Value)
    requires GoodInstance(i) && GoodInstance(j) && i.hash == j.hash && i.marshal == j.marshal && IsSnapshot(s) && IsSnapshot(t)
    ensures CursorOf(i, o, s) == CursorOf(j, p, t) <==>
      i.epoch == j.epoch && i.hash(i.marshal(o)) == i.hash(i.marshal(p)) && i.hash(Document(s)) == i.hash(Document(t))
  {
    hide Document, Typed, Known, Split, Hex, Shaped, IsHex;
    CursorParts(i, o, s);
    CursorParts(j, p, t);
    if CursorOf(i, o, s) == CursorOf(j, p, t) {
      Parts(i.epoch, Binding(i, o), Digest(i, s), j.epoch, Binding(j, p), Digest(j, t));
      HexIsInjective(i.hash(i.marshal(o)), j.hash(j.marshal(p)));
      HexIsInjective(i.hash(Document(s)), j.hash(Document(t)));
    }
  }

  lemma Parts(a: Bytes, b: Bytes, c: Bytes, x: Bytes, y: Bytes, z: Bytes)
    requires [a, b, c] == [x, y, z]
    ensures a == x && b == y && c == z
  {
    assert [a, b, c][0] == [x, y, z][0] && [a, b, c][1] == [x, y, z][1] && [a, b, c][2] == [x, y, z][2];
  }

  /**
   * Equal cursors of different snapshots exhibit a collision of the hash, and so do equal cursors of
   * overrides whose JSON differs. Where the hash does not collide on the texts in play, cursors are
   * equal exactly when the epoch, the overrides' JSON and the whole snapshot, values and provenance,
   * are the same.
   */
  lemma CursorsTellApart(i: Instance, j: Instance, o: Value, p: Value, s: Value, t: Value)
    requires GoodInstance(i) && GoodInstance(j) && i.hash == j.hash && i.marshal == j.marshal && IsSnapshot(s) && IsSnapshot(t)
    ensures CursorOf(i, o, s) == CursorOf(j, p, t) && s != t ==> Collide(i, Document(s), Document(t))
    ensures CursorOf(i, o, s) == CursorOf(j, p, t) && i.marshal(o) != i.marshal(p) ==> Collide(i, i.marshal(o), i.marshal(p))
    ensures !Collide(i, Document(s), Document(t)) && !Collide(i, i.marshal(o), i.marshal(p)) ==>
      (CursorOf(i, o, s) == CursorOf(j, p, t) <==> i.epoch == j.epoch && i.marshal(o) == i.marshal(p) && s == t)
  {
    hide Document, Typed, Known, CursorOf;
    CursorsEqual(i, j, o, p, s, t);
    if Document(s) == Document(t) {
      DocumentsTellApart(s, t);
    }
  }

  /** Instances that do not collide on any two given snapshots and overrides there are. */
  lemma NoCollisionIsPossible(o: Value, p: Value, s: Value, t: Value) returns (i: Instance)
    requires o != p && IsSnapshot(s) && IsSnapshot(t) && s != t
    ensures GoodInstance(i) && i.marshal(o) != i.marshal(p)
    ensures !Collide(i, Document(s), Document(t)) && !Collide(i, i.marshal(o), i.marshal(p))
    ensures CursorOf(i, o, s) != CursorOf(i, o, t) && CursorOf(i, o, s) != CursorOf(i, p, s)
  {
    var x, y := Document(s), Document(t);
    if x == y {
      DocumentsTellApart(s, t);
    }
    var zeros, ones := seq(32, _ => 0), seq(32, _ => 1);
    assert zeros[0] != ones[0];
    i := Instance(ZERO_EPOCH, (z: Bytes) => if z == x then zeros else ones, (v: Value) => if v == o then x else y);
    hide Document, Typed, Known, CursorOf, Split;
    EpochIsHex();
    CursorsTellApart(i, i, o, o, s, t);
    CursorsTellApart(i, i, o, p, s, s);
  }

  const ZERO_EPOCH: Bytes := seq(32, _ => 0x30)

  lemma EpochIsHex()
    ensures |ZERO_EPOCH| == 32 && IsHex(ZERO_EPOCH)
  {
  }

  // --------------------------------------------------------------- the call

  datatype Outcome = Snapshot | Unchanged | Gap | Unavailable | Unsupported | Invalid
  datatype Observation = Observation(outcome: Outcome, cursor: Bytes, snapshot: Option<Value>)
  datatype Reply = Answer(o: Observation) | Error

  /** What ends a wait. */
  datatype Wake = CallEnded | TimedOut | Changed
  /** What one turn of the loop meets: the source's state, the snapshot read, the second authorization, a free slot, and the wake. */
  datatype Turn = Turn(ended: bool, failed: bool, read: Option<Value>, authorized: bool, slot: bool, wake: Wake)

  datatype Request = Request(overrides: Value, cursor: Bytes, waitMs: int)

  predicate Overrides(o: Value) {
    Typed(Schemas.RUN_OVERRIDES, o) && |o.vals| == 4 && forall j :: 0 <= j < 4 ==> o.vals[j].Some? && o.vals[j].value.VStr?
  }

  predicate Within(q: Request)
    requires Overrides(q.overrides)
  {
    && 0 <= q.waitMs <= MAX_WAIT && |q.cursor| <= MAX_CURSOR && Utf8.ValidUtf8(q.cursor)
    && forall j :: 0 <= j < 4 ==> |q.overrides.vals[j].value.s| <= MAX_OVERRIDE
  }

  /** The server's own admission: the client's, and valid overrides. */
  predicate Admitted(q: Request)
    requires Overrides(q.overrides)
  {
    Within(q) && forall j :: 0 <= j < 4 ==> Utf8.ValidUtf8(q.overrides.vals[j].value.s)
  }

  /** The bounds, spelled out. */
  lemma AdmittedIs(q: Request)
    requires Overrides(q.overrides)
    ensures Admitted(q) <==>
      && 0 <= q.waitMs <= 30000 && |q.cursor| <= 512 && Utf8.Utf8Octets(q.cursor)
      && forall j :: 0 <= j < 4 ==> |q.overrides.vals[j].value.s| <= 4096 && Utf8.Utf8Octets(q.overrides.vals[j].value.s)
  {
    hide Utf8.ValidUtf8, Utf8.Utf8Octets;
    Utf8.ValidIsOctets(q.cursor);
    forall j | 0 <= j < 4
      ensures Utf8.ValidUtf8(q.overrides.vals[j].value.s) <==> Utf8.Utf8Octets(q.overrides.vals[j].value.s)
    {
      Utf8.ValidIsOctets(q.overrides.vals[j].value.s);
    }
  }

  /** What the client accepts as an answer to the cursor it sent. */
  predicate Accepted(sent: Bytes, o: Observation) {
    if o.outcome == Snapshot then o.snapshot.Some? && o.cursor != [] && o.cursor != sent && |o.cursor| <= MAX_CURSOR
    else o.snapshot.None? && o.cursor == sent && !(o.outcome == Unchanged && sent == [])
  }

  ghost predicate GoodTurns(turns: seq<Turn>) {
    forall k :: 0 <= k < |turns| && turns[k].read.Some? ==> IsSnapshot(turns[k].read.value)
  }

  /** The read of turn k answers the call: its cursor is this one. */
  ghost predicate ReadAt(i: Instance, q: Request, turns: seq<Turn>, k: nat, cursor: Bytes) {
    && k < |turns| && turns[k].read.Some? && turns[k].authorized && !turns[k].failed
    && IsSnapshot(turns[k].read.value) && CursorOf(i, q.overrides, turns[k].read.value) == cursor
  }

  /** The wait was used up before turn k. */
  predicate UsedUp(q: Request, turns: seq<Turn>, k: nat)
    requires k <= |turns|
  {
    q.waitMs == 0 || exists j :: 0 <= j < k && turns[j].wake == TimedOut
  }

  /** An answer that rests on the read of turn k: the same content once the wait was used up, or another content. */
  ghost predicate Settled(i: Instance, q: Request, turns: seq<Turn>, k: nat, r: Reply) {
    || (r == Refusal(q, Unchanged) && ReadAt(i, q, turns, k, q.cursor) && UsedUp(q, turns, k))
    || (r.Answer? && r.o.outcome == Snapshot && r.o.cursor != q.cursor && ReadAt(i, q, turns, k, r.o.cursor)
        && r.o.snapshot == turns[k].read)
  }

  function Refusal(q: Request, outcome: Outcome): Reply {
    Answer(Observation(outcome, q.cursor, None))
  }

  /** How turn k ends the call, if it does: the first of these that applies. The slot is asked for once. */
  ghost function Ending(i: Instance, q: Request, turns: seq<Turn>, k: nat): Option<Reply>
    requires k < |turns| && GoodTurns(turns)
  {
    var turn := turns[k];
    if turn.ended then Some(Error)
    else if turn.failed then Some(Refusal(q, Unavailable))
    else if turn.read.None? || !turn.authorized then Some(Error)
    else
      var next := CursorOf(i, q.overrides, turn.read.value);
      if next != q.cursor then Some(Answer(Observation(Snapshot, next, turn.read)))
      else if UsedUp(q, turns, k) then Some(Refusal(q, Unchanged))
      else if k == 0 && !turn.slot then Some(Refusal(q, Unavailable))
      else if turn.wake == CallEnded then Some(Error)
      else None
  }

  /** Turn at is the first to end the call, and this is how; or the call is ended when the turns run out. */
  ghost predicate EndsAt(i: Instance, q: Request, turns: seq<Turn>, at: nat, r: Reply)
    requires GoodTurns(turns)
  {
    && at <= |turns| && (forall k :: 0 <= k < at ==> Ending(i, q, turns, k).None?)
    && (if at < |turns| then Ending(i, q, turns, at) == Some(r) else r == Error)
  }

  /** An answer from the wait loop rests on a read: the same content once the wait was used up, or another content. */
  lemma EndingIsSettled(i: Instance, q: Request, turns: seq<Turn>, at: nat, r: Reply)
    requires GoodInstance(i) && GoodTurns(turns) && EndsAt(i, q, turns, at, r)
    ensures r == Error || r == Refusal(q, Unavailable) || Settled(i, q, turns, at, r)
    ensures r.Answer? ==> Accepted(q.cursor, r.o)
  {
    hide CursorOf, UsedUp, IsSnapshot;
    if at < |turns| && turns[at].read.Some? {
      CursorParts(i, q.overrides, turns[at].read.value);
    }
  }

  /** The turn reads the store: the call is alive, the source is well, and the read succeeds and is authorized again. */
  predicate Reads(turn: Turn) {
    !turn.ended && !turn.failed && turn.read.Some? && turn.authorized
  }

  /** Turn k reads what the cursor stands for, and the wait is not used up: all there is to do is wait. */
  ghost predicate WaitsAt(i: Instance, q: Request, turns: seq<Turn>, k: nat)
    requires k < |turns| && GoodTurns(turns)
  {
    Reads(turns[k]) && CursorOf(i, q.overrides, turns[k].read.value) == q.cursor && !UsedUp(q, turns, k)
  }

  /**
   * How a wait ends, outcome by outcome. Every turn before the last could only wait, and did, in the
   * slot the first one took. The last one answers with another content, or with the same one late; it
   * is unavailable if the source has failed or the first wait finds no slot; anything else is an error.
   */
  lemma EndsWith(i: Instance, q: Request, turns: seq<Turn>, at: nat, r: Reply)
    requires GoodTurns(turns) && EndsAt(i, q, turns, at, r)
    ensures at <= |turns|
    ensures forall k :: 0 <= k < at ==> WaitsAt(i, q, turns, k) && (k == 0 ==> turns[k].slot) && turns[k].wake != CallEnded
    ensures r.Answer? && r.o.outcome == Snapshot <==>
      at < |turns| && Reads(turns[at]) && CursorOf(i, q.overrides, turns[at].read.value) != q.cursor
    ensures r.Answer? && r.o.outcome == Snapshot ==>
      r == Answer(Observation(Snapshot, CursorOf(i, q.overrides, turns[at].read.value), turns[at].read))
    ensures r == Refusal(q, Unchanged) <==>
      at < |turns| && Reads(turns[at]) && CursorOf(i, q.overrides, turns[at].read.value) == q.cursor && UsedUp(q, turns, at)
    ensures r == Refusal(q, Unavailable) <==>
      at < |turns| && !turns[at].ended && (turns[at].failed || (at == 0 && WaitsAt(i, q, turns, 0) && !turns[0].slot))
    ensures r == Error <==>
      at == |turns| || turns[at].ended || (!turns[at].failed && !Reads(turns[at]))
      || (WaitsAt(i, q, turns, at) && (at == 0 ==> turns[0].slot) && turns[at].wake == CallEnded)
  {
    hide CursorOf, UsedUp, IsSnapshot;
    forall k | 0 <= k < at
      ensures WaitsAt(i, q, turns, k) && (k == 0 ==> turns[k].slot) && turns[k].wake != CallEnded
    {
      assert Ending(i, q, turns, k).None?;
    }
  }

  /** Nobody waits on the empty cursor: the first read is the answer. */
  lemma FirstIsAnswered(i: Instance, q: Request, turns: seq<Turn>, at: nat, r: Reply)
    requires GoodInstance(i) && GoodTurns(turns) && EndsAt(i, q, turns, at, r)
    ensures q.cursor == [] && |turns| > 0 && Reads(turns[0]) ==>
      at == 0 && r == Answer(Observation(Snapshot, CursorOf(i, q.overrides, turns[0].read.value), turns[0].read))
  {
    hide CursorOf, UsedUp, IsSnapshot, Ending, EndsAt;
    EndsWith(i, q, turns, at, r);
    if |turns| > 0 && Reads(turns[0]) {
      CursorParts(i, q.overrides, turns[0].read.value);
    }
  }

  /** next: epoch, binding and the digest of the encoded snapshot. */
  method NextCursor(i: Instance, overrides: Value, s: Value) returns (r: Bytes)
    requires IsSnapshot(s)
    ensures r == CursorOf(i, overrides, s)
  {
    var text := Encode(s);
    r := Assemble(i.epoch, Binding(i, overrides), Hex(i.hash(text)));
  }

  /**
   * Observe, from its checks to its wait loop, against any sequence of turns; a call whose turns run
   * out has been ended. The last turn taken is turn at. Slots taken are given back on every path.
   */
  method Observe(i: Instance, authorized: bool, configured: bool, started: bool, q: Request, turns: seq<Turn>)
    returns (r: Reply, at: nat, taken: nat, given: nat)
    requires GoodInstance(i) && Overrides(q.overrides) && GoodTurns(turns)
    ensures taken == given <= 1
    ensures !authorized ==> r == Error
    ensures authorized && !Admitted(q) ==> r == Refusal(q, Invalid)
    ensures authorized && Admitted(q) && !configured ==> r == Refusal(q, Unsupported)
    ensures authorized && Admitted(q) && configured && !started ==> r == Refusal(q, Unavailable)
    ensures authorized && Admitted(q) && configured && started ==>
      && (r == Refusal(q, Invalid) <==> q.cursor != [] && !ThreeParts(q.cursor))
      && (r == Refusal(q, Gap) <==> exists e, b, d :: Parted(q.cursor, e, b, d) && (e != i.epoch || b != Binding(i, q.overrides)))
      && (q.cursor == [] || (exists d :: Parted(q.cursor, i.epoch, Binding(i, q.overrides), d)) ==> EndsAt(i, q, turns, at, r))
    ensures authorized && Admitted(q) && configured && started && q.cursor == [] && |turns| > 0 && Reads(turns[0]) ==>
      r == Answer(Observation(Snapshot, CursorOf(i, q.overrides, turns[0].read.value), turns[0].read))
    ensures r.Answer? ==> Accepted(q.cursor, r.o)
  {
    at, taken, given := 0, 0, 0;
    if !authorized {
      r := Error;
      return;
    }
    hide Utf8.ValidUtf8, CursorOf, Split, Typed, IsSnapshot, Overrides, Hex, ThreeParts, Parted, Reads, Ending;
    if !Admitted(q) {
      r := Refusal(q, Invalid);
      return;
    }
    if !configured {
      r := Refusal(q, Unsupported);
      return;
    }
    if !started {
      r := Refusal(q, Unavailable);
      return;
    }
    var verdict := Judge(q.cursor, i.epoch, Binding(i, q.overrides));
    JudgeIs(q.cursor, i.epoch, Binding(i, q.overrides));
    if verdict == Misshapen {
      r := Refusal(q, Invalid);
      return;
    }
    if verdict == Foreign {
      r := Refusal(q, Gap);
      return;
    }
    hide Judge, Shaped, Accepted;
    r, at, taken, given := Wait(i, q, turns);
    EndingIsSettled(i, q, turns, at, r);
    FirstIsAnswered(i, q, turns, at, r);
  }

  /** The wait loop. */
  method Wait(i: Instance, q: Request, turns: seq<Turn>) returns (r: Reply, at: nat, taken: nat, given: nat)
    requires GoodInstance(i) && GoodTurns(turns)
    ensures taken == given <= 1 && EndsAt(i, q, turns, at, r)
  {
    hide CursorOf, Typed, IsSnapshot, Hex;
    at, taken, given := 0, 0, 0;
    var expired, held := q.waitMs == 0, false;
    r := Error;
    while at < |turns|
      invariant at <= |turns| && r == Error && given == 0 && taken == (if held then 1 else 0)
      invariant (held <==> at > 0) && (expired <==> UsedUp(q, turns, at))
      invariant forall k :: 0 <= k < at ==> Ending(i, q, turns, k).None?
    {
      var turn := turns[at];
      if turn.ended {
        break;
      }
      if turn.failed {
        r := Refusal(q, Unavailable);
        break;
      }
      if turn.read.None? || !turn.authorized {
        break;
      }
      var next := NextCursor(i, q.overrides, turn.read.value);
      if next != q.cursor {
        r := Answer(Observation(Snapshot, next, turn.read));
        break;
      }
      if expired {
        r := Refusal(q, Unchanged);
        break;
      }
      if !held {
        if !turn.slot {
          r := Refusal(q, Unavailable);
          break;
        }
        held, taken := true, taken + 1;
      }
      if turn.wake == CallEnded {
        break;
      }
      expired := turn.wake == TimedOut;
      at := at + 1;
    }
    if held {
      given := given + 1;
    }
  }

  /** The client's half: bounds before sending, and the answer checked before it is believed. */
  method ObserveContext(ended: bool, q: Request, reply: Reply) returns (r: Option<Observation>)
    requires Overrides(q.overrides)
    ensures r.Some? <==>
      && !ended && reply.Answer?
      && 0 <= q.waitMs <= 30000 && |q.cursor| <= 512 && Utf8.Utf8Octets(q.cursor)
      && (forall j :: 0 <= j < 4 ==> |q.overrides.vals[j].value.s| <= 4096)
      && (if reply.o.outcome == Snapshot then
            reply.o.snapshot.Some? && reply.o.cursor != [] && reply.o.cursor != q.cursor && |reply.o.cursor| <= 512
          else reply.o.snapshot.None? && reply.o.cursor == q.cursor && (reply.o.outcome == Unchanged ==> q.cursor != []))
    ensures r.Some? ==> r.value == reply.o
  {
    if ended {
      return None;
    }
    Utf8.ValidIsOctets(q.cursor);
    hide Utf8.ValidUtf8, Utf8.Utf8Octets;
    if q.waitMs < 0 || q.waitMs > MAX_WAIT || |q.cursor| > MAX_CURSOR || !Utf8.ValidUtf8(q.cursor) {
      return None;
    }
    var j := 0;
    while j < 4
      invariant 0 <= j <= 4
      invariant forall l :: 0 <= l < j ==> |q.overrides.vals[l].value.s| <= MAX_OVERRIDE
    {
      if |q.overrides.vals[j].value.s| > MAX_OVERRIDE {
        return None;
      }
      j := j + 1;
    }
    if reply.Error? {
      return None;
    }
    var o := reply.o;
    if o.outcome == Snapshot {
      if o.snapshot.None? || o.cursor == [] || o.cursor == q.cursor || |o.cursor| > MAX_CURSOR {
        return None;
      }
    } else if o.snapshot.Some? || o.cursor != q.cursor || (o.outcome == Unchanged && q.cursor == []) {
      return None;
    }
    return Some(o);
  }
}
