/** The replacement loop as the source has it, on a store that others may write between any two of its accesses. */
module UserStore {
  import opened Bytes
  import opened Replace

  const MAX_USER_FILE_BYTES := 0x4_0000

  /** How a write ends: it landed, the content had moved, or the store breaks and nothing landed. */
  datatype Written = Stored | Moved | Broke

  /**
   * The store, what it started as, what has landed on it, the writes of others still to come, and
   * which of the accesses still to come will fail, and how many have.
   */
  class Store {
    var content: Content
    var others: seq<seq<Content>>
    var faults: seq<bool>
    var failed: nat
    ghost var log: seq<Op>
    ghost const first: Content

    ghost predicate Valid()
      reads this
    {
      content == Replay(first, log)
    }

    constructor (start: Content, intruders: seq<seq<Content>>, failures: seq<bool>)
      ensures Valid() && log == [] && first == start == content && failed == 0
    {
      content := start;
      others := intruders;
      faults := failures;
      failed := 0;
      log := [];
      first := start;
    }

    /** Whatever others write before the next access lands first. */
    method Intrude()
      requires Valid()
      modifies this
      ensures Valid() && |old(log)| <= |log| && log[..|old(log)|] == old(log)
      ensures forall i :: |old(log)| <= i < |log| ==> log[i].Foreign?
      ensures failed == old(failed)
    {
      var writes := if |others| > 0 then others[0] else [];
      others := if |others| > 0 then others[1..] else [];
      var i := 0;
      while i < |writes|
        invariant 0 <= i <= |writes|
        invariant Valid() && |old(log)| <= |log| && log[..|old(log)|] == old(log)
        invariant forall j :: |old(log)| <= j < |log| ==> log[j].Foreign?
        invariant failed == old(failed)
      {
        ReplaySnoc(first, log, Foreign(writes[i]));
        content := writes[i];
        log := log + [Foreign(writes[i])];
        i := i + 1;
      }
    }

    /** Whether the next access fails. */
    method Fault() returns (bad: bool)
      requires Valid()
      modifies this`faults, this`failed
      ensures Valid() && failed == old(failed) + if bad then 1 else 0
    {
      bad := |faults| > 0 && faults[0];
      faults := if |faults| > 0 then faults[1..] else [];
      failed := if bad then failed + 1 else failed;
    }

    /** The content, after whatever others wrote before this access, or a storage error. */
    method Read() returns (r: Option<Content>)
      requires Valid()
      modifies this
      ensures Valid() && |old(log)| <= |log| && log[..|old(log)|] == old(log)
      ensures forall i :: |old(log)| <= i < |log| ==> log[i].Foreign?
      ensures r.Some? ==> r.value == content
      ensures failed == old(failed) + if r.None? then 1 else 0
    {
      Intrude();
      var bad := Fault();
      r := if bad then None else Some(content);
    }

    /** The write lands exactly when the store does not fail and the content is still the base, byte for byte. */
    method Write(base: Content, data: Bytes, ghost id: nat, ghost expected: Bytes) returns (w: Written)
      requires Valid()
      modifies this
      ensures Valid() && (w != Broke ==> (w == Stored <==> old(content) == base))
      ensures w == Stored ==> log == old(log) + [Replacement(id, expected, data, true)] && content == Some(data)
      ensures w != Stored ==> log == old(log) && content == old(content)
      ensures failed == old(failed) + if w == Broke then 1 else 0
    {
      var bad := Fault();
      if bad {
        return Broke;
      }
      if content != base {
        return Moved;
      }
      ReplaySnoc(first, log, Replacement(id, expected, data, true));
      content := Some(data);
      log := log + [Replacement(id, expected, data, true)];
      w := Stored;
    }
  }

  /** Since the log was this long, only others have written. */
  ghost predicate OnlyOthers(was: seq<Op>, log: seq<Op>) {
    |was| <= |log| && log[..|was|] == was && forall i :: |was| <= i < |log| ==> log[i].Foreign?
  }

  lemma OthersAbsent(was: seq<Op>, log: seq<Op>, id: nat)
    requires OnlyOthers(was, log)
    ensures Absent(log[|was|..], id)
  {
  }

  /** Contents that differ at two points of a stretch others wrote: at least one write of theirs between. */
  lemma OneMore(first: Content, was: seq<Op>, mid: seq<Op>, log: seq<Op>, id: nat)
    requires OnlyOthers(was, mid) && OnlyOthers(mid, log) && Replay(first, mid) != Replay(first, log)
    ensures OnlyOthers(was, log) && Landed(log[|was|..], id) >= Landed(mid[|was|..], id) + 1
  {
    assert log == mid + log[|mid|..];
    ReplayCat(first, mid, log[|mid|..]);
    OthersAbsent(mid, log, id);
    var gap := log[|mid|..];
    assert gap[..0] == [] && gap[0..] == gap;
    ChangeNeedsWrite(Replay(first, mid), gap, 0, id);
    LandedCat(mid[|was|..], gap, id);
    assert log[|was|..] == mid[|was|..] + gap;
  }

  lemma {:induction false} ReplayCat(first: Content, a: seq<Op>, b: seq<Op>)
    ensures Replay(first, a + b) == Replay(Replay(first, a), b)
    decreases |b|
  {
    if |b| == 0 {
      assert a + b == a;
    } else {
      assert (a + b)[..|a + b| - 1] == a + b[..|b| - 1];
      ReplayCat(first, a, b[..|b| - 1]);
    }
  }

  lemma MoreLanded(was: seq<Op>, mid: seq<Op>, log: seq<Op>, id: nat)
    requires OnlyOthers(was, mid) && OnlyOthers(mid, log)
    ensures OnlyOthers(was, log) && Landed(log[|was|..], id) >= Landed(mid[|was|..], id)
  {
    LandedCat(mid[|was|..], log[|mid|..], id);
    assert log[|was|..] == mid[|was|..] + log[|mid|..];
    assert forall i :: 0 <= i < |was| ==> log[i] == log[..|mid|][i] == mid[i] == mid[..|was|][i];
  }

  /**
   * ReplaceUserStore. Applied: the content was of the expected revision when the data landed on it.
   * Conflict: the store holds the content returned, of another revision. Exhausted: nothing was
   * written, and others wrote at least thirty-two times meanwhile. Failed: nothing was written, and
   * the data is too long, or it or the content does not read as a record, or the store failed an
   * access. Data that cannot be stored is refused before the store is touched.
   */
  method ReplaceUserStore(store: Store, rev: Revision, expected: Bytes, data: Bytes, ghost id: nat) returns (r: Outcome)
    requires store.Valid()
    modifies store
    ensures store.Valid()
    ensures var was, log := old(store.log), store.log;
      match r
      case Applied =>
        && |log| > 0 && log[|log| - 1] == Replacement(id, expected, data, true) && OnlyOthers(was, log[..|log| - 1])
        && Applies(rev, Replay(store.first, log[..|log| - 1]), expected) && store.content == Some(data)
      case Conflict(x) => OnlyOthers(was, log) && x == store.content && rev(x).Some? && !Applies(rev, x, expected)
      case Exhausted => OnlyOthers(was, log) && Landed(log[|was|..], id) >= ATTEMPTS
      case Failed =>
        && OnlyOthers(was, log)
        && (|data| > MAX_USER_FILE_BYTES || rev(Some(data)).None? || rev(store.content).None? || store.failed > old(store.failed))
    ensures store.failed > old(store.failed) ==> r == Failed
    ensures |data| > MAX_USER_FILE_BYTES || rev(Some(data)).None? ==> r == Failed && unchanged(store)
  {
    ghost var was := store.log;
    if |data| > MAX_USER_FILE_BYTES || rev(Some(data)).None? {
      return Failed;
    }
    var attempts := 0;
    while attempts < ATTEMPTS
      invariant 0 <= attempts <= ATTEMPTS && store.failed == old(store.failed)
      invariant store.Valid() && OnlyOthers(was, store.log) && attempts <= Landed(store.log[|was|..], id)
    {
      ghost var before := store.log;
      var read := store.Read();
      ghost var held := store.log;
      MoreLanded(was, before, held, id);
      if read.None? {
        return Failed;
      }
      var base := read.value;
      var revision := rev(base);
      if revision.None? {
        return Failed;
      }
      if revision.value != expected {
        return Conflict(base);
      }
      store.Intrude();
      ghost var now := store.log;
      MoreLanded(was, held, now, id);
      var w := store.Write(base, data, id, expected);
      match w {
        case Stored =>
          assert store.log[..|store.log| - 1] == now;
          return Applied;
        case Broke =>
          return Failed;
        case Moved =>
          OneMore(store.first, was, held, now, id);
          attempts := attempts + 1;
      }
    }
    return Exhausted;
  }
}
