/** ReplaceUser: who may edit is settled before the store is touched. */
module Editor {
  import opened Bytes
  import Replace
  import opened UserStore

  /** What an edit policy answers: yes, no, or that no decision could be had. */
  datatype Verdict = Allows | Refuses | CannotTell
  datatype Code = WrongCaller | InvalidRevision | CallerUnavailable | StorageUnavailable
  /** A service error, or an outcome with the record it shows; the two refusals show an empty one. */
  datatype Reply = Fault(code: Code) | Applied(data: Bytes) | Conflict(current: Replace.Content) | Forbidden | Unavailable

  /** The caller may edit: same account, a revision to compare with, and a policy that allows it while the call lives. */
  predicate MayEdit(authorized: bool, expected: Bytes, policy: Option<Verdict>, known: bool, ended: bool) {
    authorized && expected != [] && (policy.None? || (known && policy.value == Allows && !ended))
  }

  /** The last thing that took effect is this replacement, on a content of the expected revision. */
  ghost predicate LandedOnExpected(store: Store, rev: Replace.Revision, expected: Bytes, data: Bytes, id: nat)
    reads store
  {
    && |store.log| > 0 && store.log[|store.log| - 1] == Replace.Replacement(id, expected, data, true)
    && Replace.Applies(rev, Replace.Replay(store.first, store.log[..|store.log| - 1]), expected)
  }

  /**
   * What excuses the editor from replacing: the data is too long or does not read as a record, the
   * content does not, an access to the store failed, or others kept writing through every attempt.
   */
  ghost predicate Excused(store: Store, rev: Replace.Revision, failed: nat, was: seq<Replace.Op>, data: Bytes, id: nat)
    requires |was| <= |store.log|
    reads store
  {
    || |data| > MAX_USER_FILE_BYTES || rev(Some(data)).None? || rev(store.content).None?
    || store.failed > failed || Replace.Landed(store.log[|was|..], id) >= Replace.ATTEMPTS
  }

  /**
   * No refusal touches the store. A caller who may edit is told Applied exactly when the data landed,
   * on a content of the expected revision; Conflict with the content the store holds, of another
   * revision; and that the storage is unavailable only with one of the excuses, nothing written.
   */
  method ReplaceUser(store: Store, rev: Replace.Revision, authorized: bool, policy: Option<Verdict>, known: bool, ended: bool,
                     expected: Bytes, data: Bytes, ghost id: nat) returns (r: Reply)
    requires store.Valid()
    modifies store
    ensures store.Valid()
    ensures !MayEdit(authorized, expected, policy, known, ended) ==> unchanged(store)
    ensures r == Fault(WrongCaller) <==> !authorized
    ensures r == Fault(InvalidRevision) <==> authorized && expected == []
    ensures r == Fault(CallerUnavailable) <==> authorized && expected != [] && policy.Some? && !known
    ensures r.Forbidden? <==> authorized && expected != [] && policy == Some(Refuses) && known && !ended
    ensures r.Unavailable? <==> authorized && expected != [] && policy.Some? && known && (policy.value == CannotTell || ended)
    ensures r.Applied? || r.Conflict? || r == Fault(StorageUnavailable) <==> MayEdit(authorized, expected, policy, known, ended)
    ensures r.Applied? <==>
      |store.log| > |old(store.log)| && store.log[|store.log| - 1] == Replace.Replacement(id, expected, data, true)
    ensures r == Fault(StorageUnavailable) ==>
      OnlyOthers(old(store.log), store.log) && Excused(store, rev, old(store.failed), old(store.log), data, id)
    ensures MayEdit(authorized, expected, policy, known, ended) && (|data| > MAX_USER_FILE_BYTES || rev(Some(data)).None?) ==>
      r == Fault(StorageUnavailable) && unchanged(store)
    ensures store.failed > old(store.failed) ==> r == Fault(StorageUnavailable)
    ensures r.Applied? ==> r.data == data && store.content == Some(data) && LandedOnExpected(store, rev, expected, data, id)
    ensures r.Conflict? ==> r.current == store.content && rev(r.current).Some? && rev(r.current).value != expected
    ensures r.Conflict? ==> OnlyOthers(old(store.log), store.log)
  {
    if !authorized {
      return Fault(WrongCaller);
    }
    if expected == [] {
      return Fault(InvalidRevision);
    }
    if policy.Some? {
      if !known {
        return Fault(CallerUnavailable);
      }
      if policy.value != Allows {
        if ended || policy.value == CannotTell {
          return Unavailable;
        }
        return Forbidden;
      }
      if ended {
        return Unavailable;
      }
    }
    var outcome := ReplaceUserStore(store, rev, expected, data, id);
    match outcome
    case Applied => r := Applied(data);
    case Conflict(x) => r := Conflict(x);
    case Exhausted => r := Fault(StorageUnavailable);
    case Failed => r := Fault(StorageUnavailable);
  }
}
