/** One run of `sync()`: choose the next user round-robin, resume after that
    user's highest stored sequence number, fetch and persist the records,
    record the success and close the store on every path. */
module SyncPolicy {
  import opened Wrappers
  import opened MeasurementRecord
  import opened Comms
  import opened Persistence
  import Arith

  /** The user after the last sync: one past the last user, wrapping to 1 past
      the configured number of users. A missing or zero time stamp is falsy
      in `if last_user[0]`, and then the choice is user 1. */
  function NextUser(last: Option<SyncRow>, users: int): (u: int)
    ensures last.None? || last.value.timeStamp == 0 ==> u == 1
  {
    if last.Some? && last.value.timeStamp != 0 then
      var u := last.value.userId + 1;
      if u > users then 1 else u
    else 1
  }

  /** After user k of n the next user is k mod n + 1, so users 1..n take turns. */
  lemma NextUserIsRoundRobin(t: int, k: int, n: int)
    requires t != 0 && 1 <= k <= n
    ensures NextUser(Some(SyncRow(t, k)), n) == k % n + 1
    ensures 1 <= NextUser(Some(SyncRow(t, k)), n) <= n
  {
    if k < n {
      Arith.DivModUniqueInt(k, n, 0, k);
    } else {
      Arith.DivModUniqueInt(k, n, 1, 0);
    }
  }

  /** The user chosen after j successive syncs starting at user k, each later than the one before. */
  function Turn(k: int, n: int, j: nat): int {
    if j == 0 then k else NextUser(Some(SyncRow(1, Turn(k, n, j - 1))), n)
  }

  /** Starting from any user 1..n, the j-th turn goes to user (k - 1 + j) mod n + 1:
      every user is served once in any n consecutive syncs. */
  lemma {:induction false} TurnsCycle(k: int, n: int, j: nat)
    requires 1 <= k <= n
    ensures Turn(k, n, j) == (k - 1 + j) % n + 1
    decreases j
  {
    if j == 0 {
      Arith.DivModUniqueInt(k - 1, n, 0, k - 1);
    } else {
      TurnsCycle(k, n, j - 1);
      Arith.ModSucc(k - 1 + j - 1, n);
    }
  }

  /** The first sequence number asked for: one past the user's highest stored
      sequence number, or 1 when the user has no rows. */
  function ResumeSequence(rows: seq<Row>, user: int): int {
    match HighestSequence(rows, user)
    case None => 1
    case Some(m) => m + 1
  }

  /** Every stored sequence number of the user lies below the resume point,
      and the resume point is 1 or follows a stored one directly. */
  lemma ResumeFollowsStored(rows: seq<Row>, user: int)
    ensures forall k :: 0 <= k < |rows| && rows[k].userId == user ==> rows[k].sequenceNumber < ResumeSequence(rows, user)
    ensures ResumeSequence(rows, user) == 1 || HasKey(rows, ResumeSequence(rows, user) - 1, user)
    ensures (forall k :: 0 <= k < |rows| ==> rows[k].userId != user) ==> ResumeSequence(rows, user) == 1
  {
    HighestIsMaximum(rows, user);
  }

  /** The outcome of the radio side of one sync, which the model takes as given:
      whether connecting and pairing succeed, whether every GATT subscribe,
      write and unsubscribe of `get_records` completes, what the scale
      notifies while records are fetched, and whether unpairing and
      disconnecting succeed. */
  datatype Link = Link(connects: bool, transfers: bool, arrivals: seq<Notification>, disconnects: bool)

  /** What a sync does, in order. */
  datatype Step =
    | Connected
    | Fetched(user: int, from: int, count: nat)
    | Persisted(index: nat)
    | SuccessStored(user: int)
    | Disconnected
    | Failed(fault: Fault)
    | Closed

  /** How far the persist loop got: the store, the number of records persisted
      and the fault of the record that raised, if one did. */
  datatype Progress = Progress(store: Store, done: nat, fault: Option<Fault>)

  /** The `for rec in allRecs: persist_measurement(rec)` loop: records are
      persisted in order, and the first that raises ends the loop with the
      rows before it kept. */
  function PersistAll(s: Store, records: seq<Record>): (p: Progress)
    ensures p.store.syncs == s.syncs
    ensures p.done <= |records|
    decreases |records|
  {
    if |records| == 0 then Progress(s, 0, None)
    else
      var n := |records| - 1;
      var earlier := PersistAll(s, records[..n]);
      if earlier.fault.Some? then earlier
      else match Persist(earlier.store, records[n])
        case Failure(e) => Progress(earlier.store, earlier.done, Some(e))
        case Success(t) => Progress(t, earlier.done + 1, None)
  }

  /** The loop persists every record, or a first k of them and then meets the
      fault of record k; either way the keys stay unique. */
  lemma {:induction false} PersistAllInOrder(s: Store, records: seq<Record>)
    ensures var p := PersistAll(s, records);
      && (p.fault.None? ==> p.done == |records|)
      && (p.fault.Some? ==>
            && p.done < |records|
            && Persist(PersistAll(s, records[..p.done]).store, records[p.done]) == Failure(p.fault.value))
    ensures UniqueKeys(s.measurements) ==> UniqueKeys(PersistAll(s, records).store.measurements)
    decreases |records|
  {
    if |records| > 0 {
      var n := |records| - 1;
      var pre := records[..n];
      PersistAllInOrder(s, pre);
      var earlier := PersistAll(s, pre);
      if earlier.fault.None? {
        assert records[..n] == pre;
        if Persist(earlier.store, records[n]).Success? && UniqueKeys(s.measurements) {
          PersistKeepsKeysUnique(earlier.store, records[n]);
        }
      } else {
        assert pre[..earlier.done] == records[..earlier.done] && pre[earlier.done] == records[earlier.done];
      }
    }
  }

  /** The steps `Persisted(0), ..., Persisted(n - 1)`. */
  function AllPersisted(n: nat): (r: seq<Step>)
    ensures |r| == n && forall i :: 0 <= i < n ==> r[i] == Persisted(i)
  {
    if n == 0 then [] else AllPersisted(n - 1) + [Persisted(n - 1)]
  }

  datatype Outcome = Outcome(store: Store, steps: seq<Step>)

  /** The body of the `try`, given whether connecting succeeds, what
      `get_records` returns and whether disconnecting succeeds: persist the
      records, store the success, disconnect. The first fault ends it. */
  function Attempt(s: Store, user: int, from: int, now: int, connects: bool, fetched: Result<seq<Record>>, disconnects: bool): Outcome {
    if !connects then Outcome(s, [Failed(Transport)])
    else match fetched
      case Failure(e) => Outcome(s, [Connected, Failed(e)])
      case Success(records) =>
        var p := PersistAll(s, records);
        var head := [Connected, Fetched(user, from, |records|)] + AllPersisted(p.done);
        match p.fault
        case Some(e) => Outcome(p.store, head + [Failed(e)])
        case None =>
          Outcome(StoreSuccess(p.store, now, user),
                  head + [SuccessStored(user), if disconnects then Disconnected else Failed(Transport)])
  }

  /** The user the next sync serves. */
  function ChosenUser(s: Store, users: int): int {
    NextUser(LastSync(s.syncs), users)
  }

  /** What `get_records` returns to the sync, on a fresh client: a transport
      fault when one of its GATT operations raises, otherwise the records
      decoded from what the scale notified. */
  function FetchFor(s: Store, users: int, link: Link): (r: Result<seq<Record>>)
    ensures !link.transfers ==> r == Failure(Transport)
    ensures link.transfers ==>
      r == GetRecords(NewClient(), ChosenUser(s, users), ResumeSequence(s.measurements, ChosenUser(s, users)), link.arrivals).records
  {
    var user := ChosenUser(s, users);
    if !link.transfers then Failure(Transport)
    else GetRecords(NewClient(), user, ResumeSequence(s.measurements, user), link.arrivals).records
  }

  /** `sync()`: pick the user and the resume point, attempt the transfer, and
      close the store whatever happened; a fault is logged and swallowed. */
  function Sync(s: Store, users: int, now: int, link: Link): Outcome {
    var user := ChosenUser(s, users);
    var attempt := Attempt(s, user, ResumeSequence(s.measurements, user), now, link.connects, FetchFor(s, users, link), link.disconnects);
    Outcome(attempt.store, attempt.steps + [Closed])
  }

  /** Whether every step of the transfer up to storing the success went well. */
  predicate Succeeds(s: Store, connects: bool, fetched: Result<seq<Record>>) {
    connects && fetched.Success? && PersistAll(s, fetched.value).fault.None?
  }

  /** An attempt either succeeds, and then it connected, fetched, persisted
      every record in order and stored the success for its user at `now`
      before disconnecting; or it stores no success, ends with a fault and
      leaves the sync table as it was. It never closes the store itself. */
  lemma AttemptShapes(s: Store, user: int, from: int, now: int, connects: bool, fetched: Result<seq<Record>>, disconnects: bool)
    ensures var o := Attempt(s, user, from, now, connects, fetched, disconnects);
      Succeeds(s, connects, fetched) ==>
        && o.steps == [Connected, Fetched(user, from, |fetched.value|)] + AllPersisted(|fetched.value|)
             + [SuccessStored(user), if disconnects then Disconnected else Failed(Transport)]
        && o.store.syncs == s.syncs + [SyncRow(now, user)]
    ensures var o := Attempt(s, user, from, now, connects, fetched, disconnects);
      !Succeeds(s, connects, fetched) ==>
        && |o.steps| > 0 && o.steps[|o.steps| - 1].Failed?
        && (forall i :: 0 <= i < |o.steps| ==> !o.steps[i].SuccessStored?)
        && o.store.syncs == s.syncs
    ensures forall i :: 0 <= i < |Attempt(s, user, from, now, connects, fetched, disconnects).steps| ==>
      Attempt(s, user, from, now, connects, fetched, disconnects).steps[i] != Closed
  {
    if connects && fetched.Success? {
      PersistAllInOrder(s, fetched.value);
    }
  }

  /** A sync closes the store exactly once, as its last step. */
  lemma SyncClosesOnce(s: Store, users: int, now: int, link: Link)
    ensures var steps := Sync(s, users, now, link).steps;
      && |steps| > 0 && steps[|steps| - 1] == Closed
      && forall i :: 0 <= i < |steps| - 1 ==> steps[i] != Closed
  {
    var user := ChosenUser(s, users);
    AttemptShapes(s, user, ResumeSequence(s.measurements, user), now, link.connects, FetchFor(s, users, link), link.disconnects);
  }

  /** Every `SuccessStored` step comes after the fetch and after one
      `Persisted` step per fetched record, in order, with no fault before it. */
  predicate SuccessFollowsPersists(steps: seq<Step>) {
    forall j :: 0 <= j < |steps| && steps[j].SuccessStored? ==>
      && (forall i :: 0 <= i < j ==> !steps[i].Failed?)
      && j >= 2 && steps[1].Fetched?
      && steps[2..j] == AllPersisted(steps[1].count)
  }

  lemma SuccessShapeOrdered(user: int, from: int, c: nat, last: Step)
    requires !last.SuccessStored?
    ensures SuccessFollowsPersists(
      [Connected, Fetched(user, from, c)] + AllPersisted(c) + [SuccessStored(user), last, Closed])
  {
    var steps := [Connected, Fetched(user, from, c)] + AllPersisted(c) + [SuccessStored(user), last, Closed];
    assert forall j :: 0 <= j < |steps| && steps[j].SuccessStored? ==> j == 2 + c;
    assert steps[2..2 + c] == AllPersisted(c);
  }

  /** The success is stored exactly when connecting, fetching and every
      persist succeed, and then for the chosen user at `now`; otherwise the
      sync table is unchanged. */
  lemma SyncStoresSuccessOnlyOnSuccess(s: Store, users: int, now: int, link: Link)
    ensures var o := Sync(s, users, now, link);
      (SuccessStored(ChosenUser(s, users)) in o.steps <==> Succeeds(s, link.connects, FetchFor(s, users, link)))
    ensures var o := Sync(s, users, now, link);
      o.store.syncs ==
        if Succeeds(s, link.connects, FetchFor(s, users, link))
        then s.syncs + [SyncRow(now, ChosenUser(s, users))] else s.syncs
  {
    var user := ChosenUser(s, users);
    var from := ResumeSequence(s.measurements, user);
    var fetched := FetchFor(s, users, link);
    AttemptShapes(s, user, from, now, link.connects, fetched, link.disconnects);
    var a := Attempt(s, user, from, now, link.connects, fetched, link.disconnects);
    var o := Sync(s, users, now, link);
    assert o.steps == a.steps + [Closed];
    if Succeeds(s, link.connects, fetched) {
      assert a.steps[2 + |fetched.value|] == SuccessStored(user);
    }
  }

  /** A GATT subscribe, write or unsubscribe that raises inside `get_records`
      is swallowed like any other fault: no success is stored and the sync
      table is unchanged. */
  lemma SyncTransferFailureStoresNoSuccess(s: Store, users: int, now: int, link: Link)
    requires !link.transfers
    ensures SuccessStored(ChosenUser(s, users)) !in Sync(s, users, now, link).steps
    ensures Sync(s, users, now, link).store.syncs == s.syncs
    ensures Sync(s, users, now, link).steps[|Sync(s, users, now, link).steps| - 1] == Closed
  {
    SyncStoresSuccessOnlyOnSuccess(s, users, now, link);
    SyncClosesOnce(s, users, now, link);
  }

  /** A stored success follows the persisting of every fetched record, in
      order, and no fault comes before it. */
  lemma SyncStoresSuccessAfterPersisting(s: Store, users: int, now: int, link: Link)
    ensures SuccessFollowsPersists(Sync(s, users, now, link).steps)
  {
    var user := ChosenUser(s, users);
    var from := ResumeSequence(s.measurements, user);
    var fetched := FetchFor(s, users, link);
    AttemptShapes(s, user, from, now, link.connects, fetched, link.disconnects);
    if Succeeds(s, link.connects, fetched) {
      SuccessShapeOrdered(user, from, |fetched.value|, if link.disconnects then Disconnected else Failed(Transport));
      var o := Sync(s, users, now, link);
      assert o.steps == [Connected, Fetched(user, from, |fetched.value|)] + AllPersisted(|fetched.value|)
        + [SuccessStored(user), if link.disconnects then Disconnected else Failed(Transport), Closed];
    }
  }

  /** A sync keeps at most one row per (sequence number, user). */
  lemma SyncKeepsKeysUnique(s: Store, users: int, now: int, link: Link)
    requires UniqueKeys(s.measurements)
    ensures UniqueKeys(Sync(s, users, now, link).store.measurements)
  {
    var fetched := FetchFor(s, users, link);
    if link.connects && fetched.Success? {
      PersistAllInOrder(s, fetched.value);
    }
  }

  /** A successful sync at a time later than every earlier sync makes the
      following sync serve the next user in turn. */
  lemma SyncAdvancesTurn(s: Store, users: int, now: int, link: Link)
    requires now != 0 && forall j :: 0 <= j < |s.syncs| ==> s.syncs[j].timeStamp < now
    requires Succeeds(s, link.connects, FetchFor(s, users, link))
    ensures ChosenUser(Sync(s, users, now, link).store, users) == NextUser(Some(SyncRow(now, ChosenUser(s, users))), users)
  {
    var user := ChosenUser(s, users);
    SyncStoresSuccessOnlyOnSuccess(s, users, now, link);
    var t := Sync(s, users, now, link).store;
    StoreSuccessIsLastSync(s, now, user);
    assert t.syncs == StoreSuccess(s, now, user).syncs;
  }
}
