/** The expiry sweep of server/api/cleanup.post.ts: one `DELETE … WHERE expires_at < now`
    on the hub database, answering with the change count the database driver reports.
    That report (`result.meta?.changes`) is a parameter; a driver that counts honestly
    reports the number of expired rows. */
module Cleanup {
  import opened Results
  import opened MessageStore

  /** The ids the sweep removes at `now`. */
  function ExpiredIds(rows: map<string, SecureMessage>, now: int): (ids: set<string>)
    ensures ids <= rows.Keys
    ensures forall id :: id in ids <==> id in rows && IsExpired(rows[id], now)
  {
    set id | id in rows && IsExpired(rows[id], now)
  }

  /** `DELETE FROM secure_messages WHERE expires_at < ?`: the rows left are exactly the
      unexpired ones, each unchanged. */
  function Sweep(rows: map<string, SecureMessage>, now: int): (kept: map<string, SecureMessage>)
    ensures forall id :: id in kept <==> id in rows && !IsExpired(rows[id], now)
    ensures forall id :: id in kept ==> kept[id] == rows[id]
  {
    map id | id in rows && !IsExpired(rows[id], now) :: rows[id]
  }

  /** `result.meta?.changes || 0`: a missing or zero change count reads as 0. */
  function DeletedCount(changes: Option<nat>): (n: nat)
    ensures changes.Some? ==> n == changes.value
    ensures changes.None? ==> n == 0
  {
    match changes
    case None => 0
    case Some(c) => c
  }

  datatype CleanupError = CleanupFailed   // 500 "Failed to cleanup expired messages"

  /** The cleanup endpoint; `changes` is what the driver reports for the DELETE. It asks
      for the hub database directly, so without the hub it fails with 500 and removes
      nothing; on the hub it removes the expired rows and answers with the reported count,
      or 0 when the report is missing. */
  function CleanupExpired(st: Store, now: int, changes: Option<nat>): (r: (Store, Result<nat, CleanupError>))
    ensures st.backend == InMemory ==> r == (st, Err(CleanupFailed))
    ensures st.backend == Hub ==>
      && r.1.Ok?
      && r.0 == Store(Hub, Sweep(st.rows, now))
      && r.1.value == DeletedCount(changes)
    ensures st.backend == Hub && changes.None? ==> r.1 == Ok(0)
  {
    match st.backend
    case InMemory => (st, Err(CleanupFailed))
    case Hub => (Store(Hub, Sweep(st.rows, now)), Ok(DeletedCount(changes)))
  }

  /** With a driver that reports how many rows the DELETE matched, the count answered is
      the number of rows that disappeared. */
  lemma CleanupCountsRemovedRows(st: Store, now: int, changes: Option<nat>)
    requires st.backend == Hub
    requires changes == Some(|ExpiredIds(st.rows, now)|)
    ensures var (st', n) := (CleanupExpired(st, now, changes).0, CleanupExpired(st, now, changes).1.value);
      |st'.rows.Keys| + n == |st.rows.Keys|
  {
    var kept := Sweep(st.rows, now);
    var removed := ExpiredIds(st.rows, now);
    assert kept.Keys == st.rows.Keys - removed;
    CardinalityOfDifference(st.rows.Keys, removed);
  }

  lemma {:induction false} CardinalityOfDifference<T>(a: set<T>, b: set<T>)
    requires b <= a
    ensures |a - b| + |b| == |a|
    decreases |b|
  {
    if b != {} {
      var x :| x in b;
      CardinalityOfDifference(a - {x}, b - {x});
      assert a - {x} - (b - {x}) == a - b;
    }
  }

  /** A second sweep at the same instant finds nothing more to remove: the store is left
      as it is, and with a driver that reports no deletion, or no count, the answer is 0. */
  lemma CleanupIdempotent(st: Store, now: int, changes: Option<nat>, again: Option<nat>)
    requires st.backend == Hub
    requires again == Some(0) || again.None?
    ensures var st' := CleanupExpired(st, now, changes).0;
      && ExpiredIds(st'.rows, now) == {}
      && CleanupExpired(st', now, again) == (st', Ok(0))
  {
    var st' := CleanupExpired(st, now, changes).0;
    assert ExpiredIds(st'.rows, now) == {};
    assert Sweep(st'.rows, now) == st'.rows;
  }

  /** The sweep removes an id exactly when retrieval at the same instant would report it
      Expired, and it leaves the answer for every other id as retrieval would give it. */
  lemma SweepAgreesWithRetrieve(st: Store, id: string, now: int, changes: Option<nat>)
    requires st.backend == Hub
    ensures id in st.rows && id !in CleanupExpired(st, now, changes).0.rows
      <==> RetrieveEncryptedMessage(st, id, now).1 == Err(Expired)
    ensures id in CleanupExpired(st, now, changes).0.rows ==>
      RetrieveEncryptedMessage(CleanupExpired(st, now, changes).0, id, now).1
        == RetrieveEncryptedMessage(st, id, now).1
  {
  }

  /** Sweeping never touches a row that is still live, whatever the backend. */
  lemma CleanupKeepsLiveRows(st: Store, id: string, now: int, changes: Option<nat>)
    requires id in st.rows && !IsExpired(st.rows[id], now)
    ensures id in CleanupExpired(st, now, changes).0.rows
    ensures CleanupExpired(st, now, changes).0.rows[id] == st.rows[id]
  {
  }
}
