/** The stored run of a document extraction under human review
    (src/server.js:167-178): the row and the statements that update it. The
    interleaved protocol is in ExtractionProtocol. */
module DocumentExtraction {

  /** Milliseconds. */
  type Time = int

  const REVIEW_LEASE: Time := 5 * 60_000

  datatype Status = PendingReview | Reviewing | Confirmed | Rejected | Expired

  datatype Row = Row(status: Status, updatedAt: Time, expiresAt: Time)

  /** The guard evaluated on the row that was read. */
  predicate Available(row: Row, now: Time) {
    && row.expiresAt > now
    && (row.status == PendingReview || (row.status == Reviewing && row.updatedAt <= now - REVIEW_LEASE))
  }

  /** The swap matches the row on the status and update time that were read. */
  predicate Matches(row: Row, snapshot: Row) {
    row.status == snapshot.status && row.updatedAt == snapshot.updatedAt
  }

  function SwapRow(row: Row, snapshot: Row, now: Time): Row {
    if Matches(row, snapshot) then row.(status := Reviewing, updatedAt := now) else row
  }

  predicate Committable(row: Row, now: Time) {
    row.status == Reviewing && row.expiresAt > now
  }

  function CommitRow(row: Row, now: Time): Row {
    if Committable(row, now) then row.(status := Confirmed, updatedAt := now) else row
  }

  function ReleaseRow(row: Row, now: Time): Row {
    if row.status == Reviewing then row.(status := PendingReview, updatedAt := now) else row
  }

  class ExtractionRun {
    var row: Row

    constructor (now: Time, expiresAt: Time)
      ensures row == Row(PendingReview, now, expiresAt)
    {
      row := Row(PendingReview, now, expiresAt);
    }

    /** The conditional PATCH; true when a row came back. */
    method Swap(snapshot: Row, now: Time) returns (claimed: bool)
      modifies this
      ensures row == SwapRow(old(row), snapshot, now)
      ensures claimed <==> Matches(old(row), snapshot)
      ensures claimed <==> old(row).status == snapshot.status && old(row).updatedAt == snapshot.updatedAt
      ensures row == if claimed then old(row).(status := Reviewing, updatedAt := now) else old(row)
    {
      claimed := row.status == snapshot.status && row.updatedAt == snapshot.updatedAt;
      if claimed {
        row := row.(status := Reviewing, updatedAt := now);
      }
    }

    /** A claim nothing interferes with between its read and its swap. A run that
        was not found for this member of staff and document is refused untouched. */
    method ClaimDocumentExtraction(found: bool, now: Time) returns (claimed: bool)
      modifies this
      ensures claimed <==> found && Available(old(row), now)
      ensures claimed <==>
        && found && now < old(row).expiresAt
        && (old(row).status == PendingReview || (old(row).status == Reviewing && now - old(row).updatedAt >= 300_000))
      ensures row == if claimed then old(row).(status := Reviewing, updatedAt := now) else old(row)
    {
      if !found || row.expiresAt <= now { return false; }
      if row.status != PendingReview && row.status != Reviewing { return false; }
      if row.status == Reviewing && row.updatedAt > now - REVIEW_LEASE { return false; }
      claimed := Swap(row, now);
    }

    method ReleaseDocumentExtraction(now: Time)
      modifies this
      ensures row == ReleaseRow(old(row), now)
      ensures row == if old(row).status == Reviewing then old(row).(status := PendingReview, updatedAt := now) else old(row)
    {
      if row.status == Reviewing {
        row := row.(status := PendingReview, updatedAt := now);
      }
    }
  }

  /** A run claimed and released is open to anyone at once; a run claimed and
      left is closed for exactly the lease, or for good if it expires first. */
  lemma ReopensExactly(row: Row, now: Time, later: Time)
    requires Available(row, now) && now <= later
    ensures Available(ReleaseRow(SwapRow(row, row, now), later), later) <==> later < row.expiresAt
    ensures Available(SwapRow(row, row, now), later) <==> now + REVIEW_LEASE <= later < row.expiresAt
  {
  }
}
