/** One-time client intake links (career-gate/lib/client-intake-link.ts): the
  stored row, the statements that update it, and the functions built from them
  when nothing interferes. The interleaved protocol is in IntakeProtocol. */
module IntakeLink {
  import opened Options

  /** Milliseconds. */
  type Time = int

  type CaseId = nat

  const STALE_AFTER: Time := 15 * 60 * 1000

  datatype Status = Active | Processing | Used | Revoked

  datatype Row = Row(
    status: Status,
    expiresAt: Time,
    processingStartedAt: Option<Time>,
    usedAt: Option<Time>,
    revokedAt: Option<Time>,
    importCaseId: Option<CaseId>)

  predicate Terminal(row: Row) {
    row.status == Used || row.status == Revoked
  }

  /** A newly issued link, possibly for an existing case. */
  function Issued(expiresAt: Time, target: Option<CaseId>): Row {
    Row(Active, expiresAt, None, None, None, target)
  }

  /** The predicate of the claiming UPDATE. */
  predicate Claimable(row: Row, now: Time) {
    && row.expiresAt > now
    && (row.status == Active
        || (row.status == Processing
            && row.processingStartedAt.Some?
            && row.processingStartedAt.value < now - STALE_AFTER))
  }

  function ClaimRow(row: Row, now: Time): Row {
    if Claimable(row, now) then row.(status := Processing, processingStartedAt := Some(now)) else row
  }

  function FinalizeRow(row: Row, now: Time, caseId: CaseId): Row {
    if row.status == Processing
    then row.(status := Used, usedAt := Some(now), importCaseId := Some(caseId), processingStartedAt := None)
    else row
  }

  function ReleaseRow(row: Row, now: Time): Row {
    if row.status == Processing && row.expiresAt > now
    then row.(status := Active, processingStartedAt := None)
    else row
  }

  function RevokeRow(row: Row, now: Time): Row {
    if !Terminal(row)
    then row.(status := Revoked, revokedAt := Some(now), processingStartedAt := None)
    else row
  }

  /** The table's own constraints and the meaning of the start time. */
  predicate Consistent(row: Row) {
    && (row.processingStartedAt.Some? <==> row.status == Processing)
    && (row.status == Used ==> row.usedAt.Some? && row.importCaseId.Some?)
    && (row.status == Revoked ==> row.revokedAt.Some?)
  }

  lemma StatementsConsistent(row: Row, now: Time, caseId: CaseId)
    requires Consistent(row)
    ensures Consistent(ClaimRow(row, now)) && Consistent(FinalizeRow(row, now, caseId))
    ensures Consistent(ReleaseRow(row, now)) && Consistent(RevokeRow(row, now))
  {
  }

  datatype ClaimResult = Claimed | NotFound | Gone | Busy | IssuerNotAuthorized

  datatype ReadResult = Openable | UnknownToken | Closed

  /** The shape of a token, looked at before the database is. */
  predicate LooksLikeToken(token: string) {
    && 32 <= |token| <= 128
    && forall c | c in token :: 'A' <= c <= 'Z' || 'a' <= c <= 'z' || '0' <= c <= '9' || c == '_' || c == '-'
  }

  const CAPITALS: string := "ABCDEFGHIJKLMNOPQRSTUVWXYZ"
  const SMALLS: string := "abcdefghijklmnopqrstuvwxyz"
  const DIGITS_AND_SIGNS: string := "0123456789_-"

  /** Consecutive characters in a row. */
  ghost predicate Consecutive(s: string) {
    forall i | 0 <= i < |s| :: s[i] as int == s[0] as int + i
  }

  lemma InRow(s: string, c: char)
    requires s != "" && Consecutive(s)
    ensures c in s <==> s[0] <= c <= s[|s| - 1]
  {
    if s[0] <= c <= s[|s| - 1] {
      assert s[c as int - s[0] as int] == c;
    }
  }

  /** What tokens are made of: letters of both cases, digits, and the two signs
      that are safe in a URL. */
  lemma TokenShape(token: string)
    ensures LooksLikeToken(token) <==>
      && 32 <= |token| <= 128
      && forall c | c in token :: c in CAPITALS || c in SMALLS || c in DIGITS_AND_SIGNS
  {
    assert Consecutive(CAPITALS) && CAPITALS[0] == 'A' && CAPITALS[25] == 'Z';
    assert Consecutive(SMALLS) && SMALLS[0] == 'a' && SMALLS[25] == 'z';
    assert Consecutive("0123456789") && "0123456789"[9] == '9';
    assert DIGITS_AND_SIGNS == "0123456789" + "_-";
    forall c ensures c in DIGITS_AND_SIGNS <==> '0' <= c <= '9' || c == '_' || c == '-' {
      InRow("0123456789", c);
    }
    forall c ensures c in CAPITALS <==> 'A' <= c <= 'Z' { InRow(CAPITALS, c); }
    forall c ensures c in SMALLS <==> 'a' <= c <= 'z' { InRow(SMALLS, c); }
  }

  datatype RevokeResult = RevokedNow | AlreadyRevoked | AlreadyUsed

  class Link {
    const tokenHash: string
    var row: Row

    constructor (tokenHash: string, expiresAt: Time, target: Option<CaseId>)
      ensures this.tokenHash == tokenHash && row == Issued(expiresAt, target) && Consistent(row)
      ensures row.status == Active && row.expiresAt == expiresAt && row.importCaseId == target
      ensures row.processingStartedAt == row.usedAt == row.revokedAt == None
    {
      this.tokenHash, row := tokenHash, Issued(expiresAt, target);
    }

    /** Is this the link a token is for? */
    predicate Presented(token: string, digest: string -> string) {
      LooksLikeToken(token) && digest(token) == tokenHash
    }

    /** The claiming UPDATE; true when a row came back. */
    method ClaimUpdate(now: Time) returns (claimed: bool)
      modifies this
      ensures row == ClaimRow(old(row), now)
      ensures claimed <==> Claimable(old(row), now)
      ensures claimed <==>
        && now < old(row).expiresAt
        && (old(row).status == Active
            || (&& old(row).status == Processing && old(row).processingStartedAt.Some?
                && now - old(row).processingStartedAt.value > 900_000))
      ensures row == if claimed then old(row).(status := Processing, processingStartedAt := Some(now)) else old(row)
    {
      claimed := Claimable(row, now);
      if claimed {
        row := row.(status := Processing, processingStartedAt := Some(now));
      }
    }

    method ReleaseIntakeLink(now: Time)
      modifies this
      ensures row == ReleaseRow(old(row), now)
      ensures old(row).status == Processing && now < old(row).expiresAt ==>
        row == old(row).(status := Active, processingStartedAt := None)
      ensures old(row).status != Processing || now >= old(row).expiresAt ==> row == old(row)
    {
      if row.status == Processing && row.expiresAt > now {
        row := row.(status := Active, processingStartedAt := None);
      }
    }

    /** May the public page be opened? Exactly when a claim would be accepted, or
        refused only because another one is at work. */
    method ReadIntakeLinkForClient(token: string, digest: string -> string, now: Time) returns (r: ReadResult)
      ensures r == UnknownToken <==> !Presented(token, digest)
      ensures r == UnknownToken <==> !LooksLikeToken(token) || digest(token) != tokenHash
      ensures r == Openable <==>
        Presented(token, digest) && (Claimable(row, now) || (row.status == Processing && row.expiresAt > now))
      ensures r == Openable ==> (row.status == Active || row.status == Processing) && now < row.expiresAt
      ensures r == Closed ==> row.status == Used || row.status == Revoked || now >= row.expiresAt
    {
      if !LooksLikeToken(token) || digest(token) != tokenHash { return UnknownToken; }
      if row.status == Used || row.status == Revoked { return Closed; }
      return if row.expiresAt > now then Openable else Closed;
    }

    /** A claim nothing interferes with. It either takes the link or leaves a
        failed check's link as if it had just been released, and it tells a
        link that is being processed from one that is gone. */
    method ClaimIntakeLink(token: string, digest: string -> string, now: Time, issuerActs: bool, targetOpen: bool)
      returns (r: ClaimResult)
      modifies this
      ensures r == NotFound <==> !Presented(token, digest)
      ensures r == NotFound <==> !LooksLikeToken(token) || digest(token) != tokenHash
      ensures r == Claimed <==> Presented(token, digest) && Claimable(old(row), now) && issuerActs && targetOpen
      ensures r == Claimed ==> row == ClaimRow(old(row), now)
      ensures r == IssuerNotAuthorized <==> Presented(token, digest) && Claimable(old(row), now) && !issuerActs
      ensures r == IssuerNotAuthorized || (r == Gone && Claimable(old(row), now)) ==>
        row == old(row).(status := Active, processingStartedAt := None)
      ensures r == NotFound || !Claimable(old(row), now) ==> row == old(row)
      ensures r == Busy <==>
        && Presented(token, digest) && !Claimable(old(row), now)
        && old(row).status == Processing && old(row).expiresAt > now
    {
      if !LooksLikeToken(token) || digest(token) != tokenHash { return NotFound; }
      var claimed := ClaimUpdate(now);
      if !claimed {
        return if row.status == Processing && row.expiresAt > now then Busy else Gone;
      }
      if !issuerActs {
        ReleaseIntakeLink(now);
        return IssuerNotAuthorized;
      }
      if !targetOpen {
        ReleaseIntakeLink(now);
        return Gone;
      }
      return Claimed;
    }

    /** A finalisation nothing interferes with: the UPDATE, then the read that
        accepts an earlier finalisation against the same case. */
    method FinalizeIntakeLink(now: Time, caseId: CaseId) returns (finalized: bool)
      modifies this
      ensures row == FinalizeRow(old(row), now, caseId)
      ensures finalized <==> row.status == Used && row.importCaseId == Some(caseId)
      ensures old(row).status == Processing ==>
        && finalized
        && row == old(row).(status := Used, usedAt := Some(now), importCaseId := Some(caseId),
                            processingStartedAt := None)
      ensures old(row).status != Processing ==> row == old(row)
    {
      if row.status == Processing {
        row := row.(status := Used, usedAt := Some(now), importCaseId := Some(caseId), processingStartedAt := None);
        return true;
      }
      return row.status == Used && row.importCaseId == Some(caseId);
    }

    method RevokeIntakeLink(now: Time) returns (r: RevokeResult)
      modifies this
      ensures row == RevokeRow(old(row), now)
      ensures r == AlreadyUsed <==> old(row).status == Used
      ensures r == AlreadyRevoked <==> old(row).status == Revoked
      ensures r == RevokedNow ==>
        row == old(row).(status := Revoked, revokedAt := Some(now), processingStartedAt := None)
      ensures r != RevokedNow ==> row == old(row)
    {
      if row.status == Used { return AlreadyUsed; }
      if row.status == Revoked { return AlreadyRevoked; }
      row := row.(status := Revoked, revokedAt := Some(now), processingStartedAt := None);
      return RevokedNow;
    }
  }
}
