/**
 * The status endpoint polled by the issuing screen: a read-only classification of one
 * token row as missing, claimed, expired or open, in that order of precedence.
 */
module TokenStatus {
  import opened Wrappers
  import opened Db

  datatype Status = Missing | Claimed | Expired | Open

  /** What the endpoint answers: 400 for no code, 500 for a failed lookup, else a status. */
  datatype StatusResponse = MissingCode | LookupFailed | Reported(status: Status)

  function HttpStatus(r: StatusResponse): int {
    match r
    case MissingCode => 400
    case LookupFailed => 500
    case Reported(_) => 200
  }

  /**
   * The status of a row at time `now`. A claimed row is claimed whatever its expiry;
   * an unclaimed row is expired only strictly after `expiresAt`.
   */
  function Classify(row: Option<TokenRow>, now: int): (s: Status)
    ensures s == Missing <==> row.None?
    ensures s == Claimed <==> row.Some? && row.value.claimedAt.Some?
    ensures s == Expired <==> row.Some? && row.value.claimedAt.None? && row.value.expiresAt < now
    ensures s == Open <==> row.Some? && row.value.claimedAt.None? && now <= row.value.expiresAt
  {
    if row.None? then Missing
    else if row.value.claimedAt.Some? then Claimed
    else if row.value.expiresAt < now then Expired
    else Open
  }

  /** The row stored under a code, if any. */
  function Lookup(tokens: map<string, TokenRow>, code: string): Option<TokenRow> {
    if code in tokens then Some(tokens[code]) else None
  }

  /**
   * GET /api/token-status?code=…: a missing or empty code is a 400 before any lookup;
   * a lookup error is a 500; otherwise exactly one of the four statuses.
   */
  function Get(tokens: map<string, TokenRow>, code: Option<string>, lookupFails: bool, now: int): (r: StatusResponse)
    ensures r == MissingCode <==> code.None? || code.value == []
    ensures r == LookupFailed <==> code.Some? && code.value != [] && lookupFails
    ensures r.Reported? ==> r.status == Classify(Lookup(tokens, code.value), now)
    ensures HttpStatus(r) == 400 <==> code.None? || code.value == []
    ensures HttpStatus(r) == 500 <==> code.Some? && code.value != [] && lookupFails
  {
    if code.None? || code.value == [] then MissingCode
    else if lookupFails then LookupFailed
    else Reported(Classify(Lookup(tokens, code.value), now))
  }

  /** Claimed takes precedence over expired: a claimed row past its deadline still reports claimed. */
  lemma ClaimedBeatsExpired(tokens: map<string, TokenRow>, code: string, now: int)
    requires code != [] && code in tokens
    requires tokens[code].claimedAt.Some? && tokens[code].expiresAt < now
    ensures Get(tokens, Some(code), false, now) == Reported(Claimed)
  {
  }

  /** The deadline is inclusive: open at `expiresAt`, expired one millisecond later. */
  lemma DeadlineInclusive(row: TokenRow)
    requires row.claimedAt.None?
    ensures Classify(Some(row), row.expiresAt) == Open
    ensures Classify(Some(row), row.expiresAt + 1) == Expired
  {
  }

  /** For an unchanged row, time only moves the status from open to expired, never back. */
  lemma StatusMonotoneInTime(row: Option<TokenRow>, t1: int, t2: int)
    requires t1 <= t2
    ensures Classify(row, t1) != Open ==> Classify(row, t2) == Classify(row, t1)
    ensures Classify(row, t2) == Open ==> Classify(row, t1) == Open
  {
  }
}
