/**
 * POST /api/register/session: the issuing side. The merchant id comes from configuration
 * and must be UUID-shaped; the body's amount and points must be positive; then one
 * `earn_tokens` row is inserted with a two-minute deadline and only its code is returned.
 */
module RegisterSession {
  import opened Wrappers
  import opened Text
  import opened Db
  import TokenStatus

  /** Token lifetime: two minutes, in milliseconds. */
  const TtlMs: int := 2 * 60 * 1000

  // ---------------------------------------------------------------------------
  // The merchant-id pattern, case-insensitive:
  //   ^[0-9a-f]{8}-[0-9a-f]{4}-[1-5][0-9a-f]{3}-[89ab][0-9a-f]{3}-[0-9a-f]{12}$
  // ---------------------------------------------------------------------------

  datatype CharClass = HexDigit | Hyphen | VersionDigit | VariantDigit

  /** Membership in a character class of the pattern, ignoring case as its `i` flag does. */
  predicate InClass(c: char, k: CharClass) {
    match k
    case HexDigit => '0' <= c <= '9' || 'a' <= c <= 'f' || 'A' <= c <= 'F'
    case Hyphen => c == '-'
    case VersionDigit => '1' <= c <= '5'
    case VariantDigit => c == '8' || c == '9' || c == 'a' || c == 'b' || c == 'A' || c == 'B'
  }

  predicate AllIn(t: string, k: CharClass) {
    forall j :: 0 <= j < |t| ==> InClass(t[j], k)
  }

  /** `UUID_RE.test(s)`: the pattern's groups, in order, anchored at both ends. */
  predicate IsUuid(s: string) {
    && |s| == 36
    && AllIn(s[..8], HexDigit) && s[8] == '-'
    && AllIn(s[9..13], HexDigit) && s[13] == '-'
    && InClass(s[14], VersionDigit) && AllIn(s[15..18], HexDigit) && s[18] == '-'
    && InClass(s[19], VariantDigit) && AllIn(s[20..23], HexDigit) && s[23] == '-'
    && AllIn(s[24..], HexDigit)
  }

  /** The class each of the 36 positions must belong to. */
  function UuidClassAt(i: nat): CharClass {
    if i == 8 || i == 13 || i == 18 || i == 23 then Hyphen
    else if i == 14 then VersionDigit
    else if i == 19 then VariantDigit
    else HexDigit
  }

  /**
   * The merchant id is accepted exactly when it is 36 characters long, with '-' at
   * positions 8, 13, 18 and 23, a digit 1-5 at position 14, one of 8, 9, a, b (either case)
   * at position 19, and hexadecimal digits (either case) everywhere else.
   */
  lemma UuidShape(s: string)
    ensures IsUuid(s) <==> |s| == 36 && forall i :: 0 <= i < 36 ==> InClass(s[i], UuidClassAt(i))
  {
    if |s| == 36 {
      if forall i :: 0 <= i < 36 ==> InClass(s[i], UuidClassAt(i)) {
        assert AllIn(s[..8], HexDigit) by {
          forall j | 0 <= j < 8 ensures InClass(s[..8][j], HexDigit) { assert InClass(s[j], UuidClassAt(j)); }
        }
        assert AllIn(s[9..13], HexDigit) by {
          forall j | 0 <= j < 4 ensures InClass(s[9..13][j], HexDigit) { assert InClass(s[j + 9], UuidClassAt(j + 9)); }
        }
        assert AllIn(s[15..18], HexDigit) by {
          forall j | 0 <= j < 3 ensures InClass(s[15..18][j], HexDigit) { assert InClass(s[j + 15], UuidClassAt(j + 15)); }
        }
        assert AllIn(s[20..23], HexDigit) by {
          forall j | 0 <= j < 3 ensures InClass(s[20..23][j], HexDigit) { assert InClass(s[j + 20], UuidClassAt(j + 20)); }
        }
        assert AllIn(s[24..], HexDigit) by {
          forall j | 0 <= j < 12 ensures InClass(s[24..][j], HexDigit) { assert InClass(s[j + 24], UuidClassAt(j + 24)); }
        }
        assert InClass(s[8], UuidClassAt(8)) && InClass(s[13], UuidClassAt(13));
        assert InClass(s[18], UuidClassAt(18)) && InClass(s[23], UuidClassAt(23));
        assert InClass(s[14], UuidClassAt(14)) && InClass(s[19], UuidClassAt(19));
      }
      if IsUuid(s) {
        forall i | 0 <= i < 36 ensures InClass(s[i], UuidClassAt(i)) {
          if i < 8 { assert s[i] == s[..8][i]; }
          else if 9 <= i < 13 { assert s[i] == s[9..13][i - 9]; }
          else if 15 <= i < 18 { assert s[i] == s[15..18][i - 15]; }
          else if 20 <= i < 23 { assert s[i] == s[20..23][i - 20]; }
          else if 24 <= i { assert s[i] == s[24..][i - 24]; }
        }
      }
    }
  }

  /** The check ignores case: an id is accepted exactly when its lower-cased form is. */
  lemma UuidIgnoresCase(s: string)
    ensures IsUuid(s) <==> IsUuid(Lower(s))
  {
    UuidShape(s);
    UuidShape(Lower(s));
    forall i | 0 <= i < |s|
      ensures forall k :: InClass(Lower(s)[i], k) <==> InClass(s[i], k)
    {
    }
  }

  // ---------------------------------------------------------------------------
  // The request
  // ---------------------------------------------------------------------------

  /** The JSON body; numbers are reals (finiteness is not modelled). */
  datatype Body = Body(amountCents: real, points: real, reason: Option<string>)

  datatype IssueError = InvalidMerchantId | InvalidAmountCents | InvalidPoints | InsertFailed

  /** The response carries the code alone on success. */
  datatype IssueResponse = Issued(code: string) | Rejected(error: IssueError)

  function HttpStatus(r: IssueResponse): int {
    match r
    case Issued(_) => 200
    case Rejected(InsertFailed) => 500
    case Rejected(_) => 400
  }

  /** `MERCHANT_ID || ""`. */
  function MerchantId(configured: Option<string>): string {
    if configured.Some? then configured.value else ""
  }

  /** `Math.round`: the nearest integer, halves rounded up. */
  function Round(x: real): (r: int)
    ensures r as real - 0.5 <= x < r as real + 0.5
  {
    (x + 0.5).Floor
  }

  /**
   * The checks, in their fixed order: merchant id first (before the body is looked at),
   * then the amount, then the points. Positivity is checked on the values as sent.
   */
  function Validate(merchantId: string, body: Body): (r: Option<IssueError>)
    ensures r.None? <==> IsUuid(merchantId) && body.amountCents > 0.0 && body.points > 0.0
    ensures r == Some(InvalidMerchantId) <==> !IsUuid(merchantId)
    ensures r == Some(InvalidAmountCents) <==> IsUuid(merchantId) && body.amountCents <= 0.0
    ensures r == Some(InvalidPoints) <==> IsUuid(merchantId) && body.amountCents > 0.0 && body.points <= 0.0
  {
    if !IsUuid(merchantId) then Some(InvalidMerchantId)
    else if body.amountCents <= 0.0 then Some(InvalidAmountCents)
    else if body.points <= 0.0 then Some(InvalidPoints)
    else None
  }

  /** The row inserted for a request received at `now`. */
  function NewRow(merchantId: string, body: Body, now: int): (row: TokenRow)
    ensures TokenStatus.Classify(Some(row), now) == TokenStatus.Open
    ensures TokenStatus.Classify(Some(row), now + TtlMs + 1) == TokenStatus.Expired
  {
    TokenRow(merchantId, Round(body.amountCents), Round(body.points), body.reason, now + TtlMs, None, None)
  }

  /**
   * A row built from a request that passed validation is consistent: unclaimed,
   * amounts rounded to the nearest integer and not negative.
   */
  lemma ValidRequestRow(merchantId: string, body: Body, now: int)
    requires Validate(merchantId, body).None?
    ensures RowConsistent(NewRow(merchantId, body, now))
    ensures NewRow(merchantId, body, now).claimedAt.None?
    ensures -0.5 < NewRow(merchantId, body, now).amountCents as real - body.amountCents <= 0.5
    ensures -0.5 < NewRow(merchantId, body, now).points as real - body.points <= 0.5
  {
  }

  /** Positive is not the same as at least one: a value below one half passes and is stored as 0. */
  lemma SubHalfStoredAsZero(merchantId: string, body: Body, now: int)
    requires IsUuid(merchantId) && 0.0 < body.amountCents < 0.5 && 0.0 < body.points < 0.5
    ensures Validate(merchantId, body).None?
    ensures NewRow(merchantId, body, now).amountCents == 0 && NewRow(merchantId, body, now).points == 0
  {
  }

  /** A token issued at `now` is open up to and including `now + TtlMs`, and expired after. */
  lemma IssuedTokenLifetime(merchantId: string, body: Body, now: int, t: int)
    requires now <= t
    ensures TokenStatus.Classify(Some(NewRow(merchantId, body, now)), t) ==
              if t <= now + 120000 then TokenStatus.Open else TokenStatus.Expired
  {
  }

  /**
   * Handles one issuing request with `code` as the code the store assigns. Any rejection
   * or insert failure leaves the table as it was; success adds exactly the new row.
   */
  method Post(db: Store, configuredMerchantId: Option<string>, body: Body, now: int, code: string, insertFails: bool)
    returns (resp: IssueResponse)
    requires code !in db.tokens
    modifies db`tokens
    ensures var merchantId := MerchantId(configuredMerchantId);
            var check := Validate(merchantId, body);
            if check.Some? then resp == Rejected(check.value) && db.tokens == old(db.tokens)
            else if insertFails then resp == Rejected(InsertFailed) && db.tokens == old(db.tokens)
            else resp == Issued(code) && db.tokens == old(db.tokens)[code := NewRow(merchantId, body, now)]
    ensures HttpStatus(resp) == 200 <==> Validate(MerchantId(configuredMerchantId), body).None? && !insertFails
    ensures HttpStatus(resp) == 500 <==> Validate(MerchantId(configuredMerchantId), body).None? && insertFails
    ensures HttpStatus(resp) == 400 <==> Validate(MerchantId(configuredMerchantId), body).Some?
    ensures Consistent(old(db.State())) ==> Consistent(db.State())
  {
    var merchantId := MerchantId(configuredMerchantId);
    if !IsUuid(merchantId) {
      return Rejected(InvalidMerchantId);
    }
    if body.amountCents <= 0.0 {
      return Rejected(InvalidAmountCents);
    }
    if body.points <= 0.0 {
      return Rejected(InvalidPoints);
    }
    var expiresAt := now + TtlMs;
    var row := TokenRow(merchantId, Round(body.amountCents), Round(body.points), body.reason, expiresAt, None, None);
    var ok := db.InsertToken(code, row, insertFails);
    if !ok {
      return Rejected(InsertFailed);
    }
    return Issued(code);
  }
}
