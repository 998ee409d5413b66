/**
 * GET /claim?code=…: the claiming side. A rejection cascade (unknown code, already
 * claimed, expired, no wallet), then one ledger credit for the token's points, then the
 * token row is stamped claimed. The tables are a `Db.Store`; the method `Get` is proved
 * against the function `Claim`, about which the lifecycle properties are stated.
 */
module Claim {
  import opened Wrappers
  import opened Db
  import TokenStatus
  import RegisterSession

  const IssueEvent: string := "issue"
  const CreditReason: string := "QR earn"

  /** The page shown (or, for a missing code or a failed credit, the JSON error returned). */
  datatype ClaimOutcome =
    | MissingCode
    | InvalidLink
    | AlreadyClaimed
    | Expired
    | NoWallet
    | LedgerInsertFailed
    | Awarded(points: int)

  function HttpStatus(o: ClaimOutcome): int {
    match o
    case MissingCode => 400
    case LedgerInsertFailed => 500
    case _ => 200
  }

  /** Which of the route's store calls fail: the token read, the wallet read, the ledger insert, the token update. */
  datatype Faults = Faults(tokenLookup: bool, walletLookup: bool, ledgerInsert: bool, tokenUpdate: bool)

  const NoFaults: Faults := Faults(false, false, false, false)

  /** The ledger entry a successful claim appends: an unattributed `issue` of the token's points. */
  function Credit(walletId: string, points: int): LedgerEntry {
    LedgerEntry(walletId, None, IssueEvent, points, CreditReason)
  }

  /**
   * The request gets past the first three rejections: a code was given, the token read
   * worked, and the status endpoint would report the token open.
   */
  predicate Claimable(t: Tables, code: Option<string>, now: int, f: Faults) {
    && code.Some? && code.value != [] && !f.tokenLookup
    && TokenStatus.Get(t.tokens, code, false, now) == TokenStatus.Reported(TokenStatus.Open)
  }

  /** An outcome with the tables after it. */
  datatype Step = Step(outcome: ClaimOutcome, after: Tables)

  /**
   * One claim of `code` by `user` at time `now`. Anything but an award leaves all three
   * tables as they were. An award needs an existing, unclaimed, unexpired row and a wallet
   * for the user; it appends exactly one credit of the row's points and stamps only that
   * row claimed (unless the update fails, whose result the route ignores). Wallets never change.
   */
  function Claim(t: Tables, code: Option<string>, user: string, now: int, f: Faults): (r: Step)
    ensures r.outcome == MissingCode <==> code.None? || code.value == []
    ensures r.outcome == InvalidLink <==>
              && code.Some? && code.value != []
              && (f.tokenLookup || TokenStatus.Get(t.tokens, code, false, now) == TokenStatus.Reported(TokenStatus.Missing))
    ensures r.outcome == AlreadyClaimed <==>
              && code.Some? && code.value != [] && !f.tokenLookup
              && TokenStatus.Get(t.tokens, code, false, now) == TokenStatus.Reported(TokenStatus.Claimed)
    ensures r.outcome == Expired <==>
              && code.Some? && code.value != [] && !f.tokenLookup
              && TokenStatus.Get(t.tokens, code, false, now) == TokenStatus.Reported(TokenStatus.Expired)
    ensures r.outcome == NoWallet <==> Claimable(t, code, now, f) && (f.walletLookup || user !in t.wallets)
    ensures r.outcome == LedgerInsertFailed <==>
              Claimable(t, code, now, f) && !f.walletLookup && user in t.wallets && f.ledgerInsert
    ensures r.outcome.Awarded? <==>
              Claimable(t, code, now, f) && !f.walletLookup && user in t.wallets && !f.ledgerInsert
    ensures HttpStatus(r.outcome) == 400 <==> code.None? || code.value == []
    ensures HttpStatus(r.outcome) == 500 <==>
              Claimable(t, code, now, f) && !f.walletLookup && user in t.wallets && f.ledgerInsert
    ensures r.after.wallets == t.wallets
    ensures !r.outcome.Awarded? ==> r.after == t
    ensures r.outcome.Awarded? ==>
              && code.Some? && code.value in t.tokens && user in t.wallets
              && TokenStatus.Classify(Some(t.tokens[code.value]), now) == TokenStatus.Open
              && r.outcome.points == t.tokens[code.value].points
              && r.after.ledger == t.ledger + [Credit(t.wallets[user], r.outcome.points)]
              && r.after.tokens == if f.tokenUpdate then t.tokens
                                   else t.tokens[code.value := MarkedClaimed(t.tokens[code.value], now, user)]
  {
    if code.None? || code.value == [] then Step(MissingCode, t)
    else if f.tokenLookup || code.value !in t.tokens then Step(InvalidLink, t)
    else
      var token := t.tokens[code.value];
      if token.claimedAt.Some? then Step(AlreadyClaimed, t)
      else if token.expiresAt < now then Step(Expired, t)
      else if f.walletLookup || user !in t.wallets then Step(NoWallet, t)
      else if f.ledgerInsert then Step(LedgerInsertFailed, t)
      else
        var ledger := t.ledger + [Credit(t.wallets[user], token.points)];
        var tokens := if f.tokenUpdate then t.tokens
                      else t.tokens[code.value := MarkedClaimed(token, now, user)];
        Step(Awarded(token.points), Tables(tokens, t.wallets, ledger))
  }

  /**
   * Handles one claim request for the placeholder user `demoUserId`, step by step:
   * read the token, reject, read the wallet, insert the credit, update the token.
   */
  method Get(db: Store, code: Option<string>, demoUserId: string, now: int, f: Faults) returns (outcome: ClaimOutcome)
    modifies db`tokens, db`ledger
    ensures Step(outcome, db.State()) == Claim(old(db.State()), code, demoUserId, now, f)
  {
    if code.None? || code.value == [] {
      return MissingCode;
    }
    if f.tokenLookup || code.value !in db.tokens {
      return InvalidLink;
    }
    var token := db.tokens[code.value];
    if token.claimedAt.Some? {
      return AlreadyClaimed;
    }
    if token.expiresAt < now {
      return Expired;
    }
    if f.walletLookup || demoUserId !in db.wallets {
      return NoWallet;
    }
    var walletId := db.wallets[demoUserId];
    var inserted := db.InsertLedger(Credit(walletId, token.points), f.ledgerInsert);
    if !inserted {
      return LedgerInsertFailed;
    }
    db.UpdateClaimed(code.value, now, demoUserId, f.tokenUpdate);
    return Awarded(token.points);
  }

  /**
   * The claim cascade and the status endpoint agree: with a code and a working token read,
   * the claim is rejected as unknown, already claimed or expired exactly when the status is
   * missing, claimed or expired, and gets past those checks exactly when the status is open.
   */
  lemma RejectionsFollowStatus(t: Tables, code: string, user: string, now: int, f: Faults)
    requires code != [] && !f.tokenLookup
    ensures var s := TokenStatus.Classify(TokenStatus.Lookup(t.tokens, code), now);
            var o := Claim(t, Some(code), user, now, f).outcome;
            && (o == InvalidLink <==> s == TokenStatus.Missing)
            && (o == AlreadyClaimed <==> s == TokenStatus.Claimed)
            && (o == Expired <==> s == TokenStatus.Expired)
            && (o == NoWallet || o == LedgerInsertFailed || o.Awarded? <==> s == TokenStatus.Open)
  {
  }

  /** A token never claimed is rejected as expired once its deadline has passed, and nothing changes. */
  lemma ExpiredNeverAwarded(t: Tables, code: string, user: string, now: int, f: Faults)
    requires code != [] && !f.tokenLookup
    requires code in t.tokens && t.tokens[code].claimedAt.None? && t.tokens[code].expiresAt < now
    ensures Claim(t, Some(code), user, now, f) == Step(Expired, t)
  {
  }

  /** Rows already claimed are never touched again, and no claim changes a deadline or an award. */
  lemma ClaimedRowsFrozen(t: Tables, code: Option<string>, user: string, now: int, f: Faults)
    ensures var after := Claim(t, code, user, now, f).after;
            && after.tokens.Keys == t.tokens.Keys
            && (forall c :: c in t.tokens && t.tokens[c].claimedAt.Some? ==> after.tokens[c] == t.tokens[c])
            && (forall c :: c in t.tokens ==>
                  after.tokens[c].expiresAt == t.tokens[c].expiresAt && after.tokens[c].points == t.tokens[c].points)
  {
  }

  /** A claim keeps the tables consistent: claimed rows name their claimer, credits are not negative. */
  lemma ClaimKeepsConsistent(t: Tables, code: Option<string>, user: string, now: int, f: Faults)
    requires Consistent(t)
    ensures Consistent(Claim(t, code, user, now, f).after)
  {
    var r := Claim(t, code, user, now, f);
    if r.outcome.Awarded? {
      assert r.outcome.points >= 0 by {
        assert RowConsistent(t.tokens[code.value]);
      }
      forall i | 0 <= i < |r.after.ledger| ensures r.after.ledger[i].delta >= 0 {
        if i < |t.ledger| {
          assert r.after.ledger[i] == t.ledger[i];
        }
      }
    }
  }

  /** Once a claim has been recorded, claiming the same code again is rejected and changes nothing. */
  lemma SecondClaimRejected(t: Tables, code: string, user: string, now: int, f: Faults,
                            user2: string, now2: int, f2: Faults)
    requires code != [] && Claim(t, Some(code), user, now, f).outcome.Awarded? && !f.tokenUpdate
    requires !f2.tokenLookup
    ensures var first := Claim(t, Some(code), user, now, f);
            Claim(first.after, Some(code), user2, now2, f2) == Step(AlreadyClaimed, first.after)
  {
  }

  /**
   * The update's result is not checked: when it fails the route still reports the award,
   * the row stays open, and the same code is credited a second time.
   */
  lemma LostUpdateCreditsTwice(t: Tables, code: string, user: string, now: int)
    requires code != [] && code in t.tokens && user in t.wallets
    requires TokenStatus.Classify(Some(t.tokens[code]), now) == TokenStatus.Open
    ensures var first := Claim(t, Some(code), user, now, NoFaults.(tokenUpdate := true));
            var second := Claim(first.after, Some(code), user, now, NoFaults);
            && first.outcome.Awarded? && second.outcome.Awarded?
            && |second.after.ledger| == |t.ledger| + 2
  {
  }

  // ---------------------------------------------------------------------------
  // At most one credit per code, over any sequence of claims
  // ---------------------------------------------------------------------------

  datatype Request = Request(code: Option<string>, user: string, now: int, faults: Faults)

  /** The tables after serving the requests one after another. */
  function Replay(t: Tables, reqs: seq<Request>): Tables
    decreases |reqs|
  {
    if reqs == [] then t
    else
      var r := reqs[0];
      Replay(Claim(t, r.code, r.user, r.now, r.faults).after, reqs[1..])
  }

  /** When the update succeeds, an award adds exactly its own code to the claimed codes; anything else adds none. */
  lemma ClaimStepClaimedCodes(t: Tables, code: Option<string>, user: string, now: int, f: Faults)
    requires !f.tokenUpdate
    ensures var r := Claim(t, code, user, now, f);
            if r.outcome.Awarded?
            then code.value !in ClaimedCodes(t.tokens)
                 && ClaimedCodes(r.after.tokens) == ClaimedCodes(t.tokens) + {code.value}
                 && |r.after.ledger| == |t.ledger| + 1
            else ClaimedCodes(r.after.tokens) == ClaimedCodes(t.tokens) && r.after.ledger == t.ledger
  {
    var r := Claim(t, code, user, now, f);
    if r.outcome.Awarded? {
      var c := code.value;
      var row := MarkedClaimed(t.tokens[c], now, user);
      assert r.after.tokens == t.tokens[c := row];
      assert ClaimedCodes(r.after.tokens) == ClaimedCodes(t.tokens) + {c};
    }
  }

  /**
   * With no failed token update, every credit in the ledger corresponds to exactly one
   * code that became claimed: the ledger grows by the number of newly claimed codes,
   * so no code is ever credited twice.
   */
  lemma {:induction false} CreditsEqualNewClaims(t: Tables, reqs: seq<Request>)
    requires forall i :: 0 <= i < |reqs| ==> !reqs[i].faults.tokenUpdate
    ensures ClaimedCodes(t.tokens) <= ClaimedCodes(Replay(t, reqs).tokens)
    ensures |Replay(t, reqs).ledger| - |t.ledger| ==
              |ClaimedCodes(Replay(t, reqs).tokens)| - |ClaimedCodes(t.tokens)|
    decreases |reqs|
  {
    if reqs != [] {
      var r := reqs[0];
      ClaimStepClaimedCodes(t, r.code, r.user, r.now, r.faults);
      var next := Claim(t, r.code, r.user, r.now, r.faults).after;
      CreditsEqualNewClaims(next, reqs[1..]);
    }
  }

  // ---------------------------------------------------------------------------
  // Issue, poll, claim: the lifecycle end to end
  // ---------------------------------------------------------------------------

  /**
   * Issuing 2450 cents for 245 points, then polling, claiming, polling and claiming again:
   * the token is open, the first claim awards 245 points with one credit, the token then
   * reports claimed, and the second claim is rejected with no further credit.
   */
  lemma IssuePollClaimScenario(t: Tables, merchantId: string, code: string, user: string, now: int)
    requires RegisterSession.IsUuid(merchantId)
    requires code != [] && code !in t.tokens && user in t.wallets
    ensures var body := RegisterSession.Body(2450.0, 245.0, None);
            var issued := t.(tokens := t.tokens[code := RegisterSession.NewRow(merchantId, body, now)]);
            var first := Claim(issued, Some(code), user, now, NoFaults);
            var second := Claim(first.after, Some(code), user, now, NoFaults);
            && RegisterSession.Validate(merchantId, body).None?
            && TokenStatus.Get(issued.tokens, Some(code), false, now) == TokenStatus.Reported(TokenStatus.Open)
            && first.outcome == Awarded(245)
            && first.after.ledger == t.ledger + [Credit(t.wallets[user], 245)]
            && TokenStatus.Get(first.after.tokens, Some(code), false, now) == TokenStatus.Reported(TokenStatus.Claimed)
            && second == Step(AlreadyClaimed, first.after)
  {
  }

  /**
   * The same lifecycle run on one store through the route handlers: issue a token, claim
   * it twice. The second claim is rejected and the ledger holds exactly one credit.
   */
  method IssueThenClaimTwice(merchantId: string, code: string, user: string, walletId: string, now: int)
    returns (issued: RegisterSession.IssueResponse, first: ClaimOutcome, second: ClaimOutcome, ledger: seq<LedgerEntry>)
    requires RegisterSession.IsUuid(merchantId) && code != []
    ensures issued == RegisterSession.Issued(code)
    ensures first == Awarded(245) && second == AlreadyClaimed
    ensures ledger == [Credit(walletId, 245)]
  {
    var db := new Store(map[user := walletId]);
    issued := RegisterSession.Post(db, Some(merchantId), RegisterSession.Body(2450.0, 245.0, None), now, code, false);
    first := Get(db, Some(code), user, now, NoFaults);
    second := Get(db, Some(code), user, now, NoFaults);
    ledger := db.ledger;
  }

  /** A token left unclaimed past its two minutes reports expired and cannot be claimed. */
  lemma ExpiryScenario(t: Tables, merchantId: string, body: RegisterSession.Body, code: string, user: string,
                       issuedAt: int, later: int)
    requires code != [] && code !in t.tokens
    requires later > issuedAt + RegisterSession.TtlMs
    ensures var issued := t.(tokens := t.tokens[code := RegisterSession.NewRow(merchantId, body, issuedAt)]);
            && TokenStatus.Get(issued.tokens, Some(code), false, later) == TokenStatus.Reported(TokenStatus.Expired)
            && Claim(issued, Some(code), user, later, NoFaults) == Step(Expired, issued)
  {
  }
}
