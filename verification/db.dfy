/**
 * The three tables the earn-token flow touches, held in memory: `earn_tokens` keyed by
 * claim code, `wallets` keyed by owning user, and the append-only `points_ledger`.
 * Times are integer milliseconds. A store error is a `fails` argument of the operation.
 */
module Db {
  import opened Wrappers

  /** One `earn_tokens` row; the claim code is its key in the table. */
  datatype TokenRow = TokenRow(
    merchantId: string,
    amountCents: int,
    points: int,
    reason: Option<string>,
    expiresAt: int,
    claimedAt: Option<int>,
    claimedBy: Option<string>)

  /** One `points_ledger` row. */
  datatype LedgerEntry = LedgerEntry(
    walletId: string,
    tenantId: Option<string>,
    eventType: string,
    delta: int,
    reason: string)

  /** A snapshot of the three tables. */
  datatype Tables = Tables(
    tokens: map<string, TokenRow>,
    wallets: map<string, string>,
    ledger: seq<LedgerEntry>)

  /** A row is claimed with a claimer or not at all, and its amounts are not negative. */
  predicate RowConsistent(row: TokenRow) {
    && (row.claimedAt.Some? <==> row.claimedBy.Some?)
    && row.amountCents >= 0
    && row.points >= 0
  }

  /** Every token row is consistent and no ledger entry debits. */
  predicate Consistent(t: Tables) {
    && (forall code :: code in t.tokens ==> RowConsistent(t.tokens[code]))
    && (forall i :: 0 <= i < |t.ledger| ==> t.ledger[i].delta >= 0)
  }

  /** The codes of the rows that have been claimed. */
  function ClaimedCodes(tokens: map<string, TokenRow>): set<string> {
    set code | code in tokens && tokens[code].claimedAt.Some?
  }

  /** The row after `update({claimed_at, claimed_by})`. */
  function MarkedClaimed(row: TokenRow, at: int, claimer: string): (r: TokenRow)
    ensures r.claimedAt == Some(at) && r.claimedBy == Some(claimer)
    ensures r.(claimedAt := row.claimedAt, claimedBy := row.claimedBy) == row
  {
    row.(claimedAt := Some(at), claimedBy := Some(claimer))
  }

  class Store {
    var tokens: map<string, TokenRow>
    var wallets: map<string, string>
    var ledger: seq<LedgerEntry>

    function State(): Tables
      reads this
    {
      Tables(tokens, wallets, ledger)
    }

    /** An empty token table and ledger beside the given wallets. */
    constructor (wallets: map<string, string>)
      ensures State() == Tables(map[], wallets, [])
    {
      this.tokens := map[];
      this.wallets := wallets;
      this.ledger := [];
    }

    /** Insert a row under a code the store has not handed out before. */
    method InsertToken(code: string, row: TokenRow, fails: bool) returns (ok: bool)
      requires code !in tokens
      modifies this`tokens
      ensures ok == !fails
      ensures tokens == if ok then old(tokens)[code := row] else old(tokens)
    {
      ok := !fails;
      if ok {
        tokens := tokens[code := row];
      }
    }

    /** Append one ledger entry. */
    method InsertLedger(entry: LedgerEntry, fails: bool) returns (ok: bool)
      modifies this`ledger
      ensures ok == !fails
      ensures ledger == if ok then old(ledger) + [entry] else old(ledger)
    {
      ok := !fails;
      if ok {
        ledger := ledger + [entry];
      }
    }

    /** Mark the row under `code` claimed; a missing row or a failed update changes nothing. */
    method UpdateClaimed(code: string, at: int, claimer: string, fails: bool)
      modifies this`tokens
      ensures tokens == if !fails && code in old(tokens)
                        then old(tokens)[code := MarkedClaimed(old(tokens)[code], at, claimer)]
                        else old(tokens)
    {
      if !fails && code in tokens {
        tokens := tokens[code := MarkedClaimed(tokens[code], at, claimer)];
      }
    }
  }
}
