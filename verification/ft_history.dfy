/**
 * `ft_history`: the balance history of one account for one fungible-token
 * contract, rebuilt backwards from the authoritative current balance over the
 * token events of the account, newest first.
 */
module FtHistory {
  import opened Wrappers
  import opened Integers
  import opened Errors
  import opened Collaborators
  import opened Types

  /** A row of the event query, numeric columns as text; rows arrive oldest first. */
  datatype FtEventRow = FtEventRow(
    blockHeight: string,
    blockTimestamp: string,
    amount: string,
    eventKind: string,
    oldOwnerId: string,
    newOwnerId: string)

  /** One entry of the history: `balance` is the account's balance right after the event. */
  datatype FtHistoryInfo = FtHistoryInfo(
    actionKind: string,
    affectedAccountId: Option<string>,
    deltaBalance: I128,
    balance: U128,
    blockTimestampNanos: U64,
    blockHeight: U64)

  /** The account and contract a history is built for, and the collaborators it uses. */
  datatype Request = Request(utils: Utils, ids: AccountIds, account: string, contract: string)

  function UnreachableError(): Error {
    FromErrorKind(InternalError("todo unreachable code"))
  }

  function NegativeBalanceError(q: Request): Error {
    FromErrorKind(InternalError("Balance could not be negative: account " + q.account + ", contract " + q.contract))
  }

  function NowhereError(q: Request): Error {
    FromErrorKind(InternalError("We have found the money from nowhere for account " + q.account + ", contract " + q.contract))
  }

  /** `(last_balance as i128) - delta`, with the cast and the subtraction wrapping. */
  function PreBalance(last: u128, delta: i128): i128 {
    SubI128(AsI128(last), delta)
  }

  /** The balance before the event of an entry, as the loop carries it to the next row. */
  function NextBalance(e: FtHistoryInfo): u128 {
    AsU128(PreBalance(e.balance.value, e.deltaBalance.value))
  }

  /** The other side of an event: none when its id is empty, otherwise the validated id. */
  function Counterparty(ids: AccountIds, other: string): (r: Result<Option<string>, Error>)
    ensures r.Success? <==> other == [] || ids.valid(other)
    ensures r.Success? ==> (r.value == None <==> other == []) && (r.value != None ==> r.value == Some(other))
    ensures r.Failure? ==> r.error == ids.error(other)
  {
    if other == [] then Success(None)
    else if ids.valid(other) then Success(Some(other))
    else Failure(ids.error(other))
  }

  /** One turn of the loop: the entry for `row` given the balance after it, and the balance before it. */
  function Step(q: Request, last: u128, row: FtEventRow): Result<(FtHistoryInfo, u128), Error> {
    match q.utils.stringToI128(row.amount)
    case Failure(e) => Failure(e)
    case Success(amount) =>
      if q.account == row.oldOwnerId || q.account == row.newOwnerId then
        var outgoing := q.account == row.oldOwnerId;
        var delta := if outgoing then NegI128(amount) else amount;
        match Counterparty(q.ids, if outgoing then row.newOwnerId else row.oldOwnerId)
        case Failure(e) => Failure(e)
        case Success(affected) =>
          var pre := PreBalance(last, delta);
          if pre < 0 then Failure(NegativeBalanceError(q))
          else
            match q.utils.toU64(row.blockTimestamp)
            case Failure(e) => Failure(e)
            case Success(timestamp) =>
              match q.utils.toU64(row.blockHeight)
              case Failure(e) => Failure(e)
              case Success(height) =>
                Success((FtHistoryInfo(row.eventKind, affected, I128(delta), U128(last), U64(timestamp), U64(height)),
                         AsU128(pre)))
      else
        Failure(UnreachableError())
  }

  /** The loop over the rows from the newest (the last) to the oldest, stopping at the first error. */
  function Walk(q: Request, last: u128, rows: seq<FtEventRow>): Result<seq<FtHistoryInfo>, Error>
    decreases |rows|
  {
    if rows == [] then Success([])
    else
      match Step(q, last, rows[|rows| - 1])
      case Failure(e) => Failure(e)
      case Success((entry, next)) => Prepend([entry], Walk(q, next, rows[..|rows| - 1]))
  }

  /** The check after the loop: the oldest entry's balance must equal its delta cast to u128. */
  function Reconcile(q: Request, es: seq<FtHistoryInfo>): Result<seq<FtHistoryInfo>, Error> {
    if es != [] && es[|es| - 1].balance.value != AsU128(es[|es| - 1].deltaBalance.value) then
      Failure(NowhereError(q))
    else
      Success(es)
  }

  /** The history of `ft_history` for an authoritative `current` balance and the ascending `rows`. */
  function History(q: Request, current: u128, rows: seq<FtEventRow>): Result<seq<FtHistoryInfo>, Error> {
    match Walk(q, current, rows)
    case Failure(e) => Failure(e)
    case Success(es) => Reconcile(q, es)
  }

  lemma WalkFailsAt(q: Request, last: u128, rows: seq<FtEventRow>, i: nat, e: Error)
    requires 0 < i <= |rows| && Step(q, last, rows[i - 1]) == Failure(e)
    ensures Walk(q, last, rows[..i]) == Failure(e)
  {
  }

  lemma WalkStepsAt(q: Request, last: u128, rows: seq<FtEventRow>, i: nat, entry: FtHistoryInfo, next: u128)
    requires 0 < i <= |rows| && Step(q, last, rows[i - 1]) == Success((entry, next))
    ensures Walk(q, last, rows[..i]) == Prepend([entry], Walk(q, next, rows[..i - 1]))
  {
    assert rows[..i][..i - 1] == rows[..i - 1];
  }

  /**
   * The body of the loop of `ft_history` for one row, given the balance after
   * it: the amount is parsed, its sign set from the side of the account, the
   * counterparty validated, the pre-event balance checked and computed, and
   * the block fields converted, each failure ending the turn.
   */
  method Turn(q: Request, last: u128, row: FtEventRow) returns (r: Result<(FtHistoryInfo, u128), Error>)
    ensures r == Step(q, last, row)
  {
    var delta: i128;
    match q.utils.stringToI128(row.amount) {
      case Failure(e) => return Failure(e);
      case Success(amount) => delta := amount;
    }
    var balance := last;
    var affected: Option<string>;
    if q.account == row.oldOwnerId {
      delta := NegI128(delta);
      if row.newOwnerId == [] {
        affected := None;
      } else if q.ids.valid(row.newOwnerId) {
        affected := Some(row.newOwnerId);
      } else {
        return Failure(q.ids.error(row.newOwnerId));
      }
    } else if q.account == row.newOwnerId {
      if row.oldOwnerId == [] {
        affected := None;
      } else if q.ids.valid(row.oldOwnerId) {
        affected := Some(row.oldOwnerId);
      } else {
        return Failure(q.ids.error(row.oldOwnerId));
      }
    } else {
      return Failure(UnreachableError());
    }
    if SubI128(AsI128(last), delta) < 0 {
      return Failure(NegativeBalanceError(q));
    }
    var lastBalance := AsU128(SubI128(AsI128(last), delta));
    var timestamp := q.utils.toU64(row.blockTimestamp);
    if timestamp.Failure? {
      return Failure(timestamp.error);
    }
    var height := q.utils.toU64(row.blockHeight);
    if height.Failure? {
      return Failure(height.error);
    }
    var entry := FtHistoryInfo(row.eventKind, affected, I128(delta), U128(balance),
                               U64(timestamp.value), U64(height.value));
    return Success((entry, lastBalance));
  }

  /**
   * The loop of `ft_history`: the rows from the newest (the last) to the
   * oldest, each turn starting from the balance the previous one left, the
   * first failing turn ending it.
   */
  method WalkRows(q: Request, current: u128, rows: seq<FtEventRow>) returns (r: Result<seq<FtHistoryInfo>, Error>)
    ensures r == Walk(q, current, rows)
  {
    var lastBalance := current;
    var result: seq<FtHistoryInfo> := [];
    var i := |rows|;
    assert rows[..i] == rows;
    assert Prepend(result, Walk(q, lastBalance, rows)) == Walk(q, lastBalance, rows) by {
      if Walk(q, lastBalance, rows).Success? {
        assert result + Walk(q, lastBalance, rows).value == Walk(q, lastBalance, rows).value;
      }
    }
    while i > 0
      invariant 0 <= i <= |rows|
      invariant Walk(q, current, rows) == Prepend(result, Walk(q, lastBalance, rows[..i]))
    {
      var turn := Turn(q, lastBalance, rows[i - 1]);
      if turn.Failure? {
        WalkFailsAt(q, lastBalance, rows, i, turn.error);
        return Failure(turn.error);
      }
      var (entry, next) := turn.value;
      WalkStepsAt(q, lastBalance, rows, i, entry, next);
      PrependTwice(result, [entry], Walk(q, next, rows[..i - 1]));
      result := result + [entry];
      lastBalance := next;
      i := i - 1;
    }
    assert rows[..i] == [] && result + [] == result;
    return Success(result);
  }

  /**
   * `ft_history` once the balance RPC call and the event query have answered:
   * either may have failed, in which case its error is returned. Then the
   * loop runs, and the oldest entry's balance must equal its delta cast to
   * u128, or the money came from nowhere.
   */
  method FtHistory(q: Request, currentBalance: Result<u128, Error>, fetched: Result<seq<FtEventRow>, Error>)
    returns (r: Result<seq<FtHistoryInfo>, Error>)
    ensures currentBalance.Failure? ==> r == Failure(currentBalance.error)
    ensures currentBalance.Success? && fetched.Failure? ==> r == Failure(fetched.error)
    ensures currentBalance.Success? && fetched.Success? ==> r == History(q, currentBalance.value, fetched.value)
  {
    if currentBalance.Failure? {
      return Failure(currentBalance.error);
    }
    if fetched.Failure? {
      return Failure(fetched.error);
    }
    var walked := WalkRows(q, currentBalance.value, fetched.value);
    if walked.Failure? {
      return Failure(walked.error);
    }
    var result := walked.value;
    if |result| > 0 {
      var info := result[|result| - 1];
      if info.balance.value != AsU128(info.deltaBalance.value) {
        return Failure(NowhereError(q));
      }
    }
    return Success(result);
  }

  // ---------------------------------------------------------------------------
  // What the reconstruction guarantees

  /**
   * The pre-event balance check: `(last as i128) - delta` is read modulo
   * 2^128, so it passes exactly when `last - delta` reduced modulo 2^128 is
   * below 2^127, and then it is that reduced value. A negative `last - delta`
   * never passes; one below 2^127 is kept exactly.
   */
  lemma {:induction false} PreBalanceValue(last: u128, delta: i128)
    ensures PreBalance(last, delta) >= 0 <==> (last - delta) % TWO_128 < TWO_127
    ensures PreBalance(last, delta) >= 0 ==> PreBalance(last, delta) == (last - delta) % TWO_128
    ensures last - delta < 0 ==> PreBalance(last, delta) < 0
    ensures 0 <= last - delta < TWO_127 ==> PreBalance(last, delta) == last - delta
  {
    var x := AsI128(last) as int - delta as int;
    I128Wraps(last, 0, AsI128(last), delta);
    assert (x - (last - delta)) % TWO_128 == 0 by {
      if last >= TWO_127 {
        assert x - (last - delta) == -TWO_128;
      }
    }
    WrapI128Mod(x, last - delta);
    if last - delta < 0 {
      ModUnique(last - delta, -1, last - delta + TWO_128);
    } else if last - delta < TWO_127 {
      ModUnique(last - delta, 0, last - delta);
    }
  }

  /** The balance before the event of an entry, as an exact integer. */
  function PreEvent(e: FtHistoryInfo): int {
    e.balance.value - e.deltaBalance.value
  }

  /** Once the pre-event check has passed, the next balance is the exact pre-event balance reduced modulo 2^128. */
  lemma NextBalanceValue(e: FtHistoryInfo)
    requires PreBalance(e.balance.value, e.deltaBalance.value) >= 0
    ensures PreEvent(e) >= 0
    ensures NextBalance(e) == PreEvent(e) % TWO_128 && NextBalance(e) < TWO_127
    ensures PreEvent(e) < TWO_128 ==> NextBalance(e) == PreEvent(e)
  {
    PreBalanceValue(e.balance.value, e.deltaBalance.value);
    if PreEvent(e) < TWO_128 {
      ModUnique(PreEvent(e), 0, PreEvent(e));
    }
  }

  /** The id on the side of `row` that is not `account`'s: the new owner when `account` is the old one. */
  function OtherSide(account: string, row: FtEventRow): string {
    if account == row.oldOwnerId then row.newOwnerId else row.oldOwnerId
  }

  /** The row names the account on one side. */
  ghost predicate NamesAccount(q: Request, row: FtEventRow) {
    q.account == row.oldOwnerId || q.account == row.newOwnerId
  }

  /**
   * The amount parses, and the delta is minus the amount when the account is
   * the old owner (even when it is also the new owner) and plus the amount
   * otherwise.
   */
  ghost predicate SignedDelta(q: Request, row: FtEventRow, e: FtHistoryInfo) {
    && q.utils.stringToI128(row.amount).Success?
    && e.deltaBalance.value
       == (if q.account == row.oldOwnerId then NegI128(q.utils.stringToI128(row.amount).value)
           else q.utils.stringToI128(row.amount).value)
  }

  /** The counterparty is the other side's id, validated, or none exactly when that id is empty. */
  ghost predicate CounterpartyOf(q: Request, row: FtEventRow, e: FtHistoryInfo) {
    && (e.affectedAccountId == None <==> OtherSide(q.account, row) == [])
    && (OtherSide(q.account, row) != [] ==>
          q.ids.valid(OtherSide(q.account, row)) && e.affectedAccountId == Some(OtherSide(q.account, row)))
  }

  /** The event kind is copied and both block fields are converted by `to_u64`. */
  ghost predicate CopiedFields(q: Request, row: FtEventRow, e: FtHistoryInfo) {
    && e.actionKind == row.eventKind
    && q.utils.toU64(row.blockTimestamp) == Success(e.blockTimestampNanos.value)
    && q.utils.toU64(row.blockHeight) == Success(e.blockHeight.value)
  }

  /** Entry `e` is the one the row yields for the account, up to its balance. */
  ghost predicate Produced(q: Request, row: FtEventRow, e: FtHistoryInfo) {
    NamesAccount(q, row) && SignedDelta(q, row, e) && CounterpartyOf(q, row, e) && CopiedFields(q, row, e)
  }

  /** What a successful turn of the loop establishes. */
  lemma StepOk(q: Request, last: u128, row: FtEventRow, entry: FtHistoryInfo, next: u128)
    requires Step(q, last, row) == Success((entry, next))
    ensures Produced(q, row, entry)
    ensures entry.balance.value == last && next == NextBalance(entry)
    ensures PreBalance(last, entry.deltaBalance.value) >= 0
  {
  }

  /**
   * A successful loop over non-empty rows: its first entry is what the newest
   * row's turn produced, and the rest is the loop over the older rows from
   * the balance that turn left.
   */
  lemma WalkUnfold(q: Request, last: u128, rows: seq<FtEventRow>, es: seq<FtHistoryInfo>)
    requires rows != [] && Walk(q, last, rows) == Success(es)
    ensures es != [] && Produced(q, rows[|rows| - 1], es[0])
    ensures es[0].balance.value == last && PreBalance(last, es[0].deltaBalance.value) >= 0
    ensures Walk(q, NextBalance(es[0]), rows[..|rows| - 1]) == Success(es[1..])
  {
    var (entry, next) := Step(q, last, rows[|rows| - 1]).value;
    StepOk(q, last, rows[|rows| - 1], entry, next);
  }

  /** The balances of consecutive entries: the older one carries what the newer one's turn left. */
  ghost predicate Chained(newer: FtHistoryInfo, older: FtHistoryInfo) {
    older.balance.value == NextBalance(newer)
  }

  /** The loop yields one entry per row. */
  lemma {:induction false} WalkLength(q: Request, last: u128, rows: seq<FtEventRow>, es: seq<FtHistoryInfo>)
    requires Walk(q, last, rows) == Success(es)
    ensures |es| == |rows|
    decreases |rows|
  {
    if rows == [] {
      assert es == [];
    } else {
      WalkUnfold(q, last, rows, es);
      WalkLength(q, NextBalance(es[0]), rows[..|rows| - 1], es[1..]);
    }
  }

  /** A successful loop over non-empty rows continues, from the balance its first turn left, over the older rows. */
  lemma WalkRest(q: Request, last: u128, rows: seq<FtEventRow>, es: seq<FtHistoryInfo>)
    requires rows != [] && Walk(q, last, rows) == Success(es)
    ensures |es| == |rows|
    ensures Walk(q, NextBalance(es[0]), rows[..|rows| - 1]) == Success(es[1..])
  {
    WalkUnfold(q, last, rows, es);
    WalkLength(q, last, rows, es);
  }

  /**
   * Entries paired with rows, newest entry with last row: each entry is what
   * its row yields, from a non-negative pre-event balance.
   */
  ghost predicate Trace(q: Request, rows: seq<FtEventRow>, es: seq<FtHistoryInfo>)
    decreases |rows|
  {
    && |es| == |rows|
    && (rows != [] ==>
          && Produced(q, rows[|rows| - 1], es[0])
          && PreBalance(es[0].balance.value, es[0].deltaBalance.value) >= 0
          && Trace(q, rows[..|rows| - 1], es[1..]))
  }

  /** A successful loop pairs its entries with the rows. */
  lemma {:induction false} WalkTrace(q: Request, last: u128, rows: seq<FtEventRow>, es: seq<FtHistoryInfo>)
    requires Walk(q, last, rows) == Success(es)
    ensures Trace(q, rows, es)
    decreases |rows|
  {
    if rows == [] {
      assert es == [];
    } else {
      WalkUnfold(q, last, rows, es);
      WalkRest(q, last, rows, es);
      WalkTrace(q, NextBalance(es[0]), rows[..|rows| - 1], es[1..]);
    }
  }

  lemma {:induction false} TraceAt(q: Request, rows: seq<FtEventRow>, es: seq<FtHistoryInfo>, k: nat)
    requires Trace(q, rows, es) && k < |rows|
    ensures Produced(q, rows[|rows| - 1 - k], es[k])
    ensures PreBalance(es[k].balance.value, es[k].deltaBalance.value) >= 0
    decreases k
  {
    if k > 0 {
      var init := rows[..|rows| - 1];
      var rest := es[1..];
      assert es[k] == rest[k - 1];
      assert rows[|rows| - 1 - k] == init[|init| - 1 - (k - 1)];
      TraceAt(q, init, rest, k - 1);
    }
  }

  /** Entry k of the loop's result is what the turn for row |rows|-1-k produced. */
  lemma WalkAt(q: Request, last: u128, rows: seq<FtEventRow>, es: seq<FtHistoryInfo>, k: nat)
    requires Walk(q, last, rows) == Success(es) && k < |rows| == |es|
    ensures Produced(q, rows[|rows| - 1 - k], es[k])
    ensures PreBalance(es[k].balance.value, es[k].deltaBalance.value) >= 0
  {
    WalkTrace(q, last, rows, es);
    TraceAt(q, rows, es, k);
  }

  /** Entry k+1 of the loop's result carries the balance that entry k's turn left. */
  lemma {:induction false} ChainAt(q: Request, last: u128, rows: seq<FtEventRow>, es: seq<FtHistoryInfo>, k: nat)
    requires Walk(q, last, rows) == Success(es) && k < |es| - 1
    ensures Chained(es[k], es[k + 1])
    decreases k
  {
    WalkRest(q, last, rows, es);
    var init := rows[..|rows| - 1];
    var rest := es[1..];
    if k > 0 {
      assert es[k] == rest[k - 1] && es[k + 1] == rest[k];
      ChainAt(q, NextBalance(es[0]), init, rest, k - 1);
    } else {
      WalkUnfold(q, last, rows, es);
      WalkUnfold(q, NextBalance(es[0]), init, rest);
      assert es[1] == rest[0];
    }
  }

  /** The loop's result: one entry per row, entry k made from row |rows|-1-k, the first carrying `last`. */
  lemma WalkOk(q: Request, last: u128, rows: seq<FtEventRow>, es: seq<FtHistoryInfo>)
    requires Walk(q, last, rows) == Success(es)
    ensures |es| == |rows|
    ensures |es| > 0 ==> es[0].balance.value == last
    ensures forall k :: 0 <= k < |es| ==> Produced(q, rows[|rows| - 1 - k], es[k])
    ensures forall k :: 0 <= k < |es| ==> PreBalance(es[k].balance.value, es[k].deltaBalance.value) >= 0
    ensures forall k :: 0 <= k < |es| - 1 ==> Chained(es[k], es[k + 1])
  {
    WalkLength(q, last, rows, es);
    if rows != [] {
      WalkUnfold(q, last, rows, es);
    }
    forall k | 0 <= k < |es|
      ensures Produced(q, rows[|rows| - 1 - k], es[k])
      ensures PreBalance(es[k].balance.value, es[k].deltaBalance.value) >= 0
    {
      WalkAt(q, last, rows, es, k);
    }
    forall k | 0 <= k < |es| - 1
      ensures Chained(es[k], es[k + 1])
    {
      ChainAt(q, last, rows, es, k);
    }
  }

  /**
   * A successful history has one entry per row, newest first: entry k is
   * the one row |rows|-1-k yields for the account (which that row names),
   * with the delta's sign, the counterparty, the event kind and the block
   * fields as the row gives them; the newest entry's balance is the
   * authoritative current balance and each older entry's is what the newer
   * entry's turn left, never from a negative pre-event balance.
   */
  lemma HistoryEntries(q: Request, current: u128, rows: seq<FtEventRow>, es: seq<FtHistoryInfo>)
    requires History(q, current, rows) == Success(es)
    ensures Walk(q, current, rows) == Success(es)
    ensures |es| == |rows|
    ensures |es| > 0 ==> es[0].balance.value == current
    ensures forall k :: 0 <= k < |es| ==> Produced(q, rows[|rows| - 1 - k], es[k])
    ensures forall k :: 0 <= k < |es| ==> PreBalance(es[k].balance.value, es[k].deltaBalance.value) >= 0
    ensures forall k :: 0 <= k < |es| - 1 ==> Chained(es[k], es[k + 1])
  {
    WalkOk(q, current, rows, es);
  }

  /** A row that does not name the account on either side makes the whole history fail. */
  lemma HistoryRejectsForeignRow(q: Request, current: u128, rows: seq<FtEventRow>, j: nat)
    requires j < |rows| && q.account != rows[j].oldOwnerId && q.account != rows[j].newOwnerId
    ensures History(q, current, rows).Failure?
  {
    if History(q, current, rows).Success? {
      var es := History(q, current, rows).value;
      assert Walk(q, current, rows) == Success(es);
      WalkLength(q, current, rows, es);
      WalkAt(q, current, rows, es, |rows| - 1 - j);
    }
  }

  /**
   * How the balance of an older entry follows from the newer one: it is the
   * newer entry's pre-event balance reduced modulo 2^128, it is below 2^127,
   * and it is that pre-event balance exactly when the latter is below 2^128.
   */
  ghost predicate Follows(newer: FtHistoryInfo, older: FtHistoryInfo) {
    && older.balance.value == PreEvent(newer) % TWO_128
    && older.balance.value < TWO_127
    && (PreEvent(newer) < TWO_128 ==> older.balance.value == PreEvent(newer))
  }

  /**
   * The balance chain: no pre-event balance is negative; each older entry
   * follows from the newer one; and every pre-event balance but possibly the
   * newest entry's is below 2^128, so from the second entry on the chain is
   * exact.
   */
  lemma HistoryChain(q: Request, current: u128, rows: seq<FtEventRow>, es: seq<FtHistoryInfo>)
    requires History(q, current, rows) == Success(es)
    ensures forall k :: 0 <= k < |es| ==> PreEvent(es[k]) >= 0
    ensures forall k :: 0 <= k < |es| - 1 ==> Follows(es[k], es[k + 1])
    ensures forall k :: 1 <= k < |es| ==> PreEvent(es[k]) < TWO_128
  {
    assert Walk(q, current, rows) == Success(es);
    WalkLength(q, current, rows, es);
    forall k | 0 <= k < |es|
      ensures PreEvent(es[k]) >= 0
    {
      WalkAt(q, current, rows, es, k);
      NextBalanceValue(es[k]);
    }
    forall k | 0 <= k < |es| - 1
      ensures Follows(es[k], es[k + 1])
    {
      WalkAt(q, current, rows, es, k);
      ChainAt(q, current, rows, es, k);
      NextBalanceValue(es[k]);
    }
    forall k | 1 <= k < |es|
      ensures PreEvent(es[k]) < TWO_128
    {
      WalkAt(q, current, rows, es, k - 1);
      ChainAt(q, current, rows, es, k - 1);
      NextBalanceValue(es[k - 1]);
    }
  }

  /**
   * The reconciliation: an empty event list gives an empty history; a
   * failing loop gives its error; otherwise the history is the loop's
   * entries exactly when the oldest entry's balance equals its delta cast to
   * u128, and fails with the "money from nowhere" error when it does not.
   */
  lemma HistoryReconciliation(q: Request, current: u128, rows: seq<FtEventRow>)
    ensures rows == [] ==> History(q, current, rows) == Success([])
    ensures Walk(q, current, rows).Failure? ==> History(q, current, rows) == Walk(q, current, rows)
    ensures Walk(q, current, rows).Success? && Walk(q, current, rows).value != [] ==>
      var es := Walk(q, current, rows).value;
      var oldest := es[|es| - 1];
      && (History(q, current, rows).Success? <==> (oldest.balance.value == AsU128(oldest.deltaBalance.value)))
      && (History(q, current, rows).Success? ==> History(q, current, rows).value == es)
      && (History(q, current, rows).Failure? ==> History(q, current, rows).error == NowhereError(q))
  {
  }

  /**
   * What the reconciliation accepts: the oldest entry's balance is its delta
   * cast to u128. When there are two entries or more, the oldest is incoming
   * and the balance before it is zero; an outgoing oldest entry passes only
   * when it is the single entry and the current balance is 2^128 plus its
   * delta, hence at least 2^127.
   */
  lemma HistoryOldestEntry(q: Request, current: u128, rows: seq<FtEventRow>, es: seq<FtHistoryInfo>)
    requires History(q, current, rows) == Success(es)
    ensures |es| >= 1 ==> es[0].balance.value == current
    ensures |es| >= 1 ==> es[|es| - 1].balance.value == AsU128(es[|es| - 1].deltaBalance.value)
    ensures |es| >= 1 && es[|es| - 1].deltaBalance.value >= 0 ==> PreEvent(es[|es| - 1]) == 0
    ensures |es| >= 2 ==> es[|es| - 1].deltaBalance.value >= 0
    ensures |es| >= 1 && es[|es| - 1].deltaBalance.value < 0 ==>
              |es| == 1 && current == TWO_128 + es[0].deltaBalance.value && current >= TWO_127
  {
    assert Walk(q, current, rows) == Success(es);
    if |es| >= 1 {
      WalkLength(q, current, rows, es);
      WalkUnfold(q, current, rows, es);
    }
    if |es| >= 2 {
      HistoryChain(q, current, rows, es);
      assert Follows(es[|es| - 2], es[|es| - 1]);
    }
  }

  /** The sum of the deltas of some entries: their replay from a zero balance. */
  function Replay(es: seq<FtHistoryInfo>): int {
    if es == [] then 0 else es[0].deltaBalance.value + Replay(es[1..])
  }

  /** Replaying the entries from k on reproduces entry k's balance, when the chain from k on is exact. */
  lemma {:induction false} ReplaySuffix(es: seq<FtHistoryInfo>, k: nat)
    requires k < |es|
    requires forall j :: k <= j < |es| - 1 ==> Follows(es[j], es[j + 1])
    requires forall j :: k <= j < |es| ==> PreEvent(es[j]) < TWO_128
    requires PreEvent(es[|es| - 1]) == 0
    ensures es[k].balance.value == Replay(es[k..])
    decreases |es| - k
  {
    assert es[k..][1..] == es[k + 1..];
    if k < |es| - 1 {
      ReplaySuffix(es, k + 1);
      assert Follows(es[k], es[k + 1]);
    }
  }

  /** Every entry but the newest of a chain whose oldest starts from zero is its replay. */
  lemma ChainReplayTail(es: seq<FtHistoryInfo>)
    requires |es| >= 2
    requires forall k :: 0 <= k < |es| - 1 ==> Follows(es[k], es[k + 1])
    requires forall k :: 1 <= k < |es| ==> PreEvent(es[k]) < TWO_128
    requires PreEvent(es[|es| - 1]) == 0
    ensures forall k {:trigger Replay(es[k..])} :: 1 <= k < |es| ==> es[k].balance.value == Replay(es[k..])
  {
    forall k | 1 <= k < |es|
      ensures es[k].balance.value == Replay(es[k..])
    {
      ReplaySuffix(es, k);
    }
  }

  /**
   * The replay of a chain of entries whose oldest starts from zero: every
   * entry but the newest is reproduced exactly, and the newest modulo 2^128
   * (exactly when it is below 2^127).
   */
  lemma ChainReplay(es: seq<FtHistoryInfo>)
    requires |es| >= 2
    requires forall k :: 0 <= k < |es| - 1 ==> Follows(es[k], es[k + 1])
    requires forall k :: 1 <= k < |es| ==> PreEvent(es[k]) < TWO_128
    requires PreEvent(es[|es| - 1]) == 0
    ensures forall k {:trigger Replay(es[k..])} :: 1 <= k < |es| ==> es[k].balance.value == Replay(es[k..])
    ensures (es[0].balance.value - Replay(es)) % TWO_128 == 0
    ensures es[0].balance.value < TWO_127 ==> es[0].balance.value == Replay(es)
  {
    ChainReplayTail(es);
    assert Follows(es[0], es[1]);
    ReplayHead(es);
    ModRemainder(PreEvent(es[0]));
  }

  /** The replay of some entries is the newest delta plus the replay of the older ones. */
  lemma ReplayHead(es: seq<FtHistoryInfo>)
    requires es != []
    ensures Replay(es) == es[0].deltaBalance.value + Replay(es[1..])
  {
  }

  /**
   * Replay consistency: starting from zero before the oldest event and
   * applying the deltas oldest first reproduces every older entry's balance
   * exactly, and the current balance modulo 2^128 (exactly when it is below
   * 2^127).
   */
  lemma HistoryReplay(q: Request, current: u128, rows: seq<FtEventRow>, es: seq<FtHistoryInfo>)
    requires History(q, current, rows) == Success(es)
    ensures forall k {:trigger Replay(es[k..])} :: 1 <= k < |es| ==> es[k].balance.value == Replay(es[k..])
    ensures |es| > 0 ==> (current - Replay(es)) % TWO_128 == 0
    ensures |es| > 0 && current < TWO_127 ==> current == Replay(es)
  {
    HistoryOldestEntry(q, current, rows, es);
    if |es| >= 2 {
      HistoryChain(q, current, rows, es);
      ChainReplay(es);
    } else if |es| == 1 {
      assert Replay(es) == es[0].deltaBalance.value + Replay([]);
      if es[0].deltaBalance.value < 0 {
        ModUnique(TWO_128, 1, 0);
      }
    }
  }

  // ---------------------------------------------------------------------------
  // Worked examples

  /** A transfer of 40 from alice to bob, as the event query returns it. */
  function Transfer40(amount: string, timestamp: string, height: string): FtEventRow {
    FtEventRow(height, timestamp, amount, "TRANSFER", "alice", "bob")
  }

  /**
   * For the receiver with a current balance of 40, the transfer yields one
   * incoming entry of +40 with balance 40 whose counterparty is the sender;
   * the balance before it is zero, so the reconciliation passes.
   */
  lemma ReceiverOfTransfer(q: Request, amount: string, timestamp: string, height: string)
    requires q.account == "bob" && q.ids.valid("alice")
    requires q.utils.stringToI128(amount) == Success(40)
    requires q.utils.toU64(timestamp).Success? && q.utils.toU64(height).Success?
    ensures var h := History(q, 40, [Transfer40(amount, timestamp, height)]);
            && h.Success? && |h.value| == 1
            && h.value[0].deltaBalance.value == 40 && h.value[0].balance.value == 40
            && h.value[0].affectedAccountId == Some("alice") && PreEvent(h.value[0]) == 0
  {
    var row := Transfer40(amount, timestamp, height);
    assert "bob" != "alice";
    assert PreBalance(40, 40) == 0;
    assert Walk(q, 0, []) == Success([]);
  }

  /**
   * For the sender with a current balance of 100, the loop yields one
   * outgoing entry of -40 with balance 100 (140 before it), and the
   * reconciliation rejects it: money from nowhere.
   */
  lemma SenderOfTransfer(q: Request, amount: string, timestamp: string, height: string)
    requires q.account == "alice" && q.ids.valid("bob")
    requires q.utils.stringToI128(amount) == Success(40)
    requires q.utils.toU64(timestamp).Success? && q.utils.toU64(height).Success?
    ensures var w := Walk(q, 100, [Transfer40(amount, timestamp, height)]);
            && w.Success? && |w.value| == 1
            && w.value[0].deltaBalance.value == -40 && w.value[0].balance.value == 100
            && PreEvent(w.value[0]) == 140
    ensures History(q, 100, [Transfer40(amount, timestamp, height)]) == Failure(NowhereError(q))
  {
    assert PreBalance(100, -40) == 140;
    assert Walk(q, 140, []) == Success([]);
  }

  /**
   * A mint of 10 to alice, then her transfer of 30 to bob, with a current
   * balance of 5: the newest entry has balance 5, the older one 35, and
   * the balance before the mint would be 25, so the reconciliation rejects
   * the history: an earlier event is missing.
   */
  lemma MissingEarlierEvent(q: Request, ten: string, thirty: string, timestamp: string, height: string)
    requires q.account == "alice" && q.ids.valid("bob")
    requires q.utils.stringToI128(ten) == Success(10) && q.utils.stringToI128(thirty) == Success(30)
    requires q.utils.toU64(timestamp).Success? && q.utils.toU64(height).Success?
    ensures var rows := [FtEventRow(height, timestamp, ten, "MINT", "", "alice"),
                         FtEventRow(height, timestamp, thirty, "TRANSFER", "alice", "bob")];
            && Walk(q, 5, rows).Success?
            && |Walk(q, 5, rows).value| == 2
            && Walk(q, 5, rows).value[0].balance.value == 5
            && Walk(q, 5, rows).value[1].balance.value == 35
            && PreEvent(Walk(q, 5, rows).value[1]) == 25
            && History(q, 5, rows) == Failure(NowhereError(q))
  {
    var mint := FtEventRow(height, timestamp, ten, "MINT", "", "alice");
    var send := FtEventRow(height, timestamp, thirty, "TRANSFER", "alice", "bob");
    var rows := [mint, send];
    assert "alice" != "";
    assert PreBalance(5, -30) == 35;
    assert PreBalance(35, 10) == 25;
    assert rows[..1] == [mint] && [mint][..0] == [];
    assert Walk(q, 25, []) == Success([]);
  }
}
