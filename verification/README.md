# near_enhanced_api balance core, in Dafny

A model of the balance logic of the NEAR Enhanced API service: the
endpoints that report an account's native NEAR balance and its fungible
token (NEP-141) balances, that rebuild an account's balance history for
one token contract from the token events, and that decide whether an
account exists; the service's error taxonomy; and the string-encoded
integer wrappers (`U128`, `U64`, `I128`) and the `Block` conversion that
those endpoints share.

The modules follow the repository's files:

| module | file | models |
|---|---|---|
| `Integers` | `integers.dfy` | Rust's `u8`…`u128`/`i128` and the wrapping casts, negation, subtraction and addition (release build, no overflow checks) |
| `Decimal` | `decimal.dfy` | integer `to_string` and `str::parse` as the wrappers use them, with `ParseIntError`'s kinds and texts |
| `Errors` | `errors.dfy` | `src/errors.rs`: `ErrorKind`, `Error`, `from_error_kind`, the blanket `From`, `Display` |
| `Collaborators` | `collaborators.dfy` | the `utils` coercions and `AccountId::from_str`, passed in as functions |
| `Types` | `types.dfy` | `src/types.rs`: the `impl_str_type!` wrappers, `FungibleTokenMetadata`, `Block::try_from` |
| `FtHistory` | `ft_history.dfy` | `ft_history` in `src/api.rs` |
| `Api` | `api.dfy` | `native_balance`, `ft_balance`, `ft_balance_for_contract`, `account_exists` in `src/api.rs` |

Database queries and RPC calls are not modelled. Their answers enter as
parameters: a query's answer is a `Result` of its rows, so a failing query
propagates the way `?` does. The RPC calls are the `Rpc` collaborator, and
the balance call of `ft_history` is a `Result<u128, Error>` parameter.
`utils::to_u64`, `utils::to_u128`, `utils::string_to_i128` and
`AccountId::from_str` are function-valued parameters. Their bodies are not
part of this model, so nothing is assumed about them beyond their types.

Integer arithmetic is modelled as a release build computes it. The
source's `u128` addition, `as` casts between `u128` and `i128`, `-delta`
and `(last_balance as i128) - delta` all wrap modulo 2^128. The i128
operations and both casts are written out piecewise and proved equal to the
exact result reduced into the type's range; the u128 addition is the exact
sum reduced modulo 2^128.

`ft_history` is modelled in the form the source has. The loop body is the
method `FtHistory.Turn`, the reversed loop is `FtHistory.WalkRows`, and the
reconciliation is in `FtHistory.FtHistory`. Each is proved against a
specification function (`Step`, `Walk`, `History`), and the properties of
the history are lemmas about those functions. `ft_balance`'s loop is
likewise the method `Api.FtBalance`, proved against the function
`FtBalances`.

The code's reconciliation (`src/api.rs:191-199`) accepts a history only
when the balance before its oldest event is zero modulo 2^128. An outgoing
oldest event is accepted only when it is the single event and the current
balance is 2^128 plus its (negative) delta, because `last_balance as i128`
then reads that balance as the delta itself. So an account that only sent
40 tokens, holding 100, gets the "money from nowhere" error, not one entry
of -40. The model follows the code: see `FtHistory.SenderOfTransfer` and
`FtHistory.HistoryOldestEntry`.

## Model

| member | source | states |
|---|---|---|
| Integers.I128Wraps | src/api.rs:149-180 | `u as i128`, `-x` and `a - b` on i128 each equal the exact result wrapped into the i128 range modulo 2^128 |
| Integers.CastsInverse | src/api.rs:180 | `as i128` and `as u128` are mutually inverse on 128-bit values, and `i as u128` is `i` modulo 2^128 |
| Decimal.IntToString | src/types.rs:67 | `to_string` of an integer: the decimal text of its magnitude, after a `-` when negative; `ParseIntToString` reads it back |
| Decimal.ParseInt | src/types.rs:77 | `str::parse::<T>` succeeds only with an in-range value the text denotes; `ParseIntAccepts` (via `ScanResult`) proves the converse |
| Decimal.NatToString | src/types.rs:67 | the decimal text of a number is non-empty, all digits, without a leading zero, and denotes the number |
| Decimal.ParseIntAccepts | src/types.rs:77-79 | `parse` succeeds with `v` exactly when the text is an optional sign (a `-` only for signed types) then at least one digit, denoting `v`, and `v` is in the type's range |
| Decimal.ParseIntToString | src/types.rs:67-79 | parsing the decimal text of any in-range value gives that value back |
| Errors.FromErrorKind | src/errors.rs:39-65 | the code is 400 exactly for invalid input and 500 otherwise; only invalid input is not retriable; the message ends with the kind's message |
| Errors.FromErrorKindTable | src/errors.rs:41-63 | the full table of codes, message prefixes and retriable flags |
| Errors.FromErrorKindInverse | src/errors.rs:39-65 | the kind and its message can be recovered from the error (left inverse) |
| Errors.FromErrorKindInjective | src/errors.rs:39-65 | different kinds or messages never give the same error |
| Errors.IntoError | src/errors.rs:68-75 | converting any `T: Into<ErrorKind>` gives the error whose kind is `T`'s conversion |
| Errors.Display | src/errors.rs:31-36 | the text is `Error #`, the decimal code, ` (retriable)` when retriable, `: ` and the message; `DisplayInjective` shows the text determines the error |
| Errors.DisplayInjective | src/errors.rs:31-36 | two errors that display the same text have the same code, flag and message |
| Types.U128From | src/types.rs:47-57 | `u128::from(U128::from(v)) == v` |
| Types.U64From | src/types.rs:47-57 | `u64::from(U64::from(v)) == v` |
| Types.I128From | src/types.rs:47-57 | `i128::from(I128::from(v)) == v` |
| Types.IntoFrom | src/types.rs:47-57 | the two `From` conversions are mutual inverses for all three wrappers |
| Types.U128Order | src/types.rs:42-45 | the derived order on `U128` is equal exactly for equal wrappers, flips when the arguments are swapped, and is transitive (strict and non-strict) |
| Types.U64Order | src/types.rs:42-45 | the same order laws for `U64` |
| Types.I128Order | src/types.rs:42-45 | the same order laws for `I128` |
| Types.SerializeU128 | src/types.rs:59-69 | a `U128` serialises as the decimal text of its value |
| Types.SerializeU64 | src/types.rs:59-69 | a `U64` serialises as the decimal text of its value |
| Types.SerializeI128 | src/types.rs:59-69 | an `I128` serialises as its decimal text, with a leading `-` when negative |
| Types.DeserializeU128 | src/types.rs:71-81 | a string deserialises only when it is an integer literal for the value obtained |
| Types.DeserializeU64 | src/types.rs:71-81 | a string deserialises as a `U64` only when it is an unsigned integer literal for the value obtained |
| Types.DeserializeI128 | src/types.rs:71-81 | likewise for the signed wrapper |
| Types.RoundTrip | src/types.rs:59-81 | deserialising what was serialised gives back the same `U128`, `U64` or `I128` |
| Types.DeserializeAccepts | src/types.rs:71-81 | deserialisation succeeds with `v` exactly when the text denotes `v` and `v` fits the type |
| Types.BlockTryFrom | src/types.rs:101-110 | succeeds exactly when both columns convert; the timestamp's error comes first, then the height's; the block carries both values |
| FtHistory.Counterparty | src/api.rs:149-170 | the other side is none exactly when its id is empty; otherwise the id itself when valid, else the id's parse error |
| FtHistory.Turn | src/api.rs:147-189 | one turn of the loop computes what `Step` specifies: parse, sign, counterparty, negative-balance check, next balance, entry |
| FtHistory.WalkRows | src/api.rs:145-190 | the reversed loop computes what `Walk` specifies, stopping at the first failing turn |
| FtHistory.FtHistory | src/api.rs:104-201 | the balance call's error comes first, then the query's; otherwise the result is the specified history |
| FtHistory.PreBalanceValue | src/api.rs:172-180 | the negative-balance check passes exactly when `last - delta` modulo 2^128 is below 2^127, and the new balance is that value; a truly negative `last - delta` always fails |
| FtHistory.NextBalanceValue | src/api.rs:172-180 | after the check, the balance carried to the older row is the exact pre-event balance modulo 2^128, below 2^127 |
| FtHistory.HistoryEntries | src/api.rs:146-190 | a successful history has one entry per row, newest first; entry k names the account's side of row n-1-k, with the signed delta, the counterparty, the event kind and the block fields; the newest balance is the current one, and each older balance is what the newer turn left |
| FtHistory.HistoryRejectsForeignRow | src/api.rs:166-170 | a row naming the account on neither side makes the whole history fail |
| FtHistory.HistoryChain | src/api.rs:172-180 | no pre-event balance is negative; each older balance is the newer pre-event balance modulo 2^128, and exactly it from the second entry on |
| FtHistory.HistoryReconciliation | src/api.rs:191-200 | no rows gives an empty history; a failing loop gives its error; otherwise success exactly when the oldest balance equals its delta cast to u128, with the "money from nowhere" error otherwise |
| FtHistory.HistoryOldestEntry | src/api.rs:191-199 | an accepted history starts from zero before its oldest event; with two entries or more the oldest is incoming; an outgoing oldest entry is accepted only alone and only with a current balance of 2^128 plus its delta |
| FtHistory.HistoryReplay | src/api.rs:145-200 | replaying the deltas from zero, oldest first, gives every older entry's balance exactly, and the current balance modulo 2^128 (exactly when below 2^127) |
| FtHistory.ReceiverOfTransfer | src/api.rs:146-199 | the receiver of a 40-token transfer holding 40 gets one entry of +40 from the sender, starting from zero |
| FtHistory.SenderOfTransfer | src/api.rs:146-199 | the sender of that transfer holding 100 gets an entry of -40 from the loop, but the reconciliation rejects it as money from nowhere |
| FtHistory.MissingEarlierEvent | src/api.rs:146-199 | a mint of 10 then a send of 30 with a balance of 5 yields balances 5 and 35, a start of 25, and is rejected |
| Api.NativeBalance | src/api.rs:7-46 | the query's error passes through; no row is the DB error naming the account; only the latest row counts, non-staked amount converted before staked; one NEAR coin whose balance is the sum modulo 2^128 |
| Api.NativeBalanceLatestRow | src/api.rs:27-39 | rows after the latest never change the answer |
| Api.AccountExists | src/api.rs:203-228 | the query's error passes through; otherwise true exactly when there is an action and the latest is not `DELETE_ACCOUNT` |
| Api.AccountExistsLatest | src/api.rs:224-227 | no action means the account does not exist; otherwise only the latest action decides |
| Api.FtBalanceForContract | src/api.rs:76-102 | the balance call's error first, then the metadata call's; success exactly when both answer; the coin is NEP-141, names the contract and carries the balance, symbol, decimals and icon |
| Api.ValidContracts | src/api.rs:67-68 | the ids kept are exactly the listed ids that are account ids, no more of them than listed |
| Api.FtBalance | src/api.rs:48-74 | the query's error passes through; otherwise the loop computes what `FtBalances` specifies |
| Api.FtBalancesCoins | src/api.rs:66-73 | a successful result has one coin per valid contract id, in order, each what `ft_balance_for_contract` answers for it |
| Api.FtBalancesSucceeds | src/api.rs:66-73 | the result is a success exactly when every valid contract id's coin can be had |
| Api.FtBalancesFirstFailure | src/api.rs:67-71 | a failure is the error of the first valid contract id whose coin cannot be had, and every valid id before it answered |
| Api.FtBalancesDistinct | src/api.rs:54-71 | distinct contract ids from the query give coins naming distinct contracts |

## Left out

- The SQL text of every query, `select_retry_or_panic` with its retry count and panic, and the connection pool. A query's answer is a parameter.
- The JSON-RPC client and the contract calls behind `get_ft_balance` and `get_ft_metadata`. They are the `Rpc` collaborator.
- The `utils` functions `to_u64`, `to_u128` and `string_to_i128`, and the account-id syntax of `AccountId::from_str`. Their source is not part of this model, so they are parameters. A valid id is taken to keep its text through the `AccountId` conversions.
- async/await, actix, the paperclip schema (`TypedData`, `Apiv2Schema`, `api_v2_errors`), Borsh serialisation, and `ResponseError`'s HTTP response. These are framework plumbing with no logic of the core.
- The `AccountId` newtype and its `Debug`, and `Base64VecU8`'s base64 text. `reference_hash` is kept as raw bytes.
- `src/models.rs` is not part of this model.
- Types.DeserializeU128: serde inputs that are not JSON strings are left out (they fail before the parse). The serde error keeps only the parser's message.
- Api.NativeBalance: the `u128` sum wraps modulo 2^128 as in a release build. A debug build panics on overflow instead.
- FtHistory.Turn: the i128 negation and subtraction, and both casts, wrap as in a release build. A debug build panics on `-i128::MIN` and on an overflowing subtraction.
- Errors.Display: only the text is modelled, not the `Formatter` plumbing. Its contract is `DisplayInjective`.
