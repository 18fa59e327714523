/**
 * The string-encoded integer wrappers `U128`, `U64` and `I128` (JSON carries
 * them as decimal strings), token metadata, and the block a request is pinned to.
 */
module Types {
  import opened Wrappers
  import opened Integers
  import opened Errors
  import opened Collaborators
  import Decimal

  datatype U128 = U128(value: u128)
  datatype U64 = U64(value: u64)
  datatype I128 = I128(value: i128)

  /** The error serde reports when deserialising fails, with the parser's text. */
  datatype DeError = DeError(message: string)

  // From<u128> for U128 and From<U128> for u128; likewise for u64 and i128.

  function U128From(v: u128): (w: U128)
    ensures U128Into(w) == v
  {
    U128(v)
  }

  function U128Into(w: U128): u128 {
    w.value
  }

  function U64From(v: u64): (w: U64)
    ensures U64Into(w) == v
  {
    U64(v)
  }

  function U64Into(w: U64): u64 {
    w.value
  }

  function I128From(v: i128): (w: I128)
    ensures I128Into(w) == v
  {
    I128(v)
  }

  function I128Into(w: I128): i128 {
    w.value
  }

  /** The two conversions are mutual inverses. */
  lemma IntoFrom(a: U128, b: U64, c: I128)
    ensures U128From(U128Into(a)) == a && U64From(U64Into(b)) == b && I128From(I128Into(c)) == c
  {
  }

  datatype Ordering = Less | Equal | Greater

  /** The order of two integers. */
  function Compare(a: int, b: int): Ordering {
    if a < b then Less else if a == b then Equal else Greater
  }

  // The derived `Ord` of a one-field tuple struct compares the field.

  function CmpU128(a: U128, b: U128): Ordering {
    Compare(a.value, b.value)
  }

  function CmpU64(a: U64, b: U64): Ordering {
    Compare(a.value, b.value)
  }

  function CmpI128(a: I128, b: I128): Ordering {
    Compare(a.value, b.value)
  }

  /**
   * The derived order on `U128` is a total order that agrees with the
   * derived equality: equal exactly for equal wrappers, reversing the
   * arguments reverses the answer, and it is transitive.
   */
  lemma U128Order(a: U128, b: U128, c: U128)
    ensures CmpU128(a, b) == Equal <==> a == b
    ensures CmpU128(a, b) == Less <==> CmpU128(b, a) == Greater
    ensures CmpU128(a, b) == Less && CmpU128(b, c) == Less ==> CmpU128(a, c) == Less
    ensures CmpU128(a, b) != Greater && CmpU128(b, c) != Greater ==> CmpU128(a, c) != Greater
  {
  }

  /** The same laws for `U64`. */
  lemma U64Order(a: U64, b: U64, c: U64)
    ensures CmpU64(a, b) == Equal <==> a == b
    ensures CmpU64(a, b) == Less <==> CmpU64(b, a) == Greater
    ensures CmpU64(a, b) == Less && CmpU64(b, c) == Less ==> CmpU64(a, c) == Less
    ensures CmpU64(a, b) != Greater && CmpU64(b, c) != Greater ==> CmpU64(a, c) != Greater
  {
  }

  /** The same laws for `I128`. */
  lemma I128Order(a: I128, b: I128, c: I128)
    ensures CmpI128(a, b) == Equal <==> a == b
    ensures CmpI128(a, b) == Less <==> CmpI128(b, a) == Greater
    ensures CmpI128(a, b) == Less && CmpI128(b, c) == Less ==> CmpI128(a, c) == Less
    ensures CmpI128(a, b) != Greater && CmpI128(b, c) != Greater ==> CmpI128(a, c) != Greater
  {
  }

  /** `serialize`: the decimal text of the inner value. */
  function SerializeU128(x: U128): (s: string)
    ensures s == Decimal.NatToString(x.value)
  {
    Decimal.IntToString(x.value)
  }

  function SerializeU64(x: U64): (s: string)
    ensures s == Decimal.NatToString(x.value)
  {
    Decimal.IntToString(x.value)
  }

  function SerializeI128(x: I128): (s: string)
    ensures x.value >= 0 ==> s == Decimal.NatToString(x.value)
    ensures x.value < 0 ==> s == "-" + Decimal.NatToString(0 - x.value as int)
  {
    Decimal.IntToString(x.value)
  }

  function ParseFailure(k: Decimal.IntErrorKind): DeError {
    DeError(Decimal.IntErrorMessage(k))
  }

  /** `deserialize`: `str::parse::<u128>`, its error text wrapped as a serde error. */
  function DeserializeU128(s: string): (r: Result<U128, DeError>)
    ensures r.Success? ==> Decimal.Denotes(s, false, r.value.value)
  {
    match Decimal.ParseInt(s, false, 0, TWO_128 - 1)
    case Success(v) => Success(U128(v))
    case Failure(k) => Failure(ParseFailure(k))
  }

  function DeserializeU64(s: string): (r: Result<U64, DeError>)
    ensures r.Success? ==> Decimal.Denotes(s, false, r.value.value)
  {
    match Decimal.ParseInt(s, false, 0, TWO_64 - 1)
    case Success(v) => Success(U64(v))
    case Failure(k) => Failure(ParseFailure(k))
  }

  function DeserializeI128(s: string): (r: Result<I128, DeError>)
    ensures r.Success? ==> Decimal.Denotes(s, true, r.value.value)
  {
    match Decimal.ParseInt(s, true, -TWO_127, TWO_127 - 1)
    case Success(v) => Success(I128(v))
    case Failure(k) => Failure(ParseFailure(k))
  }

  /** Deserialising what was serialised gives the value back. */
  lemma RoundTrip(a: U128, b: U64, c: I128)
    ensures DeserializeU128(SerializeU128(a)) == Success(a)
    ensures DeserializeU64(SerializeU64(b)) == Success(b)
    ensures DeserializeI128(SerializeI128(c)) == Success(c)
  {
    Decimal.ParseIntToString(a.value, false, 0, TWO_128 - 1);
    Decimal.ParseIntToString(b.value, false, 0, TWO_64 - 1);
    Decimal.ParseIntToString(c.value, true, -TWO_127, TWO_127 - 1);
  }

  /**
   * A string is accepted exactly when it is an integer literal (optional
   * sign, then at least one digit; no `-` for the unsigned types) whose
   * value fits the target type.
   */
  lemma DeserializeAccepts(s: string, v: int)
    ensures DeserializeU128(s).Success? && DeserializeU128(s).value.value == v
        <==> Decimal.Denotes(s, false, v) && 0 <= v < TWO_128
    ensures DeserializeU64(s).Success? && DeserializeU64(s).value.value == v
        <==> Decimal.Denotes(s, false, v) && 0 <= v < TWO_64
    ensures DeserializeI128(s).Success? && DeserializeI128(s).value.value == v
        <==> Decimal.Denotes(s, true, v) && -TWO_127 <= v < TWO_127
  {
    Decimal.ParseIntAccepts(s, false, 0, TWO_128 - 1, v);
    Decimal.ParseIntAccepts(s, false, 0, TWO_64 - 1, v);
    Decimal.ParseIntAccepts(s, true, -TWO_127, TWO_127 - 1, v);
  }

  /** `FungibleTokenMetadata` as a contract reports it (NEP-148). */
  datatype FtMetadata = FtMetadata(
    spec: string,
    name: string,
    symbol: string,
    icon: Option<string>,
    reference: Option<string>,
    referenceHash: Option<seq<u8>>,
    decimals: u8)

  /** A block row as the database returns it: numeric columns as text. */
  datatype DbBlock = DbBlock(blockTimestamp: string, blockHeight: string)

  datatype Block = Block(timestamp: u64, height: u64)

  /** `Block::try_from`: both columns converted by `to_u64`, the timestamp first. */
  function BlockTryFrom(u: Utils, b: DbBlock): (r: Result<Block, Error>)
    ensures r.Success? <==> u.toU64(b.blockTimestamp).Success? && u.toU64(b.blockHeight).Success?
    ensures r.Success? ==>
              r.value.timestamp == u.toU64(b.blockTimestamp).value && r.value.height == u.toU64(b.blockHeight).value
    ensures u.toU64(b.blockTimestamp).Failure? ==> r == Failure(u.toU64(b.blockTimestamp).error)
    ensures u.toU64(b.blockTimestamp).Success? && u.toU64(b.blockHeight).Failure?
        ==> r == Failure(u.toU64(b.blockHeight).error)
  {
    match u.toU64(b.blockTimestamp)
    case Failure(e) => Failure(e)
    case Success(timestamp) =>
      match u.toU64(b.blockHeight)
      case Failure(e) => Failure(e)
      case Success(height) => Success(Block(timestamp, height))
  }
}
