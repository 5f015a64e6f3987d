/** The values the ledger stores: transactions, blocks and the 'previous_hash' link. */
module Blocks {

  datatype Option<T> = None | Some(value: T)

  /** One pending or sealed transaction record: {sender, recipient, amount}. */
  datatype Transaction = Transaction(sender: string, recipient: string, amount: int)

  /** The value stored under 'previous_hash': the fingerprint of the previous block, or whatever
      truthy int or string the caller passed (the genesis block stores the integer 1). */
  datatype PrevHash = Number(n: int) | Text(s: string)

  /** A block: the five keys of the dictionary built by new_block. The wall-clock timestamp is an
      opaque value supplied by the caller. */
  datatype Block = Block(
    index: int,
    timestamp: real,
    transaction: seq<Transaction>,
    proof: int,
    previousHash: PrevHash)

  /** Python truthiness of an int or a str: 0 and "" are falsy, everything else is truthy. */
  predicate Truthy(v: PrevHash)
  {
    match v
    case Number(n) => n != 0
    case Text(s) => s != ""
  }

  /** Whether `previous_hash or ...` takes the argument: it is present (not None) and truthy. */
  predicate Given(arg: Option<PrevHash>)
  {
    arg.Some? && Truthy(arg.value)
  }
}
