# Blockchain ledger with proof of work, in Dafny

This project models the `Blockchain` class of `blockchain.py`. The class is an in-memory ledger
that only grows. It holds two fields:

- `chain`: the list of sealed blocks;
- `current_trxs`: the buffer of pending transactions.

It also has a proof-of-work puzzle with a brute-force search.

The model has four modules:

- `Blocks` (blocks.dfy): the values the ledger stores. These are `Transaction`, `Block` and the
  `previous_hash` value `PrevHash`: the fingerprint of the previous block, or whatever truthy
  integer or string the caller passed (the integer `1` in the genesis block). `Truthy` and
  `Given` model the Python truthiness behind `previous_hash or ...`.
- `Puzzle` (puzzle.dfy): the pure part. It covers the block fingerprint `Hash`, Python's `str(int)`
  as `IntDecimal` (with `ParseInt` as its inverse), `valid_proof` as `ValidProof`, and `pow` as
  the method `Pow`, a `while` loop proved to return the least valid proof.
- `LedgerSpec` (ledger_spec.dfy): the ledger as a value. It holds the `State` of the two fields
  and the transitions `Sealed` (new_block) and `Submitted` (new_trx). `Run` performs any sequence
  of calls, and the lemmas prove what every such run keeps true: the chain only grows, block i
  has index i + 1, the link invariant holds, and no transaction is lost or reordered.
- `Ledger` (ledger.dfy): the imperative class `Blockchain`. Its fields `chain` and `currentTrxs`
  are updated in place by the constructor, `NewBlock` and `NewTrx`. Each method's `ensures`
  ties the new fields to the `LedgerSpec` transition of the old ones. `SealTwoTransfers` is a
  client that shows the contracts compose: it submits two transactions, searches a proof from
  the genesis proof and seals a block.

SHA-256 and `json.dumps(..., sort_keys=True)` are library calls. They are modelled as the two
function-valued fields of `Crypto`, chosen when the ledger is built. `IsSha256` states the one
fact about SHA-256 the model uses: `hexdigest()` always returns 64 lower-case hex characters.
A block is a record, so equal field values give the same JSON text and the same fingerprint
whatever order the keys were inserted in. The sorted keys give this in the source.

## Model

| member | source | states |
|---|---|---|
| Puzzle.Hash | blockchain.py:60-70 | The fingerprint of a block is the SHA-256 hex digest of its key-sorted JSON. When the hash is SHA-256 shaped, it is 64 hex characters and so never empty. |
| Puzzle.NatDecimal | blockchain.py:80 | The f-string text of a non-negative proof is a non-empty run of decimal digits with no leading zero ("0" only for zero). |
| Puzzle.NatDecimalRoundTrip | blockchain.py:80 | Reading the decimal digits of n back gives n. |
| Puzzle.IntDecimalRoundTrip | blockchain.py:80 | The decimal text of any integer, negative ones with a '-' sign, is read back by `int()` as n (Python's cap on the digits it converts is not modelled; see Left out). |
| Puzzle.IntDecimalInjective | blockchain.py:80 | Distinct integers have distinct decimal texts. |
| Puzzle.Prefix | blockchain.py:82 | The slice `g_hash[:4]` is the prefix of the digest of length 4, or the whole digest when it is shorter. |
| Puzzle.ValidProof | blockchain.py:72-82 | `valid_proof` holds exactly when the digest of the concatenated decimal texts of `last_proof` and `proof` starts with 4 '0' characters. |
| Puzzle.ConcatenationCollision | blockchain.py:80-82 | The puzzle sees only the concatenated text: last proof 1 with proof 23 is valid exactly when last proof 12 with proof 3 is, for every hash function. |
| Puzzle.Pow | blockchain.py:84-96 | `pow` returns a proof that `valid_proof` accepts, and no smaller non-negative proof is accepted, provided some valid proof exists. |
| LedgerSpec.Sealed | blockchain.py:18-36 | new_block appends exactly one block and leaves earlier blocks unchanged. The new block has index old length + 1, the given timestamp and proof, and the old pending transactions in order. Pending is empty afterwards. With a truthy previous_hash the block stores that value; without one, it stores the hash of the old last block. Sealing keeps the indexing invariant, and keeps the link invariant when previous_hash is omitted. |
| LedgerSpec.Submitted | blockchain.py:47-51 | new_trx leaves the chain unchanged and appends exactly one `{sender, recipient, amount}` record at the end of the pending list. |
| LedgerSpec.NextIndex | blockchain.py:53 | new_trx returns `last_block['index'] + 1`, which is the chain length + 1 on a well-indexed chain. |
| LedgerSpec.Genesis | blockchain.py:12-16 | After construction the chain is one block (index 1, no transactions, proof 100, previous_hash 1), pending is empty, and both invariants hold. |
| LedgerSpec.NextIndexIsNextBlock | blockchain.py:44-53 | The index new_trx announces is the index the next new_block gives, if no seal comes in between. |
| LedgerSpec.ExplicitLinkIsDefault | blockchain.py:30 | Passing `hash(last_block)` explicitly as previous_hash seals the same block as leaving it out, because a hex digest is truthy. |
| LedgerSpec.RunAppendOnly | blockchain.py:25-35 | Over any run of calls the old chain stays a prefix of the new one. The chain grows by exactly the number of new_block calls. |
| LedgerSpec.RunKeepsIndexing | blockchain.py:26 | Over any run of calls, block i keeps index i + 1. |
| LedgerSpec.RunKeepsLinks | blockchain.py:30 | Over any run with no truthy previous_hash override, every non-genesis block stores the hash of its predecessor. |
| LedgerSpec.SealedCommits | blockchain.py:28-35 | Sealing moves the pending transactions into the chain: sealed followed by pending transactions are the same sequence before and after. |
| LedgerSpec.RunConservesTransactions | blockchain.py:28-53 | Over any run, the transactions held (sealed then pending) are those held before, followed by every submitted transaction in submission order. |
| LedgerSpec.History | blockchain.py:12-53 | From construction, a run gives a chain of one block plus one per new_block call. The genesis block stays in front and block i has index i + 1. All submitted transactions are held in order. The link invariant holds when no call overrides previous_hash. |
| Ledger.Blockchain.constructor | blockchain.py:12-16 | The constructor seals the genesis block through new_block with proof 100 and previous_hash 1, leaving pending empty. |
| Ledger.Blockchain.NewBlock | blockchain.py:18-36 | The fields become the `Sealed` transition of the old ones. The method returns the appended block, which is then `last_block`. |
| Ledger.Blockchain.NewTrx | blockchain.py:38-53 | The fields become the `Submitted` transition of the old ones. The chain is unchanged and the method returns the chain length + 1. |
| Ledger.Blockchain.LastBlock | blockchain.py:55-58 | `last_block` is the final element of the chain and its index equals the chain length. |
| Ledger.SealTwoTransfers | blockchain.py:12-96 | A run of construct, two new_trx, pow from the genesis proof, new_block without previous_hash. The result has two blocks: the genesis block (index 1, proof 100, previous_hash 1), then block 2 with the second timestamp, both transfers in order, the genesis block's hash, and the least proof valid against the genesis proof 100. Pending is left empty. |

## Left out

- `time()`: the wall-clock timestamp is a `real` parameter of `NewBlock` and the constructor. No ordering between timestamps is assumed.
- SHA-256 and `json.dumps(sort_keys=True)`: foreign library code, kept as uninterpreted function fields of `Crypto`. Hex encoding and JSON canonicalisation are not modelled bit for bit. The model assumes `.encode()` maps each character to one byte, which holds for digit strings and for `json.dumps` output with its default ASCII escaping.
- Puzzle.Pow: its termination is not modelled. The search is unbounded in the source and ends only if some valid proof exists, so the method requires that one exists.
- Puzzle.Pow: modelled outside the class. In the source it is an instance method but reads no field of the object.
- The `previous_hash` argument: modelled as `Option<PrevHash>`, an absent value (`None`), an `int` or a `str`. Python values of other types are not modelled. Truthiness is exact for these types: `0` and `""` count as absent, as `or` treats them.
- Puzzle.IntDecimal: Python 3.11 and later refuse to convert an integer of more than 4300 digits to text and raise `ValueError`, so `valid_proof` raises on such proofs. The model renders every integer and does not capture that exception.
- `amount`: taken as an integer, as its doc comment says. The source does not check its type.
- Aliasing: the source returns the very dictionary that it stores in the chain, so a caller could mutate chain history through it. Blocks here are immutable values, so the model does not capture this. The pending list is rebound, not cleared, so a sealed block keeps its own transaction list; value sequences capture this directly.
- Ledger.Blockchain.NewBlock: a call with no truthy previous_hash on an empty chain raises `IndexError` in the source. This path is excluded by the requires. The only call on an empty chain is the constructor's, which passes `1`.
