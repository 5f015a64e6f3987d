/** The Blockchain object: the chain and the pending transactions as fields that its methods
    update in place. */
module Ledger {
  import opened Blocks
  import opened Puzzle
  import opened LedgerSpec

  class Blockchain {
    /** SHA-256 and the key-sorted JSON dump used by the fingerprint. */
    const crypto: Crypto
    var chain: seq<Block>
    var currentTrxs: seq<Transaction>

    /** The object invariant: there is a last block, and block i carries index i + 1. */
    ghost predicate Valid()
      reads this
    {
      chain != [] && WellIndexed(chain)
    }

    /** The two fields as a ledger value. */
    ghost function Snapshot(): State
      reads this
    {
      State(chain, currentTrxs)
    }

    /** Start with empty fields and seal the genesis block with proof 100 and previous_hash 1. */
    constructor (crypto: Crypto, now: real)
      ensures this.crypto == crypto
      ensures Valid() && Snapshot() == Genesis(crypto, now)
      ensures chain == [Block(1, now, [], 100, Number(1))] && currentTrxs == []
    {
      this.crypto := crypto;
      chain := [];
      currentTrxs := [];
      new;
      var genesis := NewBlock(GenesisProof, Some(GenesisLink), now);
    }

    /** new_block: build the block from the pending transactions, link it to the last block unless
        a truthy previous_hash is given, reset the pending list and append the block. Reading the
        last block of an empty chain fails in the source; the requires excludes it, as the only
        call on an empty chain is the constructor's, which passes a truthy previous_hash. */
    method NewBlock(proof: int, previousHash: Option<PrevHash>, now: real) returns (block: Block)
      requires Given(previousHash) || chain != []
      modifies this
      ensures Snapshot() == Sealed(crypto, old(Snapshot()), proof, previousHash, now)
      ensures chain == old(chain) + [block] && currentTrxs == []
      ensures block.index == |old(chain)| + 1 && block.transaction == old(currentTrxs)
      ensures block.proof == proof && block.timestamp == now
      ensures Given(previousHash) ==> block.previousHash == previousHash.value
      ensures !Given(previousHash) ==> block.previousHash == Text(Hash(crypto, Last(old(chain))))
      ensures old(WellIndexed(chain)) ==> Valid() && LastBlock() == block
    {
      var link := if Given(previousHash) then previousHash.value else Text(Hash(crypto, chain[|chain| - 1]));
      block := Block(|chain| + 1, now, currentTrxs, proof, link);
      currentTrxs := [];
      chain := chain + [block];
    }

    /** new_trx: append the record to the pending list and return the index of the block after the
        current last one. */
    method NewTrx(sender: string, recipient: string, amount: int) returns (next: int)
      requires Valid()
      modifies this
      ensures Snapshot() == Submitted(old(Snapshot()), sender, recipient, amount)
      ensures chain == old(chain)
      ensures currentTrxs == old(currentTrxs) + [Transaction(sender, recipient, amount)]
      ensures next == |chain| + 1
      ensures Valid()
    {
      currentTrxs := currentTrxs + [Transaction(sender, recipient, amount)];
      next := LastBlock().index + 1;
    }

    /** last_block: the most recently appended block, whose index is the chain's length. */
    function LastBlock(): (b: Block)
      reads this
      requires Valid()
      ensures b == chain[|chain| - 1] && b.index == |chain|
    {
      Last(chain)
    }
  }

  /** The intended use of the object: two transactions, a proof found from the genesis proof,
      and a block sealed with that proof and no previous_hash. */
  method SealTwoTransfers(crypto: Crypto, t0: real, t1: real) returns (chain: seq<Block>, pending: seq<Transaction>)
    requires exists p: nat :: ValidProof(crypto.sha256, GenesisProof, p)
    ensures |chain| == 2 && pending == []
    ensures chain[0] == Block(1, t0, [], GenesisProof, GenesisLink)
    ensures chain[1].index == 2 && chain[1].timestamp == t1
    ensures chain[1].transaction == [Transaction("Alice", "Bob", 10), Transaction("Bob", "Carol", 5)]
    ensures chain[1].previousHash == Text(Hash(crypto, chain[0]))
    ensures ValidProof(crypto.sha256, GenesisProof, chain[1].proof)
    ensures forall q: nat :: q < chain[1].proof ==> !ValidProof(crypto.sha256, GenesisProof, q)
  {
    var ledger := new Blockchain(crypto, t0);
    var k1 := ledger.NewTrx("Alice", "Bob", 10);
    var k2 := ledger.NewTrx("Bob", "Carol", 5);
    var lastProof := ledger.LastBlock().proof;
    var proof := Pow(crypto.sha256, lastProof);
    var block := ledger.NewBlock(proof, None, t1);
    chain, pending := ledger.chain, ledger.currentTrxs;
  }
}
