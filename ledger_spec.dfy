/** The ledger as a value: the chain and the pending transactions, the two transitions the class
    performs on them, and what any run of those transitions keeps true. */
module LedgerSpec {
  import opened Blocks
  import opened Puzzle

  /** The genesis block's proof and its sentinel 'previous_hash'. */
  const GenesisProof := 100
  const GenesisLink := Number(1)

  /** The two fields of the ledger: `chain` and `current_trxs`. */
  datatype State = State(chain: seq<Block>, pending: seq<Transaction>)

  function Last(chain: seq<Block>): Block
    requires chain != []
  {
    chain[|chain| - 1]
  }

  /** Block i (0-based) carries index i + 1. */
  ghost predicate WellIndexed(chain: seq<Block>)
  {
    forall i :: 0 <= i < |chain| ==> chain[i].index == i + 1
  }

  /** Every block after the first stores the fingerprint of its predecessor. */
  ghost predicate Linked(c: Crypto, chain: seq<Block>)
  {
    forall i :: 0 <= i < |chain| - 1 ==> chain[i + 1].previousHash == Text(Hash(c, chain[i]))
  }

  /** The value new_block stores under 'previous_hash': the argument when it is truthy, otherwise
      the fingerprint of the last block (which must then exist). */
  function LinkFor(c: Crypto, chain: seq<Block>, prev: Option<PrevHash>): PrevHash
    requires Given(prev) || chain != []
  {
    if Given(prev) then prev.value else Text(Hash(c, Last(chain)))
  }

  /** The block new_block builds from the state before the call. */
  function SealedBlock(c: Crypto, s: State, proof: int, prev: Option<PrevHash>, now: real): Block
    requires Given(prev) || s.chain != []
  {
    Block(|s.chain| + 1, now, s.pending, proof, LinkFor(c, s.chain, prev))
  }

  /** new_block: append the sealed block and start a fresh pending list. */
  function Sealed(c: Crypto, s: State, proof: int, prev: Option<PrevHash>, now: real): (r: State)
    requires Given(prev) || s.chain != []
    ensures |r.chain| == |s.chain| + 1 && s.chain <= r.chain
    ensures Last(r.chain).index == |s.chain| + 1 && Last(r.chain).proof == proof
    ensures Last(r.chain).transaction == s.pending && r.pending == []
    ensures Last(r.chain).timestamp == now
    ensures Given(prev) ==> Last(r.chain).previousHash == prev.value
    ensures WellIndexed(s.chain) ==> WellIndexed(r.chain)
    ensures !Given(prev) ==> Last(r.chain).previousHash == Text(Hash(c, Last(s.chain)))
    ensures !Given(prev) && Linked(c, s.chain) ==> Linked(c, r.chain)
  {
    State(s.chain + [SealedBlock(c, s, proof, prev, now)], [])
  }

  /** new_trx: append one record to the pending list; the chain is untouched. */
  function Submitted(s: State, sender: string, recipient: string, amount: int): (r: State)
    ensures r.chain == s.chain
    ensures |r.pending| == |s.pending| + 1 && s.pending <= r.pending
    ensures r.pending[|s.pending|] == Transaction(sender, recipient, amount)
  {
    State(s.chain, s.pending + [Transaction(sender, recipient, amount)])
  }

  /** What new_trx returns: the last block's index plus one. */
  function NextIndex(s: State): (k: int)
    requires s.chain != []
    ensures WellIndexed(s.chain) ==> k == |s.chain| + 1
  {
    Last(s.chain).index + 1
  }

  /** The state right after construction: new_block(proof=100, previous_hash=1) on an empty ledger. */
  function Genesis(c: Crypto, now: real): (s: State)
    ensures s.chain == [Block(1, now, [], 100, Number(1))] && s.pending == []
    ensures WellIndexed(s.chain) && Linked(c, s.chain)
  {
    Sealed(c, State([], []), GenesisProof, Some(GenesisLink), now)
  }

  /** The index new_trx announces is the index the next new_block gives, if no seal intervenes. */
  lemma NextIndexIsNextBlock(c: Crypto, s: State, t: Transaction, proof: int, prev: Option<PrevHash>, now: real)
    requires s.chain != [] && WellIndexed(s.chain)
    ensures NextIndex(s) == SealedBlock(c, Submitted(s, t.sender, t.recipient, t.amount), proof, prev, now).index
  {
  }

  /** Passing hash(last_block) explicitly builds the same block as leaving previous_hash out: a
      hex digest is a non-empty, hence truthy, string. */
  lemma ExplicitLinkIsDefault(c: Crypto, s: State, proof: int, now: real)
    requires IsSha256(c.sha256) && s.chain != []
    ensures Sealed(c, s, proof, Some(Text(Hash(c, Last(s.chain)))), now) == Sealed(c, s, proof, None, now)
  {
  }

  // ---------------------------------------------------------------------------------------------
  // Runs of calls.

  /** One call on the ledger: new_trx(sender, recipient, amount) or new_block(proof, previous_hash). */
  datatype Call =
    | NewTrxCall(sender: string, recipient: string, amount: int)
    | NewBlockCall(proof: int, prev: Option<PrevHash>, now: real)

  function Step(c: Crypto, s: State, call: Call): (r: State)
    requires s.chain != []
    ensures r.chain != []
  {
    match call
    case NewTrxCall(sender, recipient, amount) => Submitted(s, sender, recipient, amount)
    case NewBlockCall(proof, prev, now) => Sealed(c, s, proof, prev, now)
  }

  /** The state after performing the calls in order. */
  function Run(c: Crypto, s: State, calls: seq<Call>): (r: State)
    requires s.chain != []
    ensures r.chain != []
    decreases |calls|
  {
    if calls == [] then s else Run(c, Step(c, s, calls[0]), calls[1..])
  }

  /** How many new_block calls there are. */
  function Seals(calls: seq<Call>): nat
  {
    if calls == [] then 0 else (if calls[0].NewBlockCall? then 1 else 0) + Seals(calls[1..])
  }

  /** The transactions the new_trx calls submit, in order. */
  function Submissions(calls: seq<Call>): seq<Transaction>
  {
    if calls == [] then []
    else match calls[0]
      case NewTrxCall(sender, recipient, amount) => [Transaction(sender, recipient, amount)] + Submissions(calls[1..])
      case NewBlockCall(_, _, _) => Submissions(calls[1..])
  }

  /** No new_block call overrides the link with a truthy previous_hash. */
  ghost predicate NoOverrides(calls: seq<Call>)
  {
    forall i :: 0 <= i < |calls| && calls[i].NewBlockCall? ==> !Given(calls[i].prev)
  }

  /** All transactions in the chain's blocks, block by block, in order. */
  function Committed(chain: seq<Block>): seq<Transaction>
    decreases |chain|
  {
    if chain == [] then [] else Committed(chain[..|chain| - 1]) + Last(chain).transaction
  }

  /** Every transaction the ledger holds, sealed or pending. */
  function Held(s: State): seq<Transaction>
  {
    Committed(s.chain) + s.pending
  }

  lemma {:induction false} RunAppendOnly(c: Crypto, s: State, calls: seq<Call>)
    requires s.chain != []
    ensures s.chain <= Run(c, s, calls).chain
    ensures |Run(c, s, calls).chain| == |s.chain| + Seals(calls)
    decreases |calls|
  {
    if calls != [] {
      RunAppendOnly(c, Step(c, s, calls[0]), calls[1..]);
    }
  }

  lemma {:induction false} RunKeepsIndexing(c: Crypto, s: State, calls: seq<Call>)
    requires s.chain != [] && WellIndexed(s.chain)
    ensures WellIndexed(Run(c, s, calls).chain)
    decreases |calls|
  {
    if calls != [] {
      RunKeepsIndexing(c, Step(c, s, calls[0]), calls[1..]);
    }
  }

  lemma {:induction false} RunKeepsLinks(c: Crypto, s: State, calls: seq<Call>)
    requires s.chain != [] && Linked(c, s.chain) && NoOverrides(calls)
    ensures Linked(c, Run(c, s, calls).chain)
    decreases |calls|
  {
    if calls != [] {
      assert NoOverrides(calls[1..]) by {
        forall i | 0 <= i < |calls[1..]| && calls[1..][i].NewBlockCall?
          ensures !Given(calls[1..][i].prev)
        {
          assert calls[1..][i] == calls[i + 1];
        }
      }
      RunKeepsLinks(c, Step(c, s, calls[0]), calls[1..]);
    }
  }

  lemma SealedCommits(c: Crypto, s: State, proof: int, prev: Option<PrevHash>, now: real)
    requires Given(prev) || s.chain != []
    ensures Held(Sealed(c, s, proof, prev, now)) == Held(s)
  {
  }

  /** No transaction is lost, duplicated or reordered: what the ledger holds afterwards is what it
      held before followed by every submitted transaction, in submission order. */
  lemma {:induction false} RunConservesTransactions(c: Crypto, s: State, calls: seq<Call>)
    requires s.chain != []
    ensures Held(Run(c, s, calls)) == Held(s) + Submissions(calls)
    decreases |calls|
  {
    if calls != [] {
      var s' := Step(c, s, calls[0]);
      RunConservesTransactions(c, s', calls[1..]);
      match calls[0]
      case NewTrxCall(sender, recipient, amount) =>
        assert Held(s') == Held(s) + [Transaction(sender, recipient, amount)];
      case NewBlockCall(proof, prev, now) =>
        SealedCommits(c, s, proof, prev, now);
    }
  }

  /** Any history of a ledger: one block per new_block call after genesis, the genesis block kept
      at the front, block i indexed i + 1, every submitted transaction held in submission order,
      and the link invariant on every block when no call overrides previous_hash. */
  lemma History(c: Crypto, now: real, calls: seq<Call>)
    ensures var r := Run(c, Genesis(c, now), calls);
      && |r.chain| == 1 + Seals(calls)
      && r.chain[0] == Block(1, now, [], GenesisProof, GenesisLink)
      && WellIndexed(r.chain)
      && Held(r) == Submissions(calls)
      && (NoOverrides(calls) ==> Linked(c, r.chain))
  {
    var g := Genesis(c, now);
    assert g.chain[..0] == [];
    assert Committed(g.chain) == Committed(g.chain[..0]) + Last(g.chain).transaction == [];
    RunAppendOnly(c, g, calls);
    RunKeepsIndexing(c, g, calls);
    RunConservesTransactions(c, g, calls);
    if NoOverrides(calls) {
      RunKeepsLinks(c, g, calls);
    }
  }
}
