/** The node's request handlers, reduced to what they do to the ledger:
    mining a block and registering a list of peers. */
module Node {
  import opened Blocks
  import opened Ledger

  /** The coin a node pays itself for mining: from the reserved sender "0",
      to the node's own id, amount 1. */
  function Reward(id: string): (tx: Transaction)
    ensures tx.sender == "0" && tx.receiver == id && tx.amount == 1.0
  {
    Transaction("0", id, 1.0)
  }

  /** The block mining will search a proof for: the candidate built once the
      reward has been queued. */
  ghost function MineCandidate(ledger: BlockChain, id: string, now: int): Block
    reads ledger
  {
    ledger.NewBlock(now).(transactions := ledger.currentTransactions + [Reward(id)])
  }

  /** Queue the reward, build the next block, solve it and append it. The
      pending transactions are kept: nothing empties them. */
  method Mine(ledger: BlockChain, id: string, now: int) returns (block: Block)
    requires ledger.chain != []
    requires Solvable(ledger.digest, MineCandidate(ledger, id, now))
    modifies ledger
    ensures ledger.currentTransactions == old(ledger.currentTransactions) + [Reward(id)]
    ensures ledger.chain == old(ledger.chain) + [block]
    ensures ledger.nodes == old(ledger.nodes)
    ensures block.index == |old(ledger.chain)| + 1 && block.timeStamp == now
    ensures block.transactions == old(ledger.currentTransactions) + [Reward(id)]
    ensures block.previousHash == old(ledger.LastBlock()).hash
    ensures block.hash == GenerateHash(ledger.digest, CopyWithoutHash(block))
    ensures IsProofValid(ledger.digest, CopyWithoutHash(block))
    ensures forall n: nat :: n < block.proof ==>
              !IsProofValid(ledger.digest, WithProof(CopyWithoutHash(block), n))
    ensures ChainValid(ledger.digest, old(ledger.chain)) ==> ChainValid(ledger.digest, ledger.chain)
    ensures IndexedFromOne(old(ledger.chain)) ==> IndexedFromOne(ledger.chain)
  {
    var next := ledger.AddTransaction(Reward(id));
    block := ledger.NewBlock(now);
    ghost var candidate := block;
    var proof;
    block, proof := ledger.ProofOfWork(block);
    assert forall n: nat :: WithProof(CopyWithoutHash(block), n) == WithProof(candidate, n);
    ledger.AddBlock(block);
    ChainValidAppend(ledger.digest, old(ledger.chain), block);
    IndexedAppend(old(ledger.chain), block);
  }

  /** Registers every address of a request, in order. */
  method RegisterNodes(ledger: BlockChain, addresses: seq<string>)
    modifies ledger
    ensures forall a :: a in ledger.nodes <==> a in old(ledger.nodes) || a in addresses
    ensures ledger.chain == old(ledger.chain)
    ensures ledger.currentTransactions == old(ledger.currentTransactions)
  {
    for k := 0 to |addresses|
      invariant forall a :: a in ledger.nodes <==> a in old(ledger.nodes) || a in addresses[..k]
      invariant ledger.chain == old(ledger.chain)
      invariant ledger.currentTransactions == old(ledger.currentTransactions)
    {
      ledger.RegisterNode(addresses[k]);
      assert addresses[..k + 1] == addresses[..k] + [addresses[k]];
    }
    assert addresses[..|addresses|] == addresses;
  }
}
