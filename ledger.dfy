/** The in-memory ledger: the chain of blocks, the pending transactions and
    the set of peer addresses, with block creation, proof-of-work, chain
    validation and longest-chain consensus. */
module Ledger {
  import opened Blocks

  datatype Option<T> = None | Some(value: T)

  /** What asking a peer for its chain yields: the chain it reported, or
      None when the request, the status or the decoding failed. */
  type Fetch = string -> Option<seq<Block>>

  // ---------------------------------------------------------------------
  // Chain validity

  /** Block `i` carries a valid proof once its hash is blanked and, unless it
      is the first block, names the stored hash of its predecessor. */
  predicate BlockOk(digest: Digest, c: seq<Block>, i: int)
    requires 0 <= i < |c|
  {
    IsProofValid(digest, CopyWithoutHash(c[i])) &&
    (i > 0 ==> c[i].previousHash == c[i - 1].hash)
  }

  /** What the validator accepts: every block is in order. */
  predicate ChainValid(digest: Digest, c: seq<Block>) {
    forall i :: 0 <= i < |c| ==> BlockOk(digest, c, i)
  }

  /** Block indices count positions from 1. The validator does not check
      this; block creation maintains it. */
  predicate IndexedFromOne(c: seq<Block>) {
    forall i :: 0 <= i < |c| ==> c[i].index == i + 1
  }

  lemma EmptyChainValid(digest: Digest)
    ensures ChainValid(digest, [])
  {
  }

  /** A one-block chain is checked for its proof only: the genesis block is
      exempt from the linkage check, whatever its `previousHash`. */
  lemma GenesisExemptFromLinkage(digest: Digest, b: Block)
    ensures ChainValid(digest, [b]) <==> IsProofValid(digest, CopyWithoutHash(b))
  {
    assert BlockOk(digest, [b], 0) <==> IsProofValid(digest, CopyWithoutHash(b));
  }

  /** Validity of a chain with one more block at the end. */
  lemma {:induction false} ChainValidAppend(digest: Digest, c: seq<Block>, b: Block)
    ensures ChainValid(digest, c + [b]) <==>
              ChainValid(digest, c) &&
              IsProofValid(digest, CopyWithoutHash(b)) &&
              (c != [] ==> b.previousHash == c[|c| - 1].hash)
  {
    var d := c + [b];
    if ChainValid(digest, d) {
      forall i | 0 <= i < |c| ensures BlockOk(digest, c, i) {
        assert BlockOk(digest, d, i);
        assert d[i] == c[i];
        if i > 0 { assert d[i - 1] == c[i - 1]; }
      }
      assert BlockOk(digest, d, |c|);
    }
    if ChainValid(digest, c) && IsProofValid(digest, CopyWithoutHash(b)) &&
       (c != [] ==> b.previousHash == c[|c| - 1].hash) {
      forall i | 0 <= i < |d| ensures BlockOk(digest, d, i) {
        if i < |c| {
          assert BlockOk(digest, c, i);
          assert d[i] == c[i];
          if i > 0 { assert d[i - 1] == c[i - 1]; }
        } else {
          assert d[i] == b;
          if i > 0 { assert d[i - 1] == c[|c| - 1]; }
        }
      }
    }
  }

  /** Index numbering survives appending the block numbered one past the end,
      and only that block. */
  lemma {:induction false} IndexedAppend(c: seq<Block>, b: Block)
    ensures IndexedFromOne(c + [b]) <==> IndexedFromOne(c) && b.index == |c| + 1
  {
    var d := c + [b];
    if IndexedFromOne(d) {
      forall i | 0 <= i < |c| ensures c[i].index == i + 1 {
        assert d[i] == c[i];
      }
      assert d[|c|] == b;
    }
  }

  /** The chain with block `i`'s `previousHash` overwritten by `s`. */
  function RelinkAt(c: seq<Block>, i: int, s: string): seq<Block>
    requires 0 <= i < |c|
  {
    c[i := c[i].(previousHash := s)]
  }

  /** Overwriting the `previousHash` of a non-first block of a valid chain
      with anything but its predecessor's hash makes the chain invalid, and
      that block is the only one the validator then objects to. */
  lemma LinkageTamperDetected(digest: Digest, c: seq<Block>, i: int, s: string)
    requires ChainValid(digest, c)
    requires 0 < i < |c| && s != c[i - 1].hash
    ensures !ChainValid(digest, RelinkAt(c, i, s))
    ensures forall j :: 0 <= j < |c| && j != i ==> BlockOk(digest, RelinkAt(c, i, s), j)
  {
    var t := RelinkAt(c, i, s);
    assert !BlockOk(digest, t, i);
    forall j | 0 <= j < |c| && j != i
      ensures BlockOk(digest, t, j)
    {
      assert BlockOk(digest, c, j);
      assert t[j] == c[j];
      if j > 0 { assert t[j - 1].hash == c[j - 1].hash; }
    }
  }

  /** The validator never compares a block's stored `hash` with the digest of
      its content: a chain can be accepted although it does not hold. */
  lemma StoredHashNotChecked()
    ensures exists digest: Digest, c: seq<Block> ::
              ChainValid(digest, c) && |c| == 1 &&
              c[0].hash != GenerateHash(digest, CopyWithoutHash(c[0]))
  {
    var digest: Digest := (b: Block) => "0000";
    var c := [Block(1, 0, [], 0, "not-a-digest", "1")];
    assert BlockOk(digest, c, 0);
    assert c[0].hash != GenerateHash(digest, CopyWithoutHash(c[0]));
  }

  /** For every digest: the stored hash of the last block of a valid chain
      can be anything. A stored hash is only ever compared with the next
      block's `previousHash`, never with the digest of its own content. */
  lemma StoredHashIgnored(digest: Digest, c: seq<Block>, s: string)
    requires ChainValid(digest, c) && c != []
    ensures ChainValid(digest, c[|c| - 1 := c[|c| - 1].(hash := s)])
  {
    var n := |c| - 1;
    var t := c[n := c[n].(hash := s)];
    forall i | 0 <= i < |t| ensures BlockOk(digest, t, i) {
      assert BlockOk(digest, c, i);
      CopyIgnoresHash(digest, t[i], c[i]);
      if i > 0 { assert t[i - 1] == c[i - 1]; }
    }
  }

  /** The validator never compares `index` with the block's position (the
      index enters only through the digest): a chain can be accepted although
      its numbering is broken. */
  lemma IndexNotChecked()
    ensures exists digest: Digest, c: seq<Block> ::
              ChainValid(digest, c) && !IndexedFromOne(c)
  {
    var digest: Digest := (b: Block) => "0000";
    var c := [Block(7, 0, [], 0, "", "1")];
    assert BlockOk(digest, c, 0);
    assert ChainValid(digest, c) && !IndexedFromOne(c);
  }

  // ---------------------------------------------------------------------
  // Consensus: which fetched chain wins

  /** The chain a peer contributes: its fetched chain when the fetch
      succeeded, the chain is longer than `origLen` and it is valid. */
  function Candidate(digest: Digest, fetch: Fetch, origLen: int, node: string): Option<seq<Block>> {
    match fetch(node)
    case None => None
    case Some(c) => if |c| > origLen && ChainValid(digest, c) then Some(c) else None
  }

  /** The outcome of visiting the peers in `order`: the last candidate met,
      or None when there is none. */
  function Pick(digest: Digest, fetch: Fetch, origLen: int, order: seq<string>): Option<seq<Block>>
    decreases |order|
  {
    if order == [] then None
    else
      var last := Candidate(digest, fetch, origLen, order[|order| - 1]);
      if last.Some? then last else Pick(digest, fetch, origLen, order[..|order| - 1])
  }

  /** `order` lists every element of `s` exactly once. */
  ghost predicate Enumerates(order: seq<string>, s: set<string>) {
    (forall i, j :: 0 <= i < j < |order| ==> order[i] != order[j]) &&
    (forall x :: x in order <==> x in s)
  }

  /** Nothing is picked exactly when no peer in the order has a candidate. */
  lemma {:induction false} PickNoneIff(digest: Digest, fetch: Fetch, origLen: int, order: seq<string>)
    ensures Pick(digest, fetch, origLen, order).None? <==>
              forall k :: 0 <= k < |order| ==> Candidate(digest, fetch, origLen, order[k]).None?
  {
    if order != [] {
      var init := order[..|order| - 1];
      PickNoneIff(digest, fetch, origLen, init);
      assert forall k :: 0 <= k < |init| ==> init[k] == order[k];
    }
  }

  /** What is picked is the candidate of some peer in the order, and no peer
      after that one has a candidate: the last qualifying chain wins. */
  lemma {:induction false} PickLastWins(digest: Digest, fetch: Fetch, origLen: int, order: seq<string>)
    requires Pick(digest, fetch, origLen, order).Some?
    ensures exists k :: 0 <= k < |order| &&
              Candidate(digest, fetch, origLen, order[k]) == Pick(digest, fetch, origLen, order) &&
              forall j :: k < j < |order| ==> Candidate(digest, fetch, origLen, order[j]).None?
  {
    var n := |order| - 1;
    if Candidate(digest, fetch, origLen, order[n]).Some? {
      assert Candidate(digest, fetch, origLen, order[n]) == Pick(digest, fetch, origLen, order);
    } else {
      var init := order[..n];
      PickLastWins(digest, fetch, origLen, init);
      var k :| 0 <= k < |init| &&
               Candidate(digest, fetch, origLen, init[k]) == Pick(digest, fetch, origLen, init) &&
               forall j :: k < j < |init| ==> Candidate(digest, fetch, origLen, init[j]).None?;
      assert init[k] == order[k];
      forall j | k < j < |order| ensures Candidate(digest, fetch, origLen, order[j]).None? {
        if j < n { assert init[j] == order[j]; }
      }
    }
  }

  /** A picked chain is a chain some peer in the order reported; it is longer
      than `origLen` and valid. */
  lemma PickSound(digest: Digest, fetch: Fetch, origLen: int, order: seq<string>)
    requires Pick(digest, fetch, origLen, order).Some?
    ensures var c := Pick(digest, fetch, origLen, order).value;
              |c| > origLen && ChainValid(digest, c) &&
              exists k :: 0 <= k < |order| && fetch(order[k]) == Some(c)
  {
    PickLastWins(digest, fetch, origLen, order);
  }

  /** Whether a replacement happens does not depend on the order the peers are
      visited in: it happens exactly when some registered peer has a candidate.
      With no peers registered nothing is picked. */
  lemma PickNoneOrderFree(digest: Digest, fetch: Fetch, origLen: int, order: seq<string>, s: set<string>)
    requires Enumerates(order, s)
    ensures Pick(digest, fetch, origLen, order).None? <==>
              forall n :: n in s ==> Candidate(digest, fetch, origLen, n).None?
  {
    PickNoneIff(digest, fetch, origLen, order);
    if Pick(digest, fetch, origLen, order).None? {
      forall n | n in s ensures Candidate(digest, fetch, origLen, n).None? {
        assert n in order;
        var k :| 0 <= k < |order| && order[k] == n;
      }
    }
  }

  // ---------------------------------------------------------------------
  // The ledger

  class BlockChain {
    /** The block digest every block of this ledger is hashed with. */
    const digest: Digest
    var chain: seq<Block>
    var currentTransactions: seq<Transaction>
    /** The registered peers (a string-to-true map in the program). */
    var nodes: set<string>

    /** A fresh ledger: no pending transactions, no peers, and a chain holding
        only the mined genesis block. */
    constructor (digest: Digest, now: int)
      requires Solvable(digest, Block(1, now, [], 0, "", "1"))
      ensures this.digest == digest
      ensures |chain| == 1
      ensures chain[0].index == 1 && chain[0].timeStamp == now
      ensures chain[0].transactions == [] && chain[0].previousHash == "1"
      ensures chain[0].hash == GenerateHash(digest, CopyWithoutHash(chain[0]))
      ensures ChainValid(digest, chain) && IndexedFromOne(chain)
      ensures currentTransactions == [] && nodes == {}
    {
      this.digest := digest;
      chain := [];
      currentTransactions := [];
      nodes := {};
      new;
      var gen := NewBlock(now);
      var proof;
      gen, proof := ProofOfWork(gen);
      AddBlock(gen);
      assert BlockOk(digest, chain, 0);
    }

    /** A ledger object wrapped around a fetched chain, for validating it. */
    constructor Remote(digest: Digest, chain: seq<Block>)
      ensures this.digest == digest && this.chain == chain
      ensures currentTransactions == [] && nodes == {}
    {
      this.digest := digest;
      this.chain := chain;
      currentTransactions := [];
      nodes := {};
    }

    /** The most recent block. */
    function LastBlock(): (b: Block)
      reads this
      requires chain != []
      ensures b == chain[|chain| - 1]
    {
      chain[|chain| - 1]
    }

    /** The unmined candidate for the next position, built from the current
        state; nothing is changed. */
    function NewBlock(now: int): (b: Block)
      reads this
      ensures b.index == |chain| + 1 && b.timeStamp == now
      ensures b.transactions == currentTransactions
      ensures b.proof == 0 && b.hash == ""
      ensures b.previousHash == if chain == [] then "1" else LastBlock().hash
    {
      var previousHash := if |chain| == 0 then "1" else LastBlock().hash;
      Block(|chain| + 1, now, currentTransactions, 0, "", previousHash)
    }

    method AddBlock(block: Block)
      modifies this
      ensures chain == old(chain) + [block]
      ensures currentTransactions == old(currentTransactions) && nodes == old(nodes)
    {
      chain := chain + [block];
    }

    /** Queues a transaction and answers the index of the block it is meant
        for. */
    method AddTransaction(tx: Transaction) returns (next: int)
      requires chain != []
      modifies this
      ensures currentTransactions == old(currentTransactions) + [tx]
      ensures chain == old(chain) && nodes == old(nodes)
      ensures next == LastBlock().index + 1
      ensures IndexedFromOne(chain) ==> next == |chain| + 1
    {
      currentTransactions := currentTransactions + [tx];
      next := LastBlock().index + 1;
    }

    /** Adds a peer; adding a known peer again is a no-op. */
    method RegisterNode(address: string)
      modifies this
      ensures nodes == old(nodes) + {address}
      ensures address in old(nodes) ==> nodes == old(nodes)
      ensures chain == old(chain) && currentTransactions == old(currentTransactions)
    {
      nodes := nodes + {address};
    }

    /** Tries proofs 0, 1, 2, ... on the block until its digest meets the
        target, then stores that digest as the block's hash. Answers the
        solved block and the proof; the ledger is not touched. */
    method ProofOfWork(block: Block) returns (solved: Block, p: nat)
      requires Solvable(digest, block)
      ensures IsProofValid(digest, WithProof(block, p))
      ensures forall n: nat :: n < p ==> !IsProofValid(digest, WithProof(block, n))
      ensures solved == WithProof(block, p).(hash := GenerateHash(digest, WithProof(block, p)))
      ensures block.hash == "" ==>
                IsProofValid(digest, CopyWithoutHash(solved)) &&
                solved.hash == GenerateHash(digest, CopyWithoutHash(solved))
    {
      ghost var bound: nat :| IsProofValid(digest, WithProof(block, bound));
      var newProof: nat := 0;
      solved := WithProof(block, newProof);
      while !IsProofValid(digest, solved)
        invariant newProof <= bound
        invariant solved == WithProof(block, newProof)
        invariant forall n: nat :: n < newProof ==> !IsProofValid(digest, WithProof(block, n))
        decreases bound - newProof
      {
        newProof := newProof + 1;
        solved := WithProof(block, newProof);
      }
      solved := solved.(hash := GenerateHash(digest, solved));
      p := newProof;
    }

    /** Walks the chain and stops at the first block out of order. */
    method IsChainValid() returns (valid: bool)
      ensures valid == ChainValid(digest, chain)
    {
      valid := true;
      var i := 0;
      while i < |chain|
        invariant 0 <= i <= |chain|
        invariant valid
        invariant forall j :: 0 <= j < i ==> BlockOk(digest, chain, j)
      {
        var tmp := CopyWithoutHash(chain[i]);
        valid := IsProofValid(digest, tmp);
        if !valid {
          assert !BlockOk(digest, chain, i);
          break;
        }
        if i > 0 {
          valid := chain[i].previousHash == chain[i - 1].hash;
          if !valid {
            assert !BlockOk(digest, chain, i);
            break;
          }
        }
        i := i + 1;
      }
    }

    /** Longest-chain consensus. Visits every registered peer once, in an
        order the model leaves open (`order`), and adopts the last fetched
        chain that is longer than the chain held on entry and valid. */
    method ResolveConflicts(fetch: Fetch) returns (replaced: bool, ghost order: seq<string>)
      modifies this
      ensures Enumerates(order, nodes)
      ensures nodes == old(nodes) && currentTransactions == old(currentTransactions)
      ensures replaced == Pick(digest, fetch, |old(chain)|, order).Some?
      ensures replaced ==> chain == Pick(digest, fetch, |old(chain)|, order).value
      ensures !replaced ==> chain == old(chain)
      ensures replaced <==> exists n :: n in nodes && Candidate(digest, fetch, |old(chain)|, n).Some?
      ensures replaced ==> |chain| > |old(chain)| && ChainValid(digest, chain) &&
                           exists n :: n in nodes && fetch(n) == Some(chain)
    {
      replaced := false;
      var newChain: seq<Block> := [];
      var rest := nodes;
      order := [];
      while rest != {}
        invariant rest <= nodes
        invariant forall x :: x in order <==> x in nodes && x !in rest
        invariant forall i, j :: 0 <= i < j < |order| ==> order[i] != order[j]
        invariant replaced == Pick(digest, fetch, |chain|, order).Some?
        invariant replaced ==> newChain == Pick(digest, fetch, |chain|, order).value
        invariant chain == old(chain) && nodes == old(nodes)
        invariant currentTransactions == old(currentTransactions)
        decreases rest
      {
        var node :| node in rest;
        rest := rest - {node};
        var fetched := fetch(node);
        if fetched.Some? {
          var remote := new BlockChain.Remote(digest, fetched.value);
          if |remote.chain| > |chain| {
            var ok := remote.IsChainValid();
            if ok {
              newChain := fetched.value;
              replaced := true;
            }
          }
        }
        assert (order + [node])[..|order|] == order;
        order := order + [node];
      }
      PickNoneOrderFree(digest, fetch, |chain|, order, nodes);
      if replaced {
        PickSound(digest, fetch, |chain|, order);
        chain := newChain;
      }
    }
  }
}
