/** Blocks and transactions: the values the ledger is built from, the content
    digest that gives a block its identity, and the proof-of-work rule. */
module Blocks {

  /** A transfer record. The ledger stores it and hashes it but never looks
      inside it, so the amount is carried as an opaque number. */
  datatype Transaction = Transaction(sender: string, receiver: string, amount: real)

  /** One block of the ledger. `hash` is "" until proof-of-work has run;
      `previousHash` is the sentinel "1" for a genesis block. */
  datatype Block = Block(
    index: int,
    timeStamp: int,
    transactions: seq<Transaction>,
    proof: int,
    hash: string,
    previousHash: string)

  /** The block digest: JSON encoding of every field (the hash field
      included), SHA-256, hex. Nothing is known about it beyond being a
      function of the block value. */
  type Digest = Block -> string

  /** The difficulty target a digest must start with. */
  const Difficulty: string := "0000"

  /** Prefix test on strings, as Go's `strings.HasPrefix` does it. */
  predicate HasPrefix(s: string, prefix: string) {
    |s| >= |prefix| && s[..|prefix|] == prefix
  }

  /** A block's identity. */
  function GenerateHash(digest: Digest, b: Block): string {
    digest(b)
  }

  /** The proof is accepted when the digest of the block, as it stands,
      begins with the difficulty target. */
  predicate IsProofValid(digest: Digest, b: Block) {
    HasPrefix(GenerateHash(digest, b), Difficulty)
  }

  /** The same block with `hash` blanked. */
  function CopyWithoutHash(b: Block): (c: Block)
    ensures c.index == b.index && c.timeStamp == b.timeStamp
    ensures c.transactions == b.transactions && c.proof == b.proof
    ensures c.previousHash == b.previousHash
    ensures c.hash == ""
  {
    Block(b.index, b.timeStamp, b.transactions, b.proof, "", b.previousHash)
  }

  /** Present on blocks but unused: it always answers 0 and, being a value
      function, changes nothing. */
  function NewTransaction(b: Block): (r: nat)
    ensures r == 0
  {
    0
  }

  /** The block with proof `n` and all other fields as in `b`. */
  function WithProof(b: Block, n: int): Block {
    b.(proof := n)
  }

  /** Some proof makes the block's digest meet the target. */
  ghost predicate Solvable(digest: Digest, b: Block) {
    exists n: nat :: IsProofValid(digest, WithProof(b, n))
  }

  // ---------------------------------------------------------------------
  // Properties of hashing and of the proof rule

  /** Two blocks that agree on every field, `hash` included, have one digest. */
  lemma GenerateHashDeterministic(digest: Digest, a: Block, b: Block)
    requires a.index == b.index && a.timeStamp == b.timeStamp
    requires a.transactions == b.transactions && a.proof == b.proof
    requires a.hash == b.hash && a.previousHash == b.previousHash
    ensures GenerateHash(digest, a) == GenerateHash(digest, b)
  {
  }

  /** The proof rule, stated character by character: the digest has at least
      four characters and the first four are all '0'. */
  lemma ProofValidIffFourZeros(digest: Digest, b: Block)
    ensures IsProofValid(digest, b) <==>
              |digest(b)| >= 4 && forall k :: 0 <= k < 4 ==> digest(b)[k] == '0'
  {
    var d := digest(b);
    if |d| >= 4 && forall k :: 0 <= k < 4 ==> d[k] == '0' {
      assert d[..4] == [d[0], d[1], d[2], d[3]];
      assert d[..4] == Difficulty;
    }
    if IsProofValid(digest, b) {
      assert d[..4] == Difficulty;
      assert forall k :: 0 <= k < 4 ==> d[k] == d[..4][k];
    }
  }

  /** Copying a copy changes nothing. */
  lemma CopyWithoutHashIdempotent(b: Block)
    ensures CopyWithoutHash(CopyWithoutHash(b)) == CopyWithoutHash(b)
  {
  }

  /** Blocks that differ at most in `hash` have the same copy, hence the same
      digest and the same proof validity once copied. */
  lemma CopyIgnoresHash(digest: Digest, a: Block, b: Block)
    requires a.(hash := b.hash) == b
    ensures CopyWithoutHash(a) == CopyWithoutHash(b)
    ensures GenerateHash(digest, CopyWithoutHash(a)) == GenerateHash(digest, CopyWithoutHash(b))
    ensures IsProofValid(digest, CopyWithoutHash(a)) == IsProofValid(digest, CopyWithoutHash(b))
  {
  }

  /** A block whose hash is still blank is its own copy, so checking the copy
      is checking the block. */
  lemma CopyOfUnhashed(digest: Digest, b: Block)
    requires b.hash == ""
    ensures CopyWithoutHash(b) == b
    ensures IsProofValid(digest, CopyWithoutHash(b)) == IsProofValid(digest, b)
  {
  }
}
