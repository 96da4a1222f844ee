# go-blockchain ledger, modelled in Dafny

This project models the in-memory ledger of a small proof-of-work
blockchain node and proves properties of that model.

The node keeps three things:

- a chain of blocks;
- a list of pending transactions;
- a set of peer addresses.

A block's identity is the digest of all its fields. A block is accepted
when the digest of the block, with its `hash` field blanked, starts with
`"0000"`. Mining works in four steps:

1. queue a reward transaction for the node;
2. build the next block from the pending list;
3. search proofs 0, 1, 2, … until the digest meets the target;
4. append the block.

Consensus fetches every peer's chain. It adopts the last fetched chain that
is longer than the local one and passes the validator.

Files:

- `blocks.dfy` (module `Blocks`): transactions, blocks, the digest, the proof
  rule and `CopyWithoutHash` (`blockchain/block.go`,
  `blockchain/transaction.go`).
- `ledger.dfy` (module `Ledger`): the validity predicate `ChainValid`, the
  consensus outcome `Pick`, the lemmas about both, and the class
  `BlockChain` with its operations (`blockchain/blockchain.go`).
- `node.dfy` (module `Node`): the mining sequence and the peer-registration
  loop of the HTTP handlers (`main.go`).

Modelling choices:

- The digest is a function value `digest: Block -> string`. Pure functions
  take it as a parameter. A `BlockChain` stores it in the constant field
  `digest`, which its constructor sets. Every proof therefore holds for
  every digest function. Nothing about SHA-256 is assumed.
- `ProofOfWork` mutates the block it receives through a pointer. In the
  model it takes the block value and returns the solved block. It does not
  touch the ledger.
- Peer fetching is an oracle `fetch: string -> Option<seq<Block>>`. `None`
  stands for any failed request.
- The program iterates over a Go map of peers, in no fixed order. The model
  picks the next peer nondeterministically from the peers not yet visited.
  It returns the visiting order as a ghost out-parameter, so the contract
  can name the order that was used.
- The timestamp is a parameter `now`.

Where the code departs from what a proof-of-work ledger is usually expected to do, the model follows the code:

- Mining never empties the pending list. `Node.Mine` keeps the old pending
  list plus the reward, so every later block repeats earlier transactions.
- The validator does not compare a block's stored `hash` with the digest of
  its content. `Ledger.StoredHashIgnored` shows, for every digest, that the
  last block's stored hash of a valid chain can be replaced by any string
  and the chain stays valid; `Ledger.StoredHashNotChecked` exhibits such a
  chain.
- The validator never compares `index` with the block's position; the index
  enters only through the digest. `Ledger.IndexNotChecked` exhibits an
  accepted chain whose numbering is broken.
- Consensus compares each fetched chain with the length of the chain held on
  entry. When several chains qualify, the last one visited wins, not the
  longest.

## Model

| member | source | states |
|---|---|---|
| `Blocks.GenerateHashDeterministic` | blockchain/block.go:23-27 | two blocks that agree on every field, `hash` included, get the same digest |
| `Blocks.ProofValidIffFourZeros` | blockchain/block.go:30-32 | a proof is valid exactly when the digest has at least four characters and the first four are all `'0'` |
| `Blocks.CopyWithoutHash` | blockchain/block.go:34-43 | the copy keeps index, timestamp, transactions, proof and previous hash, and its hash is `""` |
| `Blocks.CopyWithoutHashIdempotent` | blockchain/block.go:34-43 | copying a copy gives the same block |
| `Blocks.CopyIgnoresHash` | blockchain/block.go:23-43 | blocks that differ only in `hash` have equal copies, equal copy digests and equal proof validity after copying |
| `Blocks.CopyOfUnhashed` | blockchain/block.go:30-43 | a block with an empty hash is its own copy, so its proof validity is the same before and after copying |
| `Blocks.NewTransaction` | blockchain/block.go:19-21 | always answers 0; as a value function it changes nothing |
| `Ledger.EmptyChainValid` | blockchain/blockchain.go:101-121 | the validator accepts the empty chain |
| `Ledger.GenesisExemptFromLinkage` | blockchain/blockchain.go:101-121 | a one-block chain is valid exactly when its block's proof is, whatever its previous hash |
| `Ledger.ChainValidAppend` | blockchain/blockchain.go:101-121 | a chain plus one block is valid exactly when the chain is valid, the new block's proof is valid, and (on a non-empty chain) the block names the last block's hash |
| `Ledger.IndexedAppend` | blockchain/blockchain.go:37-59 | "index equals position plus one" holds after appending exactly when it held before and the new block's index is the old length plus one |
| `Ledger.LinkageTamperDetected` | blockchain/blockchain.go:111-118 | overwriting a non-first block's previous hash with anything else makes a valid chain invalid; every other block still passes |
| `Ledger.StoredHashNotChecked` | blockchain/blockchain.go:101-121 | some accepted chain has a block whose stored hash differs from the digest of its content |
| `Ledger.StoredHashIgnored` | blockchain/blockchain.go:101-121 | for every digest, a valid non-empty chain stays valid when the last block's stored hash is replaced by any string: stored hashes are only compared with the next block's previous hash |
| `Ledger.IndexNotChecked` | blockchain/blockchain.go:101-121 | some accepted chain breaks the index numbering: the index is never compared with the block's position |
| `Ledger.PickNoneIff` | blockchain/blockchain.go:124-146 | nothing is adopted exactly when no visited peer returned a chain that is longer than the original and valid |
| `Ledger.PickLastWins` | blockchain/blockchain.go:127-141 | the adopted chain is the candidate of some visited peer, and no peer visited after it had a candidate |
| `Ledger.PickSound` | blockchain/blockchain.go:133-141 | the adopted chain was fetched from a visited peer, is longer than the original and is valid |
| `Ledger.PickNoneOrderFree` | blockchain/blockchain.go:124-146 | for every visiting order of the peer set, nothing is adopted exactly when no registered peer has a candidate; with no peers nothing is adopted |
| `Ledger.BlockChain.constructor` | blockchain/blockchain.go:22-34 | a new ledger has no pending transactions and no peers; its chain is one valid block with index 1, previous hash `"1"`, no transactions, and a hash equal to the digest of its blanked copy |
| `Ledger.BlockChain.Remote` | blockchain/blockchain.go:133-135 | wraps a fetched chain in a ledger object so the validator can run on it |
| `Ledger.BlockChain.LastBlock` | blockchain/blockchain.go:69-71 | the last block of a non-empty chain |
| `Ledger.BlockChain.NewBlock` | blockchain/blockchain.go:37-54 | the candidate has index = length + 1, proof 0, an empty hash and the pending list as transactions; its previous hash is `"1"` on an empty chain and the last block's hash otherwise |
| `Ledger.BlockChain.AddBlock` | blockchain/blockchain.go:57-59 | appends exactly the given block; earlier blocks, pending and peers are unchanged |
| `Ledger.BlockChain.AddTransaction` | blockchain/blockchain.go:63-66 | needs a non-empty chain; appends the transaction to pending; answers the last index + 1, which is the next block's index when indices count positions; chain and peers are unchanged |
| `Ledger.BlockChain.RegisterNode` | blockchain/blockchain.go:79-81 | the peer set gains the address; re-registering a known address changes nothing; chain and pending are unchanged |
| `Ledger.BlockChain.ProofOfWork` | blockchain/blockchain.go:86-96 | answers the least proof that makes the block's digest meet the target; the solved block has that proof, its digest as hash and all other fields unchanged; on an unhashed block the result passes the validator's proof check and its hash is the digest of its blanked copy |
| `Ledger.BlockChain.IsChainValid` | blockchain/blockchain.go:101-121 | the loop answers exactly `ChainValid`: every blanked block has a valid proof and every non-first block names its predecessor's stored hash |
| `Ledger.BlockChain.ResolveConflicts` | blockchain/blockchain.go:124-146 | visits each peer once; it replaces the chain exactly when some peer returned a longer valid chain, and then adopts the last such chain visited; otherwise the chain is unchanged; peers and pending are never changed |
| `Node.Reward` | main.go:63-67 | the reward goes from sender `"0"` to this node's id, amount 1 |
| `Node.Mine` | main.go:62-72 | pending gains the reward and is not cleared; the chain grows by the mined block only; that block has index old length + 1, the old pending list plus the reward, the old last hash as previous hash, the least valid proof and the digest of its blanked copy as hash; validity and index numbering are preserved |
| `Node.RegisterNodes` | main.go:103-105 | afterwards the peer set is the old set plus exactly the request's addresses; chain and pending are unchanged |

## Left out

- Peer fetching (`getChain`, blockchain/blockchain.go:148-174) sends an HTTP GET, checks the status and decodes JSON. The model replaces it with the `fetch` oracle.
- SHA-256, hex encoding and `json.Marshal` inside `GenerateHash` are library calls. They become the abstract `digest`. With no collision resistance assumed, the property that changing a transaction invalidates the block's proof cannot be proved, so it is not stated.
- `time.Now().Unix()` is replaced by the parameter `now`.
- The `log.Printf` calls only produce output and are not modelled.
- Map iteration order in `ResolveConflicts` is not fixed by Go. The model makes a nondeterministic choice and proves its results for every order.
- `Transaction.Amount` is a float64 in the program. It is a `real` here because no arithmetic is ever done on it.
- `Chain` and `Nodes` (blockchain/blockchain.go:18-20, 74-76) only return a field. The model reads the fields `chain` and `nodes` directly.
- Go pointers to blocks and shared slices become values. After a block is appended nothing mutates it. Appending to the pending list cannot change the elements a block's transaction slice already holds.
- A fetched chain whose JSON holds `null` blocks would make the validator dereference a nil pointer. Model blocks are values, so this case does not arise.
- Integer widths are not modelled: `Index`, `Proof` and `TimeStamp` are unbounded. Go's proof counter would wrap after 2^63 - 1 attempts.
- The HTTP server, routes, node-id generation, request decoding and response writing in `main.go` are I/O plumbing. The node id is a parameter of `Node.Mine`. When decoding fails, `registerNode` writes a 400 response but does not return; the model takes the decoded address list as given.
- Request handlers run concurrently without locking. The model has one sequential owner of the ledger.
- Ledger.BlockChain.ProofOfWork: requires that some proof succeeds (`Solvable`). An abstract digest gives no way to prove termination, and the program would loop forever otherwise. So the model proves the result only for blocks that have a solution.
- Ledger.BlockChain.constructor: requires that the genesis candidate is solvable, for the same reason.
- Node.Mine: requires a non-empty chain (the program indexes the last block) and a solvable candidate block, for the same reason.
