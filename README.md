# KarasCoin ledger, modelled in Dafny

This project models the `Blockchain` class of KarasCoin (`model/Blockchain.py`), a small
in-memory ledger of fish catches. The ledger holds three pieces of state:

- `chain`: the append-only list of sealed blocks, starting with a genesis block;
- `pending_transactions`: the pool of catches waiting to be sealed into the next block;
- `nodes`: the set of registered peers, each stored as the `netloc` of the address it was
  registered with.

Its operations seal the pool into a new block, add a transaction to the pool, register a
peer, validate a chain pairwise (hash linkage and proof of work), search for a proof of
work, and resolve conflicts with the peers by the longest-valid-chain rule.

Modules, one per concept:

- `LedgerTypes` (`ledger_types.dfy`): `Transaction`, `Block`, `PeerResponse`, the genesis
  constants (`"rybka"`, `100`), status 200, and the Python `or` fallback on `previous_hash`
  (`Supplied`: present and non-empty).
- `ChainValidation` (`chain_validation.dfy`): `Links` and `IsValidChain`, the
  specification of `valid_chain`, and lemmas about it.
- `Consensus` (`consensus.dfy`): `Scan`, the pass `resolve_conflicts` makes over the peer
  replies, and `IsFirstLongest`, an independent statement of what that pass selects.
- `Ledger` (`blockchain.dfy`): the class `Blockchain` with the fields `chain`,
  `pendingTransactions` and `nodes`, a method for each of `new_block`, `new_transaction`,
  `register_node`, `valid_chain`, `proof_of_work` and `resolve_conflicts`, and the
  function `LastBlock` for the `last_block` property. `hash` and `valid_proof` are not
  members: they are the constructor parameters described below.
- `Scenarios` (`scenarios.dfy`): the mining request handler of `main.py` replayed on the
  class, and a double registration.

Foreign inputs are parameters of the model, so every property holds whatever they are:

- the block digest (`json.dumps(sort_keys=True)` then SHA-256) is the constructor argument
  `hash: Block -> string`;
- the proof predicate (a `"0000"` prefix of SHA-256 over the decimal concatenation of the
  two proofs) is the constructor argument `validProof: (int, int) -> bool`;
- `urlparse(address).netloc` is the constructor argument `netloc: string -> string`;
- `time()` is the argument `now: real` of the constructor and of `NewBlock`;
- `requests.get(f'http://{node}/chain')` is the argument `fetch: string -> PeerResponse`
  of `ResolveConflicts`. The order in which Python iterates the node set is the argument
  `order`, which must list every registered node exactly once (`Enumerates`).

Two observations from the source:

- `valid_chain` checks hash linkage and proofs but not the `index` field. A peer chain
  adopted by `resolve_conflicts` therefore need not have continuous indices. The model
  does not make index continuity a class invariant. `NewBlock` keeps it when it already
  holds, and `NewTransaction` returns `|chain| + 1` only under it.
- `resolve_conflicts` tests `if new_chain:`, which is false for an empty list as well as
  for `None`. A chosen chain is always longer than the non-empty local chain, so the two
  tests agree. The method keeps the source's test and proves that it agrees.

## Model

| member | source | states |
|---|---|---|
| `Ledger.Blockchain.constructor` | model/Blockchain.py:30-37 | a new ledger's chain is exactly the genesis block (index 1, empty transactions, proof 100, previous hash "rybka"); pool and registry are empty; indices are continuous |
| `Ledger.Blockchain.NewBlock` | model/Blockchain.py:135-155 | the new block has index old length + 1 and holds the pool as it was; its previous hash is the argument when that is present and non-empty, otherwise the digest of the old last block; the chain grows by exactly that block at the end, the pool is emptied, the registry is untouched, the new block is then `LastBlock()`, and index continuity is preserved |
| `Ledger.Blockchain.NewTransaction` | model/Blockchain.py:167-186 | exactly one transaction (angler, fishery, fish, amount = weight) is appended to the pool; chain and registry are untouched; the result is the last block's index + 1, which equals the next block's index when indices are continuous |
| `Ledger.Blockchain.RegisterNode` | model/Blockchain.py:93-101 | the registry gains the netloc of the address and nothing else changes |
| `Ledger.Blockchain.ValidChain` | model/Blockchain.py:39-62 | on a non-empty candidate the loop answers true exactly when every block after the first carries the digest of its predecessor and forms a valid proof pair with it |
| `Ledger.Blockchain.ProofOfWork` | model/Blockchain.py:103-117 | when some non-negative solution exists, the search returns the smallest one: it is non-negative, valid with the last proof, and no smaller non-negative proof is valid |
| `Ledger.Blockchain.ResolveConflicts` | model/Blockchain.py:64-91 | the chain is replaced exactly when some registered peer answers 200 with a valid chain strictly longer than the local one; the new chain is then valid, longer, the reply of a registered peer, and at least as long as every eligible reply; otherwise the chain is unchanged and the result is false |
| `Ledger.Blockchain.ResolutionFacts` | model/Blockchain.py:71-91 | the selection of the pass, restated over the registered peers: a chain is chosen iff some peer's reply is eligible, and the chosen chain is a peer's valid, strictly longer, longest reply |
| `ChainValidation.SingleBlockIsValid` | model/Blockchain.py:49-62 | a chain holding only its first block is valid |
| `ChainValidation.TwoBlockValidity` | model/Blockchain.py:49-62 | a two-block chain is valid iff the second block carries the first block's digest and the proof pair is valid, so a broken link or a bad proof each invalidate it |
| `ChainValidation.AppendValidity` | model/Blockchain.py:49-62 | appending a block to a non-empty chain yields a valid chain iff the old chain is valid and the block links to the old last block |
| `Consensus.ScanSelectsFirstLongest` | model/Blockchain.py:74-85 | after the pass the bar is at least the local length and at least every eligible reply's length; nothing is chosen iff no reply is eligible, and then the bar is the local length; otherwise the chosen chain is the first longest eligible reply and the bar is its length |
| `Consensus.OutcomeIgnoresOrder` | model/Blockchain.py:76-85 | two passes over the same replies in different orders agree on whether a chain is chosen and on the final length |
| `Consensus.NoLongerReplyKeepsLocal` | model/Blockchain.py:74-91 | when no reply has status 200 and a strictly longer chain, nothing is chosen and the bar stays at the local length |
| `Consensus.ThreePeerScenario` | model/Blockchain.py:74-91 | with a one-block local chain, a valid three-block reply, an invalid five-block reply and a failed reply, the three-block chain is chosen with bar 3 |
| `Scenarios.Mine` | main.py:30-46 | mining appends one block that holds the old pool plus the reward transaction ("0", node id, "karas", 1), links to the old last block with the smallest valid proof, empties the pool, and keeps a valid chain valid and continuous indices continuous |
| `Scenarios.RegisterTwice` | model/Blockchain.py:100-101 | registering the same address twice leaves the registry as one registration does |

## Left out

- SHA-256, JSON canonical encoding and the `"0000"` difficulty test: foreign library code, kept as the parameters `hash` and `validProof`; collision resistance and the digest's hex form are not modelled.
- `urlparse` parsing details: kept as the parameter `netloc`.
- Wall-clock time: the timestamp is an argument, with no properties.
- Floating point: timestamps and catch weights are `real`, with no rounding.
- Network transport: `requests.get` is the `fetch` argument, which always yields a status and a parsed chain. A transport exception in the source propagates out of `resolve_conflicts` and aborts it; the model has no such path. A reply whose JSON is not a list of well-formed blocks is not modelled either.
- Ledger.Blockchain.ProofOfWork: requires that some non-negative valid proof exists; without one the source loops forever, and non-termination is not modelled.
- Empty chain: `LastBlock`, `NewTransaction`, and `NewBlock` without a present, non-empty `previousHash` require a non-empty chain. On an empty chain the source raises `IndexError` (model/Blockchain.py:151, 165, 186). The constructor seals the genesis block before anything else runs, so a ledger never reaches that state; the model has no `IndexError` path.
- Ledger.Blockchain.ValidChain: requires a non-empty candidate; the source raises an `IndexError` on an empty one, and its only caller never passes one.
- Aliasing of the returned block dictionary with the stored one, and of the peer reply objects: values are immutable in the model.
- Concurrency and locking around the shared ledger: the model is single-threaded.
- The FastAPI routes, CORS middleware, `uuid4` node identity and the `/chain` and `/nodes/resolve` responses of `main.py`: request plumbing; only the mining handler is replayed.
