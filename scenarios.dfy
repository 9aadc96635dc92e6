/** Sequences of ledger operations as the request handlers run them. */
module Scenarios {
  import opened LedgerTypes
  import opened ChainValidation
  import opened Ledger

  /** The mining handler: search a proof against the last block, credit the miner with one
      "karas", and seal the pool onto the chain with the digest of that last block. The
      mined block links to the old last block, so mining keeps a valid chain valid. */
  method Mine(ledger: Blockchain, nodeIdentifier: string, now: real) returns (block: Block)
    requires ledger.Valid()
    requires exists p :: p >= 0 && ledger.validProof(ledger.LastBlock().proof, p)
    modifies ledger`chain, ledger`pendingTransactions
    ensures ledger.Valid()
    ensures ledger.chain == old(ledger.chain) + [block]
    ensures block.transactions == old(ledger.pendingTransactions) + [Transaction("0", nodeIdentifier, "karas", 1.0)]
    ensures ledger.pendingTransactions == [] && ledger.nodes == old(ledger.nodes)
    ensures Links(ledger.hash, ledger.validProof, old(ledger.LastBlock()), block)
    ensures forall q :: 0 <= q < block.proof ==> !ledger.validProof(old(ledger.LastBlock()).proof, q)
    ensures IsValidChain(ledger.hash, ledger.validProof, old(ledger.chain))
            ==> IsValidChain(ledger.hash, ledger.validProof, ledger.chain)
    ensures IndexContinuous(old(ledger.chain)) ==> IndexContinuous(ledger.chain)
  {
    ghost var chain0 := ledger.chain;
    ghost var pool0 := ledger.pendingTransactions;
    var lastBlock := ledger.LastBlock();
    var lastProof := lastBlock.proof;
    var proof := ledger.ProofOfWork(lastProof);
    var _ := ledger.NewTransaction("0", nodeIdentifier, "karas", 1.0);
    assert ledger.chain == chain0;
    assert ledger.pendingTransactions == pool0 + [Transaction("0", nodeIdentifier, "karas", 1.0)];
    var previousHash := ledger.hash(lastBlock);
    block := ledger.NewBlock(proof, Some(previousHash), now);
    assert block.previousHash == ledger.hash(lastBlock) && block.proof == proof;
    assert Links(ledger.hash, ledger.validProof, lastBlock, block);
    AppendValidity(ledger.hash, ledger.validProof, chain0, block);
  }

  /** Registering the same address twice leaves the registry as one registration does. */
  method RegisterTwice(ledger: Blockchain, address: string)
    modifies ledger`nodes
    ensures ledger.nodes == old(ledger.nodes) + {ledger.netloc(address)}
  {
    ledger.RegisterNode(address);
    ledger.RegisterNode(address);
  }
}
