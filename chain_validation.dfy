/** The validity of a chain: every block is linked to its predecessor by hash and by proof. */
module ChainValidation {
  import opened LedgerTypes

  /** `block` may follow `prev`: it carries the digest of `prev`, and the pair of proofs
      satisfies the proof-of-work predicate. */
  predicate Links(hash: Block -> string, validProof: (int, int) -> bool, prev: Block, block: Block)
  {
    block.previousHash == hash(prev) && validProof(prev.proof, block.proof)
  }

  /** Every adjacent pair of blocks is linked. Nothing is asked of the first block. */
  predicate IsValidChain(hash: Block -> string, validProof: (int, int) -> bool, chain: seq<Block>)
  {
    forall i :: 0 < i < |chain| ==> Links(hash, validProof, chain[i - 1], chain[i])
  }

  /** A chain holding only its first block is always valid. */
  lemma SingleBlockIsValid(hash: Block -> string, validProof: (int, int) -> bool, genesis: Block)
    ensures IsValidChain(hash, validProof, [genesis])
  {
  }

  /** A two-block chain is valid exactly when the second block names the digest of the
      first and the two proofs form a valid pair; a wrong `previousHash` or a bad proof
      pair each make it invalid. */
  lemma TwoBlockValidity(hash: Block -> string, validProof: (int, int) -> bool, genesis: Block, block: Block)
    ensures IsValidChain(hash, validProof, [genesis, block])
            <==> block.previousHash == hash(genesis) && validProof(genesis.proof, block.proof)
  {
    var chain := [genesis, block];
    if Links(hash, validProof, genesis, block) {
      forall i | 0 < i < |chain|
        ensures Links(hash, validProof, chain[i - 1], chain[i])
      {
        assert i == 1;
      }
    } else {
      assert !Links(hash, validProof, chain[1 - 1], chain[1]);
    }
  }

  /** Appending a block keeps a chain valid exactly when the block links to the old last
      block; the validity of a chain is decided block by block as it grows. */
  lemma {:induction false} AppendValidity(hash: Block -> string, validProof: (int, int) -> bool, chain: seq<Block>, block: Block)
    requires |chain| > 0
    ensures IsValidChain(hash, validProof, chain + [block])
            <==> IsValidChain(hash, validProof, chain) && Links(hash, validProof, chain[|chain| - 1], block)
  {
    var longer := chain + [block];
    if IsValidChain(hash, validProof, longer) {
      forall i | 0 < i < |chain|
        ensures Links(hash, validProof, chain[i - 1], chain[i])
      {
        assert longer[i - 1] == chain[i - 1] && longer[i] == chain[i];
      }
      assert longer[|chain| - 1] == chain[|chain| - 1] && longer[|chain|] == block;
    }
    if IsValidChain(hash, validProof, chain) && Links(hash, validProof, chain[|chain| - 1], block) {
      forall i | 0 < i < |longer|
        ensures Links(hash, validProof, longer[i - 1], longer[i])
      {
        if i < |chain| {
          assert longer[i - 1] == chain[i - 1] && longer[i] == chain[i];
        } else {
          assert longer[i - 1] == chain[|chain| - 1] && longer[i] == block;
        }
      }
    }
  }
}
