/** The in-memory ledger: the chain of sealed blocks, the pool of pending transactions and
    the registry of peers, with the operations that change them. */
module Ledger {
  import opened LedgerTypes
  import opened ChainValidation
  import opened Consensus

  class Blockchain {
    /** The digest of a block (SHA-256 over its JSON form with sorted keys). */
    const hash: Block -> string
    /** The proof-of-work predicate on a pair of proofs (a "0000" prefix of the digest
        of their decimal concatenation). */
    const validProof: (int, int) -> bool
    /** The `netloc` of an address, as `urlparse(address).netloc` gives it (empty when the
        address has no `//`). */
    const netloc: string -> string

    var chain: seq<Block>
    var pendingTransactions: seq<Transaction>
    var nodes: set<string>

    /** Once the genesis block exists the chain is never empty. */
    ghost predicate Valid()
      reads this
    {
      |chain| > 0
    }

    /** A new ledger holds only the genesis block, sealed at `now`, and no pending
        transactions or peers. */
    constructor (hash: Block -> string, validProof: (int, int) -> bool, netloc: string -> string, now: real)
      ensures Valid()
      ensures chain == [Block(1, now, [], GenesisProof, GenesisPreviousHash)]
      ensures pendingTransactions == [] && nodes == {}
      ensures IndexContinuous(chain)
      ensures this.hash == hash && this.validProof == validProof && this.netloc == netloc
    {
      this.hash := hash;
      this.validProof := validProof;
      this.netloc := netloc;
      chain := [];
      pendingTransactions := [];
      nodes := {};
      new;
      var genesis := NewBlock(GenesisProof, Some(GenesisPreviousHash), now);
    }

    /** The most recently appended block; there is none only before the genesis block. */
    function LastBlock(): (last: Block)
      reads this
      requires |chain| > 0
    {
      chain[|chain| - 1]
    }

    /** Seals the pending pool into a block numbered one past the chain's length, stamped
        with `previousHash` or, when that is absent or empty, with the digest of the last
        block; appends it and empties the pool. */
    method NewBlock(proof: int, previousHash: Option<string>, now: real) returns (block: Block)
      requires |chain| > 0 || Supplied(previousHash)
      modifies this`chain, this`pendingTransactions
      ensures block.index == |old(chain)| + 1
      ensures block.timestamp == now
      ensures block.transactions == old(pendingTransactions)
      ensures block.proof == proof
      ensures block.previousHash == if Supplied(previousHash) then previousHash.value else hash(old(chain)[|old(chain)| - 1])
      ensures chain == old(chain) + [block]
      ensures pendingTransactions == []
      ensures Valid() && LastBlock() == block
      ensures IndexContinuous(old(chain)) ==> IndexContinuous(chain)
    {
      var stamp := if Supplied(previousHash) then previousHash.value else hash(chain[|chain| - 1]);
      block := Block(|chain| + 1, now, pendingTransactions, proof, stamp);
      pendingTransactions := [];
      chain := chain + [block];
    }

    /** Adds a transaction to the end of the pool and answers the index of the block it is
        expected to land in: one past the index of the last block, which is the index the
        next sealed block gets whenever the chain's indices are continuous. */
    method NewTransaction(angler: string, fishery: string, fish: string, weight: real) returns (index: int)
      requires Valid()
      modifies this`pendingTransactions
      ensures pendingTransactions == old(pendingTransactions) + [Transaction(angler, fishery, fish, weight)]
      ensures index == LastBlock().index + 1
      ensures IndexContinuous(chain) ==> index == |chain| + 1
    {
      pendingTransactions := pendingTransactions + [Transaction(angler, fishery, fish, weight)];
      index := LastBlock().index + 1;
    }

    /** Adds the `netloc` of `address` to the registry. */
    method RegisterNode(address: string)
      modifies this`nodes
      ensures nodes == old(nodes) + {netloc(address)}
    {
      nodes := nodes + {netloc(address)};
    }

    /** Walks the candidate pairwise and answers whether every block links to its
        predecessor by digest and by proof. `valid_chain` reads `chain[0]` first, so an
        empty candidate is outside its domain. */
    method ValidChain(candidate: seq<Block>) returns (ok: bool)
      requires |candidate| > 0
      ensures ok <==> IsValidChain(hash, validProof, candidate)
    {
      var lastBlock := candidate[0];
      var currentIndex := 1;
      while currentIndex < |candidate|
        invariant 1 <= currentIndex <= |candidate|
        invariant lastBlock == candidate[currentIndex - 1]
        invariant forall i :: 0 < i < currentIndex ==> Links(hash, validProof, candidate[i - 1], candidate[i])
      {
        var block := candidate[currentIndex];
        if block.previousHash != hash(lastBlock) {
          return false;
        }
        if !validProof(lastBlock.proof, block.proof) {
          return false;
        }
        lastBlock := block;
        currentIndex := currentIndex + 1;
      }
      return true;
    }

    /** Counts up from 0 to the first proof that forms a valid pair with `lastProof`. The
        search returns only if such a proof exists, which is what the precondition states. */
    method ProofOfWork(lastProof: int) returns (proof: int)
      requires exists p :: p >= 0 && validProof(lastProof, p)
      ensures proof >= 0 && validProof(lastProof, proof)
      ensures forall q :: 0 <= q < proof ==> !validProof(lastProof, q)
    {
      ghost var solution :| solution >= 0 && validProof(lastProof, solution);
      proof := 0;
      while !validProof(lastProof, proof)
        invariant 0 <= proof <= solution
        invariant forall q :: 0 <= q < proof ==> !validProof(lastProof, q)
        decreases solution - proof
      {
        proof := proof + 1;
      }
    }

    /** Asks every registered peer, in `order`, for its chain (`fetch` gives the reply) and
        adopts the first longest valid chain that is strictly longer than the local one.
        Answers whether the local chain was replaced. */
    method ResolveConflicts(order: seq<string>, fetch: string -> PeerResponse) returns (replaced: bool)
      requires Valid()
      requires Enumerates(order, nodes)
      modifies this`chain
      ensures Valid()
      ensures var selection := Scan(hash, validProof, Responses(fetch, order), |old(chain)|);
              && replaced == selection.newChain.Some?
              && chain == (if replaced then selection.newChain.value else old(chain))
      ensures replaced <==> exists node :: node in nodes && Eligible(hash, validProof, fetch(node), |old(chain)|)
      ensures replaced ==> IsValidChain(hash, validProof, chain) && |chain| > |old(chain)|
      ensures replaced ==> (forall node :: node in nodes && Eligible(hash, validProof, fetch(node), |old(chain)|)
                              ==> |fetch(node).chain| <= |chain|)
      ensures replaced ==> exists node :: node in nodes && fetch(node) == PeerResponse(StatusOk, chain)
    {
      ghost var responses := Responses(fetch, order);
      var maxLength: nat := |chain|;
      var newChain: Option<seq<Block>> := None;
      var i := 0;
      while i < |order|
        invariant 0 <= i <= |order|
        invariant chain == old(chain)
        invariant Selection(maxLength, newChain) == Scan(hash, validProof, responses[..i], |chain|)
        invariant maxLength >= |chain|
        invariant newChain.Some? ==> |newChain.value| == maxLength
      {
        assert responses[..i + 1][..i] == responses[..i];
        var response := fetch(order[i]);
        if response.status == StatusOk {
          var length := |response.chain|;
          if length > maxLength {
            var ok := ValidChain(response.chain);
            if ok {
              maxLength := length;
              newChain := Some(response.chain);
            }
          }
        }
        i := i + 1;
      }
      assert responses[..|order|] == responses;
      ResolutionFacts(order, fetch, responses);
      if newChain.Some? && |newChain.value| > 0 {
        chain := newChain.value;
        return true;
      }
      return false;
    }

    /** The outcome of the pass over `responses`, restated over the registered peers. */
    lemma ResolutionFacts(order: seq<string>, fetch: string -> PeerResponse, responses: seq<PeerResponse>)
      requires Enumerates(order, nodes)
      requires responses == Responses(fetch, order)
      ensures var selection := Scan(hash, validProof, responses, |chain|);
        && (selection.newChain.Some? <==> exists node :: node in nodes && Eligible(hash, validProof, fetch(node), |chain|))
        && (selection.newChain.Some? ==>
              && IsValidChain(hash, validProof, selection.newChain.value)
              && |selection.newChain.value| > |chain|
              && (forall node :: node in nodes && Eligible(hash, validProof, fetch(node), |chain|)
                    ==> |fetch(node).chain| <= |selection.newChain.value|)
              && exists node :: node in nodes && fetch(node) == PeerResponse(StatusOk, selection.newChain.value))
    {
      var selection := Scan(hash, validProof, responses, |chain|);
      ScanSelectsFirstLongest(hash, validProof, responses, |chain|);
      forall node | node in nodes
        ensures fetch(node) in responses
      {
        var k :| 0 <= k < |order| && order[k] == node;
        assert responses[k] == fetch(node);
      }
      if selection.newChain.Some? {
        var i :| IsFirstLongest(hash, validProof, responses, |chain|, i) && responses[i].chain == selection.newChain.value;
        assert order[i] in nodes && fetch(order[i]) == responses[i];
      } else {
        forall node | node in nodes
          ensures !Eligible(hash, validProof, fetch(node), |chain|)
        {
          assert fetch(node) in responses;
        }
      }
    }
  }
}
