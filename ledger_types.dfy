/** Values exchanged by the ledger: transactions, blocks and the replies of peers. */
module LedgerTypes {

  datatype Option<+T> = None | Some(value: T)

  /** A catch recorded on the ledger; `amount` is the weight of the fish. */
  datatype Transaction = Transaction(angler: string, fishery: string, fish: string, amount: real)

  /** A block as the ledger stores it; `timestamp` is the wall-clock reading at sealing time. */
  datatype Block = Block(
    index: int,
    timestamp: real,
    transactions: seq<Transaction>,
    proof: int,
    previousHash: string)

  /** What a peer answers to a request for its chain: an HTTP status and the chain it sent. */
  datatype PeerResponse = PeerResponse(status: int, chain: seq<Block>)

  /** The placeholder `previous_hash` of the genesis block. */
  const GenesisPreviousHash: string := "rybka"

  /** The fixed proof of the genesis block. */
  const GenesisProof: int := 100

  /** The only status a peer reply is accepted with. */
  const StatusOk: int := 200

  /** A `previous_hash` argument counts as given only when it is present and non-empty,
      as Python's `or` treats both `None` and `""` as absent. */
  predicate Supplied(previousHash: Option<string>)
  {
    previousHash.Some? && previousHash.value != ""
  }

  /** Every block sits at the position its index names (the genesis block has index 1). */
  ghost predicate IndexContinuous(chain: seq<Block>)
  {
    forall i :: 0 <= i < |chain| ==> chain[i].index == i + 1
  }
}
