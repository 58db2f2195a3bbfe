/** Blocks and their validation (block.rs). */
module Blocks {
  import opened Types

  datatype Header = Header(
    number: nat,
    parentHash: Hash,
    transactionsRoot: Hash,
    stateRoot: Hash,
    timestamp: nat,
    proposer: Address,
    gasLimit: nat,
    gasUsed: nat,
    extraData: seq<nat>)

  datatype Block = Block(header: Header, transactions: seq<Transaction>, signatures: seq<nat>)

  datatype BlockError =
    | BadNumber | ParentMismatch | BadTimestamp | GasOverLimit
    | InvalidTransaction | RootMismatch | GasMismatch

  predicate IsGenesis(b: Block) {
    b.header.number == 0 && b.header.parentHash == ZERO_HASH
  }

  function TotalGas(txs: seq<Transaction>): nat {
    if txs == [] then 0 else txs[0].gasLimit + TotalGas(txs[1..])
  }

  /** The checks of a header against its parent's header, in the source's order. */
  function ValidateHeader(header: Header, parent: Header, hash: Header -> Hash): Option<BlockError> {
    if header.number != parent.number + 1 then Some(BadNumber)
    else if header.parentHash != hash(parent) then Some(ParentMismatch)
    else if header.timestamp <= parent.timestamp then Some(BadTimestamp)
    else if header.gasUsed > header.gasLimit then Some(GasOverLimit)
    else None
  }

  /** The checks of a block against its parent. `rootOk` stands for the transactions-root comparison. */
  function Validate(b: Block, parent: Header, hash: Header -> Hash, rootOk: Block -> bool): Option<BlockError> {
    var headerError := ValidateHeader(b.header, parent, hash);
    if headerError.Some? then headerError
    else if exists i :: 0 <= i < |b.transactions| && !ValidBasic(b.transactions[i]) then Some(InvalidTransaction)
    else if b.transactions != [] && !rootOk(b) then Some(RootMismatch)
    else if TotalGas(b.transactions) % U64 != b.header.gasUsed then Some(GasMismatch)
    else None
  }

  /** A block passes validation exactly when all of this holds of it and its parent. */
  lemma ValidateIff(b: Block, parent: Header, hash: Header -> Hash, rootOk: Block -> bool)
    ensures Validate(b, parent, hash, rootOk).None? <==>
      && b.header.number == parent.number + 1
      && b.header.parentHash == hash(parent)
      && b.header.timestamp > parent.timestamp
      && b.header.gasUsed <= b.header.gasLimit
      && (forall i :: 0 <= i < |b.transactions| ==> ValidBasic(b.transactions[i]))
      && (b.transactions != [] ==> rootOk(b))
      && b.header.gasUsed == TotalGas(b.transactions) % U64
  {
  }

  /** A refusal names the first check that fails. */
  lemma ValidateReports(b: Block, parent: Header, hash: Header -> Hash, rootOk: Block -> bool)
    ensures var h, r := b.header, Validate(b, parent, hash, rootOk);
      && (r == Some(BadNumber) <==> h.number != parent.number + 1)
      && (r == Some(ParentMismatch) ==> h.number == parent.number + 1 && h.parentHash != hash(parent))
      && (r == Some(BadTimestamp) ==> h.parentHash == hash(parent) && h.timestamp <= parent.timestamp)
      && (r == Some(GasOverLimit) ==> h.timestamp > parent.timestamp && h.gasUsed > h.gasLimit)
      && (r == Some(InvalidTransaction) ==>
            h.gasUsed <= h.gasLimit && exists i :: 0 <= i < |b.transactions| && !ValidBasic(b.transactions[i]))
      && (r == Some(RootMismatch) ==>
            && (forall i :: 0 <= i < |b.transactions| ==> ValidBasic(b.transactions[i]))
            && b.transactions != [] && !rootOk(b))
      && (r == Some(GasMismatch) ==>
            && (b.transactions == [] || rootOk(b))
            && TotalGas(b.transactions) % U64 != h.gasUsed)
  {
  }
}
